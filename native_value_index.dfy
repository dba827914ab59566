/**
 * The value index: a buffer from atomic value to the node occurrences of the
 * document being indexed, flushed as one posting segment per value into a
 * keyed store under a write lock, and compacted when a document or a whole
 * collection is dropped.
 *
 * The store is modelled by its contract: a map from key to the sequence of
 * segments appended under it, a ghost flag for the write lock, and fixed
 * fault conditions (read-only store, lock not obtainable, keys whose writes
 * are refused or fail with an I/O error, records whose decoding stops early).
 */
module ValueIndexes {
  import opened Wrappers
  import opened NodeProxies
  import opened Postings

  // ---------------------------------------------------------------------------
  // Atomic values and the conversion of text
  // ---------------------------------------------------------------------------

  /** A typed value: its type code and its lexical form. */
  datatype AtomicValue = AtomicValue(typ: int, lexical: string)

  /**
   * The part of the type system the index relies on: the string type, the
   * subtype test, the typed conversion of a string (None where it raises an
   * error) and whether a value can serve as an index key.
   */
  datatype TypeSystem = TypeSystem(
    stringType: int,
    subTypeOf: (int, int) -> bool,
    convert: (string, int) -> Option<AtomicValue>,
    indexable: AtomicValue -> bool)

  /**
   * The key a text node is indexed under: the text itself when the declared
   * type is a string type, its conversion otherwise; nothing when the
   * conversion fails or the value cannot be an index key.
   */
  function ConvertToAtomic(ts: TypeSystem, specType: int, text: string): (r: Option<AtomicValue>)
    ensures r.Some? ==> ts.indexable(r.value)
    ensures ts.subTypeOf(specType, ts.stringType) ==>
      (r.Some? <==> ts.indexable(AtomicValue(ts.stringType, text))) &&
      (r.Some? ==> r.value == AtomicValue(ts.stringType, text))
    ensures !ts.subTypeOf(specType, ts.stringType) ==>
      (r.Some? <==> ts.convert(text, specType).Some? && ts.indexable(ts.convert(text, specType).value)) &&
      (r.Some? ==> r == ts.convert(text, specType))
  {
    var atomic :=
      if ts.subTypeOf(specType, ts.stringType) then Some(AtomicValue(ts.stringType, text))
      else ts.convert(text, specType);
    if atomic.Some? && ts.indexable(atomic.value) then atomic else None
  }

  // ---------------------------------------------------------------------------
  // The buffer
  // ---------------------------------------------------------------------------

  /** The occurrences buffered under `v`, none when `v` is not a key. */
  function Listed(pending: map<AtomicValue, seq<NodeProxy>>, v: AtomicValue): seq<NodeProxy> {
    if v in pending then pending[v] else []
  }

  /** The buffer after one text node: its occurrence appended under its key, if it has one. */
  function Buffered(pending: map<AtomicValue, seq<NodeProxy>>, ts: TypeSystem, specType: int, text: string, proxy: NodeProxy)
    : (r: map<AtomicValue, seq<NodeProxy>>)
    ensures ConvertToAtomic(ts, specType, text).None? ==> r == pending
    ensures ConvertToAtomic(ts, specType, text).Some? ==>
      var v := ConvertToAtomic(ts, specType, text).value;
      r.Keys == pending.Keys + {v} && r[v] == Listed(pending, v) + [proxy] &&
      forall u :: u in pending && u != v ==> r[u] == pending[u]
  {
    match ConvertToAtomic(ts, specType, text)
    case None => pending
    case Some(v) => pending[v := Listed(pending, v) + [proxy]]
  }

  /** One text node seen while indexing: its text and its occurrence. */
  datatype TextNode = TextNode(text: string, proxy: NodeProxy)

  /** The buffer after a run of text nodes, starting empty. */
  function BufferAll(ts: TypeSystem, specType: int, nodes: seq<TextNode>): map<AtomicValue, seq<NodeProxy>> {
    if nodes == [] then map[]
    else
      var last := nodes[|nodes| - 1];
      Buffered(BufferAll(ts, specType, nodes[..|nodes| - 1]), ts, specType, last.text, last.proxy)
  }

  /** The occurrences of the nodes whose text converts to `v`, in the order the nodes came. */
  function Matching(ts: TypeSystem, specType: int, nodes: seq<TextNode>, v: AtomicValue): seq<NodeProxy> {
    if nodes == [] then []
    else
      var last := nodes[|nodes| - 1];
      Matching(ts, specType, nodes[..|nodes| - 1], v) +
        (if ConvertToAtomic(ts, specType, last.text) == Some(v) then [last.proxy] else [])
  }

  /**
   * The buffer collects, under each value, exactly the occurrences whose
   * text converts to it, in arrival order, and holds no empty list.
   */
  lemma {:induction false} BufferCollects(ts: TypeSystem, specType: int, nodes: seq<TextNode>)
    ensures forall v :: Listed(BufferAll(ts, specType, nodes), v) == Matching(ts, specType, nodes, v)
    ensures forall v :: v in BufferAll(ts, specType, nodes) <==> Matching(ts, specType, nodes, v) != []
  {
    if nodes != [] {
      BufferCollects(ts, specType, nodes[..|nodes| - 1]);
    }
  }

  // ---------------------------------------------------------------------------
  // The store and its faults
  // ---------------------------------------------------------------------------

  /** A store key: the collection the value was indexed in, and the value. */
  datatype ValueKey = ValueKey(collection: int, value: AtomicValue)

  /** What a write to the store does: it happens, the store refuses it, it fails with an I/O error, or the store is read-only. */
  datatype WriteOutcome = Written | Refused | IOError | ReadOnly

  /**
   * The fault conditions of one store: read-only, the write lock not
   * obtainable, keys whose writes are refused, keys whose writes fail with
   * an I/O error, and for some records the number of leading segments that
   * decode before an error.
   */
  datatype Faults = Faults(
    readOnly: bool,
    lockBusy: bool,
    refuses: set<ValueKey>,
    ioFailing: set<ValueKey>,
    scanFault: map<ValueKey, nat>)

  function Outcome(f: Faults, k: ValueKey): WriteOutcome {
    if f.readOnly then ReadOnly
    else if k in f.ioFailing then IOError
    else if k in f.refuses then Refused
    else Written
  }

  /** The segments stored under `k`, none when `k` is not a key. */
  function Stored(records: map<ValueKey, seq<Segment>>, k: ValueKey): seq<Segment> {
    if k in records then records[k] else []
  }

  /** The keys of collection `cid`. */
  function CollectionKeys(records: map<ValueKey, seq<Segment>>, cid: int): set<ValueKey> {
    set k | k in records && k.collection == cid
  }

  /** `s` lists every element of `keys` exactly once. */
  ghost predicate Lists<T(!new)>(s: seq<T>, keys: set<T>) {
    (forall x :: x in s <==> x in keys) &&
    forall i, j :: 0 <= i < j < |s| ==> s[i] != s[j]
  }

  /** Lists the elements of a set in some order (the order of the store's key scan is not modelled). */
  method Enumerate<T(==,!new)>(keys: set<T>) returns (s: seq<T>)
    ensures Lists(s, keys)
  {
    s := [];
    var rest := keys;
    while rest != {}
      invariant forall x :: x in s || x in rest <==> x in keys
      invariant forall x :: x in s ==> x !in rest
      invariant forall i, j :: 0 <= i < j < |s| ==> s[i] != s[j]
      decreases rest
    {
      var x :| x in rest;
      s := s + [x];
      rest := rest - {x};
    }
  }

  class ValueStore {
    var records: map<ValueKey, seq<Segment>>
    ghost var held: bool
    const faults: Faults

    constructor (records0: map<ValueKey, seq<Segment>>, faults0: Faults)
      ensures records == records0 && faults == faults0 && !held
    {
      records := records0;
      faults := faults0;
      held := false;
    }

    /** Takes the write lock; fails when it cannot be obtained. */
    method Acquire() returns (ok: bool)
      requires !held
      modifies this
      ensures ok == !faults.lockBusy && held == ok && records == old(records)
    {
      ok := !faults.lockBusy;
      held := ok;
    }

    /** Gives up the write lock, whether it was obtained or not. */
    method Release()
      modifies this
      ensures !held && records == old(records)
    {
      held := false;
    }

    /** Appends a segment to the record under `key`, creating the record when it is new. */
    method Append(key: ValueKey, seg: Segment) returns (outcome: WriteOutcome)
      requires held
      modifies this
      ensures outcome == Outcome(faults, key) && held
      ensures records == if outcome == Written then old(records)[key := Stored(old(records), key) + [seg]] else old(records)
    {
      outcome := Outcome(faults, key);
      if outcome == Written {
        records := records[key := Stored(records, key) + [seg]];
      }
    }

    /** Replaces the record under `key`. */
    method Put(key: ValueKey, segs: seq<Segment>) returns (outcome: WriteOutcome)
      requires held
      modifies this
      ensures outcome == Outcome(faults, key) && held
      ensures records == if outcome == Written then old(records)[key := segs] else old(records)
    {
      outcome := Outcome(faults, key);
      if outcome == Written {
        records := records[key := segs];
      }
    }

    method Get(key: ValueKey) returns (segs: seq<Segment>)
      requires held
      ensures segs == Stored(records, key)
    {
      segs := Stored(records, key);
    }

    /** The keys under the prefix of collection `cid`. */
    method FindKeys(cid: int) returns (keys: seq<ValueKey>)
      requires held
      ensures Lists(keys, CollectionKeys(records, cid))
    {
      keys := Enumerate(CollectionKeys(records, cid));
    }

    /** Removes every key under the prefix of collection `cid`. */
    method RemoveAll(cid: int)
      requires held
      modifies this
      ensures held && records == WithoutCollection(old(records), cid)
    {
      records := WithoutCollection(records, cid);
    }
  }

  // ---------------------------------------------------------------------------
  // Flush
  // ---------------------------------------------------------------------------

  /** The document being indexed: its id and the id of its collection. */
  datatype DocRef = DocRef(docId: int, collection: int)

  /** The key's append goes through: the lock is obtained and the store accepts the write. */
  predicate Writes(f: Faults, k: ValueKey) {
    !f.lockBusy && Outcome(f, k) == Written
  }

  /** A flush that finds the store read-only once it holds the lock gives up at its first append. */
  predicate FlushAborts(f: Faults) {
    f.readOnly && !f.lockBusy
  }

  /**
   * The store after flushing the buffered values listed in `order` for
   * document `d`, one after the other: every value whose append goes
   * through gets the document's segment appended under its key.
   */
  function FlushedOver(records: map<ValueKey, seq<Segment>>, pending: map<AtomicValue, seq<NodeProxy>>,
                       order: seq<AtomicValue>, d: DocRef, f: Faults): map<ValueKey, seq<Segment>>
    requires forall v :: v in order ==> v in pending
  {
    if order == [] then records
    else
      var before := FlushedOver(records, pending, order[..|order| - 1], d, f);
      var v := order[|order| - 1];
      var key := ValueKey(d.collection, v);
      if Writes(f, key) then before[key := Stored(before, key) + [SegmentFor(d.docId, pending[v])]] else before
  }

  /** Every key ends up holding its old record, plus the document's segment when the key's value is flushed and written. */
  lemma {:induction false} FlushedOverAt(records: map<ValueKey, seq<Segment>>, pending: map<AtomicValue, seq<NodeProxy>>,
                                         order: seq<AtomicValue>, d: DocRef, f: Faults, k: ValueKey)
    requires forall v :: v in order ==> v in pending
    requires forall i, j :: 0 <= i < j < |order| ==> order[i] != order[j]
    ensures var r := FlushedOver(records, pending, order, d, f);
      var flushed := k.collection == d.collection && k.value in order && Writes(f, k);
      (k in r <==> k in records || flushed) &&
      Stored(r, k) == Stored(records, k) + (if flushed then [SegmentFor(d.docId, pending[k.value])] else [])
  {
    if order != [] {
      var front := order[..|order| - 1];
      var v := order[|order| - 1];
      FlushedOverAt(records, pending, front, d, f, k);
      assert order == front + [v];
      assert v !in front by {
        forall i | 0 <= i < |front| ensures front[i] != v {
          assert front[i] == order[i];
        }
      }
    }
  }

  /**
   * What a flush writes: under the key of each buffered value whose append
   * goes through, the old record followed by one segment that decodes to
   * the value's occurrences in gid order and counts them; every other key
   * keeps its record. The order the values are visited in makes no difference.
   */
  lemma FlushedRecords(records: map<ValueKey, seq<Segment>>, pending: map<AtomicValue, seq<NodeProxy>>,
                       order: seq<AtomicValue>, d: DocRef, f: Faults)
    requires Lists(order, pending.Keys)
    ensures forall v :: v in pending && Writes(f, ValueKey(d.collection, v)) ==>
      ValueKey(d.collection, v) in FlushedOver(records, pending, order, d, f)
    ensures forall v :: v in pending && Writes(f, ValueKey(d.collection, v)) ==>
      var r := FlushedOver(records, pending, order, d, f)[ValueKey(d.collection, v)];
      r == Stored(records, ValueKey(d.collection, v)) + [SegmentFor(d.docId, pending[v])] &&
      Decode(r[|r| - 1]) == PostingsOf(SortBy(pending[v], GidOf)) &&
      r[|r| - 1].count == |pending[v]|
    ensures forall k: ValueKey :: (k.collection != d.collection || k.value !in pending || !Writes(f, k)) ==>
      (k in FlushedOver(records, pending, order, d, f) <==> k in records) &&
      (k in records ==> FlushedOver(records, pending, order, d, f)[k] == records[k])
  {
    forall k: ValueKey {
      FlushedOverAt(records, pending, order, d, f, k);
    }
    forall v | v in pending && Writes(f, ValueKey(d.collection, v)) {
      SegmentRoundTrip(d.docId, pending[v]);
    }
  }

  // ---------------------------------------------------------------------------
  // Dropping a collection and a document
  // ---------------------------------------------------------------------------

  /** The store without the keys of collection `cid`. */
  function WithoutCollection(records: map<ValueKey, seq<Segment>>, cid: int): (r: map<ValueKey, seq<Segment>>)
    ensures forall k :: k in r <==> k in records && k.collection != cid
    ensures forall k :: k in r ==> r[k] == records[k]
  {
    map k | k in records && k.collection != cid :: records[k]
  }

  /** How many leading segments of the record under `k` decode, out of `n`. */
  function ScanLimit(f: Faults, k: ValueKey, n: nat): (r: nat)
    ensures r <= n
  {
    if k in f.scanFault && f.scanFault[k] < n then f.scanFault[k] else n
  }

  /** How the scan of one key ends: go on with the next key, stop on an I/O error, or raise the read-only error. */
  datatype StepEnd = Continue | Abort | Raise

  /**
   * One key of the document drop: the segments that decode are copied
   * except those of the target document; the rebuilt record is written
   * back only when a target segment was met.
   */
  function DropStep(records: map<ValueKey, seq<Segment>>, k: ValueKey, target: int, f: Faults)
    : (map<ValueKey, seq<Segment>>, StepEnd)
  {
    var segs := Stored(records, k);
    var scanned := segs[..ScanLimit(f, k, |segs|)];
    if !Mentions(scanned, target) then (records, Continue)
    else
      match Outcome(f, k)
      case Written => (records[k := Kept(scanned, target)], Continue)
      case Refused => (records, Continue)
      case IOError => (records, Abort)
      case ReadOnly => (records, Raise)
  }

  /** The document drop over the keys in scan order: the store afterwards, and whether the read-only error was raised. */
  function DropPass(records: map<ValueKey, seq<Segment>>, keys: seq<ValueKey>, target: int, f: Faults)
    : (map<ValueKey, seq<Segment>>, bool)
  {
    if keys == [] then (records, false)
    else
      var (r, e) := DropStep(records, keys[0], target, f);
      match e
      case Continue => DropPass(r, keys[1..], target, f)
      case Abort => (r, false)
      case Raise => (r, true)
  }

  /** The drop writes only to the keys it scans, and never adds or removes a key. */
  lemma {:induction false} DropPassFrame(records: map<ValueKey, seq<Segment>>, keys: seq<ValueKey>, target: int, f: Faults)
    requires forall k :: k in keys ==> k in records
    ensures DropPass(records, keys, target, f).0.Keys == records.Keys
    ensures forall k :: k in records && k !in keys ==> DropPass(records, keys, target, f).0[k] == records[k]
  {
    if keys != [] {
      var (r, e) := DropStep(records, keys[0], target, f);
      if e == Continue {
        DropPassFrame(r, keys[1..], target, f);
      }
    }
  }

  /** No key is refused, fails, or stops decoding early, and the store is writable. */
  predicate Clean(f: Faults, keys: seq<ValueKey>) {
    !f.readOnly && forall k :: k in keys ==> k !in f.ioFailing && k !in f.refuses && k !in f.scanFault
  }

  /** The record of every scanned key without the target's segments, every other record as it was. */
  function DocumentDropped(records: map<ValueKey, seq<Segment>>, keys: seq<ValueKey>, target: int): map<ValueKey, seq<Segment>> {
    map k | k in records :: if k in keys then Kept(records[k], target) else records[k]
  }

  /** Without faults the drop removes the target's segments from every scanned record and raises nothing. */
  lemma {:induction false} DropPassClean(records: map<ValueKey, seq<Segment>>, keys: seq<ValueKey>, target: int, f: Faults)
    requires Clean(f, keys)
    requires forall k :: k in keys ==> k in records
    requires forall i, j :: 0 <= i < j < |keys| ==> keys[i] != keys[j]
    ensures DropPass(records, keys, target, f) == (DocumentDropped(records, keys, target), false)
  {
    if keys == [] {
      assert DocumentDropped(records, keys, target) == records;
    } else {
      var k := keys[0];
      var segs := records[k];
      assert segs[..ScanLimit(f, k, |segs|)] == segs;
      var r := records[k := Kept(segs, target)];
      if !Mentions(segs, target) {
        KeptIdentity(segs, target);
        assert r == records;
      } else {
        assert Outcome(f, k) == Written;
      }
      assert DropStep(records, k, target, f) == (r, Continue);
      DistinctTail(keys);
      DropPassClean(r, keys[1..], target, f);
      DocumentDroppedStep(records, keys, target);
    }
  }

  lemma DistinctTail(keys: seq<ValueKey>)
    requires keys != [] && forall i, j :: 0 <= i < j < |keys| ==> keys[i] != keys[j]
    ensures forall i, j :: 0 <= i < j < |keys[1..]| ==> keys[1..][i] != keys[1..][j]
    ensures keys[0] !in keys[1..]
  {
    forall i, j | 0 <= i < j < |keys[1..]| ensures keys[1..][i] != keys[1..][j] {
      assert keys[1..][i] == keys[i + 1] && keys[1..][j] == keys[j + 1];
    }
    forall i | 0 <= i < |keys[1..]| ensures keys[1..][i] != keys[0] {
      assert keys[1..][i] == keys[i + 1];
    }
  }

  /** Dropping from the first scanned record, then from the rest, is dropping from all of them. */
  lemma DocumentDroppedStep(records: map<ValueKey, seq<Segment>>, keys: seq<ValueKey>, target: int)
    requires keys != [] && keys[0] in records && keys[0] !in keys[1..]
    ensures var k := keys[0];
      DocumentDropped(records[k := Kept(records[k], target)], keys[1..], target) == DocumentDropped(records, keys, target)
  {
    KeptIdempotent(records[keys[0]], target);
  }

  /**
   * After a drop without faults no scanned record holds a segment of the
   * target, and every other document's segments are kept, in their order.
   */
  lemma DropRemovesOnlyTarget(records: map<ValueKey, seq<Segment>>, keys: seq<ValueKey>, target: int, f: Faults)
    requires Clean(f, keys)
    requires forall k :: k in keys ==> k in records
    requires forall i, j :: 0 <= i < j < |keys| ==> keys[i] != keys[j]
    ensures var r := DropPass(records, keys, target, f).0;
      r.Keys == records.Keys &&
      (forall k :: k in keys ==> !Mentions(r[k], target)) &&
      (forall k, doc :: k in records && doc != target ==> Only(r[k], doc) == Only(records[k], doc))
  {
    DropPassClean(records, keys, target, f);
    forall k | k in keys {
      KeptDropsAll(records[k], target);
    }
    forall k, doc | k in records && doc != target {
      KeptOthers(records[k], target, doc);
    }
  }

  /** On a read-only store the drop writes nothing; it raises exactly when some scanned key holds a target segment. */
  lemma {:induction false} DropPassReadOnly(records: map<ValueKey, seq<Segment>>, keys: seq<ValueKey>, target: int, f: Faults)
    requires f.readOnly
    ensures DropPass(records, keys, target, f).0 == records
    ensures DropPass(records, keys, target, f).1 <==>
      exists i :: 0 <= i < |keys| && Mentions(Stored(records, keys[i])[..ScanLimit(f, keys[i], |Stored(records, keys[i])|)], target)
  {
    if keys != [] {
      DropPassReadOnly(records, keys[1..], target, f);
      var k := keys[0];
      if !Mentions(Stored(records, k)[..ScanLimit(f, k, |Stored(records, k)|)], target) {
        assert forall i :: 1 <= i < |keys| ==> keys[i] == keys[1..][i - 1];
        if DropPass(records, keys, target, f).1 {
          var i :| 0 <= i < |keys[1..]| && Mentions(Stored(records, keys[1..][i])[..ScanLimit(f, keys[1..][i], |Stored(records, keys[1..][i])|)], target);
          assert keys[i + 1] == keys[1..][i];
        }
      }
    }
  }

  /**
   * A record whose decoding stops after its first segment, a segment of the
   * target, is written back empty: the later segment of another document is
   * lost with it.
   */
  lemma DecodeErrorLosesSegments(v: AtomicValue)
    ensures var k := ValueKey(1, v);
            var a := Segment(7, 0, []);
            var b := Segment(9, 0, []);
            var f := Faults(false, false, {}, {}, map[k := 1]);
            DropPass(map[k := [a, b]], [k], 7, f) == (map[k := []], false)
  {
    var k := ValueKey(1, v);
    var a := Segment(7, 0, []);
    var b := Segment(9, 0, []);
    var f := Faults(false, false, {}, {}, map[k := 1]);
    var records := map[k := [a, b]];
    assert Stored(records, k) == [a, b];
    assert ScanLimit(f, k, 2) == 1;
    assert [a, b][..1] == [a];
    assert Mentions([a], 7) by { assert [a][0].docId == 7; }
    assert Kept([a], 7) == [];
    assert Stored(records, k)[..ScanLimit(f, k, 2)] == [a];
    assert Outcome(f, k) == Written;
    assert records[k := Kept([a], 7)] == map[k := []];
    assert DropStep(records, k, 7, f) == (map[k := []], Continue);
    assert [k][1..] == [];
  }

  // ---------------------------------------------------------------------------
  // The index
  // ---------------------------------------------------------------------------

  class NativeValueIndex {
    /** The occurrences buffered per value for the document being indexed. */
    var pending: map<AtomicValue, seq<NodeProxy>>
    /** The document being indexed, once set. */
    var doc: Option<DocRef>
    const store: ValueStore

    /** No buffered list is empty: a key is created with its first occurrence. */
    ghost predicate Valid()
      reads this
    {
      forall v :: v in pending ==> pending[v] != []
    }

    constructor (store0: ValueStore)
      ensures Valid() && pending == map[] && doc == None && store == store0
    {
      pending := map[];
      doc := None;
      store := store0;
    }

    /** Buffers the occurrence of a text node under its converted value; skips it when the text has no key. */
    method StoreText(ts: TypeSystem, specType: int, text: string, proxy: NodeProxy)
      requires Valid()
      modifies this
      ensures Valid() && doc == old(doc)
      ensures pending == Buffered(old(pending), ts, specType, text, proxy)
    {
      var atomic := ConvertToAtomic(ts, specType, text);
      if atomic.None? {
        return;
      }
      var v := atomic.value;
      var buf: seq<NodeProxy>;
      if v in pending {
        buf := pending[v];
      } else {
        buf := [];
      }
      pending := pending[v := buf + [proxy]];
    }

    method SetDocument(d: DocRef)
      modifies this
      ensures doc == Some(d) && pending == old(pending)
    {
      doc := Some(d);
    }

    /** The buffered values, in the order the flush visits them. */
    method PendingKeys() returns (order: seq<AtomicValue>)
      ensures Lists(order, pending.Keys)
    {
      order := Enumerate(pending.Keys);
    }

    /**
     * Writes one segment per buffered value for the current document, then
     * empties the buffer. A refused append, an I/O error or a lock that
     * cannot be obtained only skips that value; a read-only store stops the
     * flush at its first append and keeps the buffer.
     */
    method Flush() returns (order: seq<AtomicValue>)
      requires Valid() && !store.held
      requires pending != map[] ==> doc.Some?
      modifies this, store
      ensures Valid() && !store.held && doc == old(doc)
      ensures Lists(order, old(pending).Keys)
      ensures old(pending) == map[] ==> pending == old(pending) && store.records == old(store.records)
      ensures old(pending) != map[] && FlushAborts(store.faults) ==>
        store.records == old(store.records) &&
        pending == old(pending)[order[0] := SortBy(old(pending)[order[0]], GidOf)]
      ensures old(pending) != map[] && !FlushAborts(store.faults) ==>
        pending == map[] &&
        store.records == FlushedOver(old(store.records), old(pending), order, doc.value, store.faults)
    {
      if |pending| == 0 {
        order := [];
        return;
      }
      var d := doc.value;
      order := PendingKeys();
      var aborted := FlushValues(order, d);
      if !aborted {
        pending := map[];
      }
    }

    /** The loop of the flush over the buffered values in `order`. */
    method FlushValues(order: seq<AtomicValue>, d: DocRef) returns (aborted: bool)
      requires Valid() && !store.held && order != [] && Lists(order, pending.Keys)
      modifies this, store
      ensures !store.held && doc == old(doc)
      ensures aborted == FlushAborts(store.faults)
      ensures aborted ==>
        store.records == old(store.records) &&
        pending == old(pending)[order[0] := SortBy(old(pending)[order[0]], GidOf)]
      ensures !aborted ==> store.records == FlushedOver(old(store.records), old(pending), order, d, store.faults)
    {
      ghost var p0 := pending;
      ghost var r0 := store.records;
      var i := 0;
      while i < |order|
        invariant i <= |order|
        invariant !store.held && doc == old(doc)
        invariant forall v :: v in p0 && v !in order[..i] ==> v in pending && pending[v] == p0[v]
        invariant i == 0 ==> pending == p0 && store.records == r0
        invariant i > 0 ==> !FlushAborts(store.faults)
        invariant store.records == FlushedOver(r0, p0, order[..i], d, store.faults)
      {
        var v := order[i];
        assert v !in order[..i];
        assert order[..i + 1][..i] == order[..i];
        aborted := FlushValue(v, d);
        if aborted {
          return;
        }
        i := i + 1;
      }
      aborted := false;
      assert order[..i] == order;
    }

    /**
     * The flush of one value: its list is sorted in place, encoded as the
     * document's segment and appended under the value's key in the
     * document's collection while the lock is held.
     */
    method FlushValue(v: AtomicValue, d: DocRef) returns (aborted: bool)
      requires v in pending && !store.held
      modifies this, store
      ensures !store.held && doc == old(doc)
      ensures pending == old(pending)[v := SortBy(old(pending)[v], GidOf)]
      ensures aborted == FlushAborts(store.faults)
      ensures var key := ValueKey(d.collection, v);
        store.records ==
          if Writes(store.faults, key) then old(store.records)[key := Stored(old(store.records), key) + [SegmentFor(d.docId, old(pending)[v])]]
          else old(store.records)
    {
      var sorted := SortBy(pending[v], GidOf);
      pending := pending[v := sorted];
      var seg := EncodeSegment(d.docId, sorted);
      var key := ValueKey(d.collection, v);
      aborted := false;
      var ok := store.Acquire();
      if ok {
        var outcome := store.Append(key, seg);
        aborted := outcome == ReadOnly;
      }
      store.Release();
    }

    /** Takes and gives back the write lock; the store's own flush to disk is not modelled. */
    method Sync()
      requires !store.held
      modifies store
      ensures !store.held && store.records == old(store.records)
    {
      var ok := store.Acquire();
      store.Release();
    }

    /** Removes every key of collection `cid` while the lock is held. */
    method DropCollection(cid: int)
      requires !store.held
      modifies store
      ensures !store.held
      ensures store.records == if store.faults.lockBusy then old(store.records) else WithoutCollection(old(store.records), cid)
    {
      var ok := store.Acquire();
      if ok {
        store.RemoveAll(cid);
      }
      store.Release();
    }

    /**
     * Removes the segments of document `target` from every key of its
     * collection. An I/O error on a write stops the scan; a read-only store
     * raises its error (`raised`); the lock is released on every path.
     */
    method DropDocument(target: DocRef) returns (raised: bool, ghost keys: seq<ValueKey>)
      requires !store.held
      modifies store
      ensures !store.held
      ensures store.faults.lockBusy ==> store.records == old(store.records) && !raised && keys == []
      ensures !store.faults.lockBusy ==>
        Lists(keys, CollectionKeys(old(store.records), target.collection)) &&
        (store.records, raised) == DropPass(old(store.records), keys, target.docId, store.faults)
    {
      raised := false;
      keys := [];
      var ok := store.Acquire();
      if ok {
        var found := store.FindKeys(target.collection);
        keys := found;
        raised := DropKeys(found, target.docId);
      }
      store.Release();
    }

    /** The scan loop of the document drop over the keys found. */
    method DropKeys(keys: seq<ValueKey>, target: int) returns (raised: bool)
      requires store.held
      modifies store
      ensures store.held
      ensures (store.records, raised) == DropPass(old(store.records), keys, target, store.faults)
    {
      raised := false;
      var i := 0;
      while i < |keys|
        invariant i <= |keys| && store.held
        invariant DropPass(store.records, keys[i..], target, store.faults) == DropPass(old(store.records), keys, target, store.faults)
      {
        assert keys[i..][1..] == keys[i + 1..];
        var end := DropKey(keys[i], target);
        if end == Abort {
          return;
        } else if end == Raise {
          raised := true;
          return;
        }
        i := i + 1;
      }
    }

    /** One key of the document drop: read, rebuild, and write back when a target segment was met. */
    method DropKey(key: ValueKey, target: int) returns (end: StepEnd)
      requires store.held
      modifies store
      ensures store.held
      ensures (store.records, end) == DropStep(old(store.records), key, target, store.faults)
    {
      var segs := store.Get(key);
      var rebuilt, changed := ScanRecord(segs, ScanLimit(store.faults, key, |segs|), target);
      end := Continue;
      if changed {
        var outcome := store.Put(key, rebuilt);
        if outcome == IOError {
          end := Abort;
        } else if outcome == ReadOnly {
          end := Raise;
        }
      }
    }
  }

  /**
   * The decoding loop of the document drop over the first `limit` segments
   * of a record: segments of other documents are copied, those of the target
   * are skipped and noted.
   */
  method ScanRecord(segs: seq<Segment>, limit: nat, target: int) returns (rebuilt: seq<Segment>, changed: bool)
    requires limit <= |segs|
    ensures rebuilt == Kept(segs[..limit], target)
    ensures changed == Mentions(segs[..limit], target)
  {
    rebuilt := [];
    changed := false;
    var j := 0;
    while j < limit
      invariant j <= limit
      invariant rebuilt == Kept(segs[..j], target)
      invariant changed == Mentions(segs[..j], target)
    {
      var seg := segs[j];
      KeptSnoc(segs[..j], seg, target);
      assert segs[..j + 1] == segs[..j] + [seg];
      if seg.docId != target {
        rebuilt := rebuilt + [seg];
      } else {
        changed := true;
      }
      j := j + 1;
    }
  }

  /** Dropping from a record extended by one segment drops from the record, then from the segment. */
  lemma {:induction false} KeptSnoc(segs: seq<Segment>, s: Segment, target: int)
    ensures Kept(segs + [s], target) == Kept(segs, target) + (if s.docId == target then [] else [s])
    ensures Mentions(segs + [s], target) <==> Mentions(segs, target) || s.docId == target
  {
    if segs != [] {
      assert (segs + [s])[1..] == segs[1..] + [s];
      KeptSnoc(segs[1..], s, target);
    }
    MentionsSnoc(segs, s, target);
  }

  lemma MentionsSnoc(segs: seq<Segment>, s: Segment, target: int)
    ensures Mentions(segs + [s], target) <==> Mentions(segs, target) || s.docId == target
  {
    var t := segs + [s];
    if Mentions(segs, target) {
      var i :| 0 <= i < |segs| && segs[i].docId == target;
      assert t[i] == segs[i];
    }
    if Mentions(t, target) && s.docId != target {
      var i :| 0 <= i < |t| && t[i].docId == target;
      assert i < |segs| && t[i] == segs[i];
    }
    assert t[|segs|] == s;
  }
}
