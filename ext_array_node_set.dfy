/**
 * The partitioned node set: one growable array of entries (a Part) per
 * document, held in a slot-aligned pair of arrays with the document ids kept
 * strictly increasing. Entries are appended unsorted; a sort pass orders every
 * part and collapses duplicate gids, after which lookups by binary search are
 * exact.
 */
module ExtArrayNodeSets {
  import opened Wrappers
  import opened NodeProxies
  import opened NodeSetSpec

  /** The entries of one document: `nodes[..length]` are live, the rest is spare capacity. */
  class Part {
    var nodes: array<NodeProxy>
    var length: nat

    ghost predicate Valid()
      reads this
    {
      length <= nodes.Length
    }

    ghost function Elements(): seq<NodeProxy>
      reads this, nodes
      requires Valid()
    {
      nodes[..length]
    }

    ghost predicate GidSorted()
      reads this, nodes
      requires Valid()
    {
      SortedBy(Elements(), GidOf)
    }

    constructor (initialSize: nat)
      ensures Valid() && fresh(nodes)
      ensures nodes.Length == initialSize && Elements() == []
    {
      nodes := new NodeProxy[initialSize];
      length := 0;
    }

    /**
     * Appends `p` unless the last entry already has its gid (only the last
     * entry is checked); a full nodes is replaced by one of larger capacity.
     */
    method Add(p: NodeProxy)
      requires Valid()
      modifies this, nodes
      ensures Valid()
      ensures nodes == old(nodes) || fresh(nodes)
      ensures Elements() == Appended(old(Elements()), p)
    {
      if length > 0 && nodes[length - 1].gid == p.gid {
        return;
      }
      if length == nodes.Length {
        var temp := new NodeProxy[NewCapacity(length)];
        forall k | 0 <= k < length {
          temp[k] := nodes[k];
        }
        nodes := temp;
      }
      nodes[length] := p;
      length := length + 1;
    }

    /** The entry at offset `pos`. */
    method At(pos: nat) returns (r: NodeProxy)
      requires Valid() && pos < length
      ensures r == Elements()[pos]
    {
      r := nodes[pos];
    }

    /** Binary search by gid: on a part sorted by gid it finds the gid whenever it is present. */
    method Get(gid: int) returns (r: Option<NodeProxy>)
      requires Valid()
      ensures r.Some? ==> r.value in Elements() && r.value.gid == gid
      ensures GidSorted() && gid in Gids(Elements()) ==> r.Some?
    {
      var found := SearchGid(nodes, length, gid);
      if found.None? {
        return None;
      }
      r := Some(nodes[found.value]);
      assert r.value == Elements()[found.value];
    }

    method Contains(gid: int) returns (r: bool)
      requires Valid()
      ensures r ==> gid in Gids(Elements())
      ensures GidSorted() ==> (r <==> gid in Gids(Elements()))
    {
      var found := Get(gid);
      r := found.Some?;
    }

    /** Sorts the live entries in place by `key`. */
    method SortByKey(key: NodeProxy -> int)
      requires Valid()
      modifies nodes
      ensures Valid()
      ensures Elements() == SortBy(old(Elements()), key)
    {
      var sorted := SortBy(nodes[..length], key);
      forall k | 0 <= k < length {
        nodes[k] := sorted[k];
      }
      assert nodes[..length] == sorted;
    }

    /**
     * Collapses runs of entries sharing a gid to their first entry, in place,
     * and returns the new length. An empty part stays empty.
     */
    method RemoveDuplicates() returns (n: nat)
      requires Valid()
      modifies this, nodes
      ensures Valid() && nodes == old(nodes)
      ensures Elements() == Dedup(old(Elements()))
      ensures n == length
    {
      n := DedupInPlace(nodes, length);
      length := n;
    }

    /** A sort pass over this part: sorted by `key`, then duplicate gids collapsed; returns the new length. */
    method Canonicalize(key: NodeProxy -> int) returns (n: nat)
      requires Valid()
      modifies this, nodes
      ensures Valid() && nodes == old(nodes)
      ensures Elements() == Canon(old(Elements()), key) && n == |Elements()|
    {
      SortByKey(key);
      n := RemoveDuplicates();
    }

    /**
     * Binary search by gid, then a left shift of the tail over the entry found.
     * An entry is removed only when the search finds its gid; the capacity is kept.
     */
    method Remove(node: NodeProxy) returns (ghost removedAt: Option<nat>)
      requires Valid()
      modifies this, nodes
      ensures Valid() && nodes == old(nodes)
      ensures removedAt.None? ==> Elements() == old(Elements())
      ensures removedAt.Some? ==>
        removedAt.value < old(length) && old(Elements())[removedAt.value].gid == node.gid &&
        Elements() == Without(old(Elements()), removedAt.value)
      ensures old(GidSorted()) ==> (removedAt.Some? <==> node.gid in Gids(old(Elements())))
    {
      var found := SearchGid(nodes, length, node.gid);
      if found.None? {
        return None;
      }
      ghost var s := Elements();
      assert s[found.value] in s;
      RemoveAt(nodes, length, found.value);
      length := length - 1;
      return found;
    }

    /**
     * The index window `[lo, hi)` of the entries with `lower <= gid <= upper`:
     * binary search for any entry in range, a walk left to the first one, a
     * walk right past the last one. Exact on a part sorted by gid.
     */
    method Window(lower: int, upper: int) returns (lo: nat, hi: nat)
      requires Valid()
      ensures lo <= hi <= length
      ensures forall k :: lo <= k < hi ==> Elements()[k].gid <= upper
      ensures GidSorted() ==>
        forall k :: 0 <= k < length ==> (lo <= k < hi <==> lower <= Elements()[k].gid <= upper)
    {
      ghost var s := Elements();
      var found := SearchRange(nodes, length, lower, upper);
      if found.None? {
        return 0, 0;
      }
      var mid := found.value;
      while mid > 0 && nodes[mid - 1].gid >= lower
        invariant 0 <= mid < length
        invariant GidSorted() ==> lower <= s[mid].gid <= upper
      {
        assert nodes[mid - 1] == s[mid - 1];
        mid := mid - 1;
      }
      assert mid == 0 || s[mid - 1].gid < lower;
      var i := mid;
      while i < length && nodes[i].gid <= upper
        invariant mid <= i <= length
        invariant forall k :: mid <= k < i ==> s[k].gid <= upper
        invariant GidSorted() ==> forall k :: mid <= k < i ==> lower <= s[k].gid
      {
        assert nodes[i] == s[i];
        i := i + 1;
      }
      if GidSorted() {
        assert i == length || s[i].gid > upper;
        WindowBounds(s, mid, i, lower, upper);
      }
      return mid, i;
    }

    /** The entries getRange adds to its result set, in order: the window of `[lower, upper]`. */
    method GetRange(lower: int, upper: int) returns (r: seq<NodeProxy>)
      requires Valid()
      ensures forall p :: p in r ==> p in Elements() && p.gid <= upper
      ensures GidSorted() ==> r == InRange(Elements(), lower, upper)
    {
      var lo, hi := Window(lower, upper);
      r := nodes[lo..hi];
      assert r == Elements()[lo..hi] by {
        assert forall k :: 0 <= k < hi - lo ==> r[k] == nodes[lo + k] == Elements()[lo + k];
      }
      if GidSorted() {
        WindowIsInRange(Elements(), lo, hi, lower, upper);
      }
    }

    /**
     * The entries getChildrenInSet adds to its result set, in order: for the
     * descendant mode every entry in the child range of `parent`, for the
     * ancestor mode `parent` once per such entry, for any other mode nothing.
     */
    method GetChildrenInSet(parent: NodeProxy, mode: Mode, range: ChildRange) returns (added: seq<NodeProxy>)
      requires Valid()
      ensures mode == Descendant ==> forall p :: p in added ==> p in Elements()
      ensures mode == Ancestor ==> forall p :: p in added ==> p == parent
      ensures mode == OtherMode ==> added == []
      ensures GidSorted() ==> added == ChildrenAdded(Elements(), parent, mode, range)
    {
      var lo, hi := Window(range.start, range.end);
      var window := nodes[lo..hi];
      assert window == Elements()[lo..hi] by {
        assert forall k :: 0 <= k < hi - lo ==> window[k] == nodes[lo + k] == Elements()[lo + k];
      }
      if GidSorted() {
        WindowIsInRange(Elements(), lo, hi, range.start, range.end);
      }
      match mode
      case Descendant =>
        added := window;
      case Ancestor =>
        added := seq(hi - lo, _ => parent);
      case OtherMode =>
        added := [];
    }

    /**
     * The entry of this part that parentWithChild reports: `gid` itself when
     * `includeSelf` and it is present, else the first ancestor present,
     * looking only at the parent when `directParent`.
     */
    method ParentWithChild(tc: TreeCodec, gid: int, directParent: bool, includeSelf: bool, level: int)
      returns (r: Option<NodeProxy>)
      requires Valid() && ParentsPrecede(tc)
      ensures r.Some? ==> r.value in Elements()
      ensures GidSorted() ==>
        GidOfOption(r) == FirstIn(Candidates(tc, gid, directParent, includeSelf, level), Gids(Elements()))
    {
      var lvl := if level < 0 then tc.treeLevel(gid) else level;
      ghost var walk := Walk(tc, gid, directParent, lvl);
      if includeSelf {
        r := Get(gid);
        if r.Some? {
          assert r.value.gid in Gids(Elements());
          assert ([gid] + walk)[0] == gid;
          return r;
        }
        if GidSorted() {
          FirstInSkip([gid], walk, Gids(Elements()));
        }
      }
      r := AncestorIn(tc, gid, directParent, lvl);
      assert Candidates(tc, gid, directParent, includeSelf, level) == (if includeSelf then [gid] else []) + walk;
      assert [] + walk == walk;
    }

    /**
     * The first ancestor of `gid` present in this part, walking up from
     * `level`; when `directParent` the walk stops after the parent.
     */
    method AncestorIn(tc: TreeCodec, gid: int, directParent: bool, level: int) returns (r: Option<NodeProxy>)
      requires Valid() && ParentsPrecede(tc)
      ensures r.Some? ==> r.value in Elements()
      ensures GidSorted() ==> GidOfOption(r) == FirstIn(Walk(tc, gid, directParent, level), Gids(Elements()))
    {
      if gid <= 0 {
        return None;
      }
      if directParent {
        var g := tc.parentId(gid, level);
        r := Get(g);
        assert Walk(tc, gid, directParent, level) == [g];
        return r;
      }
      r := Climb(tc, gid, level);
    }

    /** The first id of the whole ancestor chain of `gid` present in this part. */
    method Climb(tc: TreeCodec, gid: int, level: int) returns (r: Option<NodeProxy>)
      requires Valid() && ParentsPrecede(tc)
      ensures r.Some? ==> r.value in Elements()
      ensures GidSorted() ==> GidOfOption(r) == FirstIn(AncestorChain(tc, gid, level), Gids(Elements()))
    {
      ghost var gids := Gids(Elements());
      ghost var chain := AncestorChain(tc, gid, level);
      var g, lvl := gid, level;
      while g > 0
        invariant GidSorted() ==> FirstIn(chain, gids) == FirstIn(AncestorChain(tc, g, lvl), gids)
        decreases g
      {
        ghost var rest := AncestorChain(tc, g, lvl);
        g := tc.parentId(g, lvl);
        assert rest == [g] + AncestorChain(tc, g, lvl - 1);
        assert rest[1..] == AncestorChain(tc, g, lvl - 1);
        r := Get(g);
        if r.Some? {
          assert r.value.gid in gids;
          return r;
        }
        lvl := lvl - 1;
      }
      return None;
    }
  }

  /** `p` is a valid part holding `c`, recorded at slot `k` for itself and for its backing array. */
  ghost predicate PartAt(p: Part, c: seq<NodeProxy>, slot: map<object, int>, k: int)
    reads p, p.nodes
  {
    p in slot && p.nodes in slot && slot[p] == k && slot[p.nodes] == k &&
    p.Valid() && p.Elements() == c
  }

  /**
   * `ps[i]` holds `content[i]` at slot `base + i` for every `i`; the keys of
   * `slot` are the footprint of the parts. Stated by recursion so that it
   * only unfolds where a proof asks for it.
   */
  ghost predicate PartsAt(ps: seq<Part?>, content: seq<seq<NodeProxy>>, slot: map<object, int>, base: int)
    reads slot.Keys
    decreases |ps|
  {
    |ps| == |content| &&
    (|ps| > 0 ==>
       ps[0] != null && ps[0] in slot && ps[0].nodes in slot &&
       PartAt(ps[0], content[0], slot, base) &&
       PartsAt(ps[1..], content[1..], slot, base + 1))
  }

  lemma {:induction false} PartsAtAll(ps: seq<Part?>, content: seq<seq<NodeProxy>>, slot: map<object, int>, base: int)
    requires PartsAt(ps, content, slot, base)
    ensures |ps| == |content|
    ensures forall i :: 0 <= i < |ps| ==> ps[i] != null && PartAt(ps[i], content[i], slot, base + i)
    decreases |ps|
  {
    if |ps| > 0 {
      PartsAtAll(ps[1..], content[1..], slot, base + 1);
      forall i | 1 <= i < |ps|
        ensures ps[i] != null && PartAt(ps[i], content[i], slot, base + i)
      {
        assert ps[1..][i - 1] == ps[i] && content[1..][i - 1] == content[i];
      }
    }
  }

  lemma {:induction false} PartsAtFromAll(ps: seq<Part?>, content: seq<seq<NodeProxy>>, slot: map<object, int>, base: int)
    requires |ps| == |content|
    requires forall i :: 0 <= i < |ps| ==> ps[i] != null && PartAt(ps[i], content[i], slot, base + i)
    ensures PartsAt(ps, content, slot, base)
    decreases |ps|
  {
    if |ps| > 0 {
      forall i | 0 <= i < |ps| - 1
        ensures ps[1..][i] != null && PartAt(ps[1..][i], content[1..][i], slot, base + 1 + i)
      {
        assert ps[1..][i] == ps[i + 1] && content[1..][i] == content[i + 1];
      }
      PartsAtFromAll(ps[1..], content[1..], slot, base + 1);
      assert PartAt(ps[0], content[0], slot, base);
    }
  }

  /** The part table with an empty part opened at slot `idx`. */
  lemma PartsAtInsert(ps: seq<Part?>, content: seq<seq<NodeProxy>>, slot: map<object, int>, idx: nat, part: Part)
    requires PartsAt(ps, content, slot, 0) && idx <= |ps|
    requires part.Valid() && part.Elements() == [] && part !in slot && part.nodes !in slot
    ensures PartsAt(ps[..idx] + [part] + ps[idx..], content[..idx] + [[]] + content[idx..],
                    Opened(slot, idx, part, part.nodes), 0)
  {
    var ps', content', slot' := ps[..idx] + [part] + ps[idx..], content[..idx] + [[]] + content[idx..], Opened(slot, idx, part, part.nodes);
    PartsAtAll(ps, content, slot, 0);
    forall i | 0 <= i < |ps'|
      ensures ps'[i] != null && PartAt(ps'[i], content'[i], slot', i)
    {
      if i < idx {
        assert ps'[i] == ps[i] && content'[i] == content[i];
        assert PartAt(ps[i], content[i], slot, i);
      } else if idx < i {
        assert ps'[i] == ps[i - 1] && content'[i] == content[i - 1];
        assert PartAt(ps[i - 1], content[i - 1], slot, i - 1);
      }
    }
    PartsAtFromAll(ps', content', slot', 0);
  }

  /** Binary search by gid over `a[..n]`; finds the gid whenever it is present and `a[..n]` is sorted by gid. */
  method SearchGid(a: array<NodeProxy>, n: nat, gid: int) returns (r: Option<nat>)
    requires n <= a.Length
    ensures r.Some? ==> r.value < n && a[r.value].gid == gid
    ensures SortedBy(a[..n], GidOf) && r.None? ==> gid !in Gids(a[..n])
  {
    ghost var s := a[..n];
    var low, high := 0, n - 1;
    while low <= high
      invariant 0 <= low <= high + 1 <= n
      invariant SortedBy(s, GidOf) ==> forall k :: 0 <= k < n && s[k].gid == gid ==> low <= k <= high
    {
      var mid := (low + high) / 2;
      var p := a[mid];
      assert p == s[mid];
      if p.gid == gid {
        return Some(mid);
      }
      if p.gid > gid {
        high := mid - 1;
      } else {
        low := mid + 1;
      }
    }
    return None;
  }

  /** Binary search for any entry of `a[..n]` in `[lower, upper]`; finds one whenever one exists and `a[..n]` is sorted by gid. */
  method SearchRange(a: array<NodeProxy>, n: nat, lower: int, upper: int) returns (r: Option<nat>)
    requires n <= a.Length
    ensures r.Some? ==> r.value < n && lower <= a[r.value].gid <= upper
    ensures SortedBy(a[..n], GidOf) && r.None? ==> forall k :: 0 <= k < n ==> !(lower <= a[k].gid <= upper)
  {
    ghost var s := a[..n];
    var low, high := 0, n - 1;
    while low <= high
      invariant 0 <= low <= high + 1 <= n
      invariant SortedBy(s, GidOf) ==> forall k :: 0 <= k < n && lower <= s[k].gid <= upper ==> low <= k <= high
    {
      var mid := (low + high) / 2;
      var p := a[mid];
      assert p == s[mid];
      if lower <= p.gid <= upper {
        return Some(mid);
      }
      if p.gid > lower {
        high := mid - 1;
      } else {
        low := mid + 1;
      }
    }
    return None;
  }

  /** Shifts `a[idx + 1..n]` left by one slot over the entry at `idx`, as an overlapping array copy does. */
  method RemoveAt<T>(a: array<T>, n: nat, idx: nat)
    requires idx < n <= a.Length
    modifies a
    ensures a[..n - 1] == old(a[..idx]) + old(a[idx + 1..n])
  {
    if idx < n - 1 {
      forall k | idx <= k < n - 1 {
        a[k] := a[k + 1];
      }
    }
    assert a[..n - 1] == old(a[..idx]) + old(a[idx + 1..n]);
  }

  /**
   * The two-index pass of removeDuplicates over `a[..n]`: every entry whose
   * gid differs from the last one kept is moved down next to it. Returns the
   * number kept; an empty range keeps nothing.
   */
  method DedupInPlace(a: array<NodeProxy>, n: nat) returns (m: nat)
    requires n <= a.Length
    modifies a
    ensures m <= n && a[..m] == Dedup(old(a[..n]))
  {
    if n == 0 {
      return 0;
    }
    ghost var s := a[..n];
    var j := 0;
    var i := 1;
    while i < n
      invariant 1 <= i <= n && 0 <= j < i
      invariant a[..j + 1] == DedupUpTo(s, i)
      invariant forall k :: i <= k < n ==> a[k] == s[k]
    {
      j := KeepIfNew(a, n, s, i, j);
      i := i + 1;
    }
    DedupUpToIsDedup(s, n);
    assert s[..n] == s;
    m := j + 1;
  }

  /**
   * One step of the two-index pass: `a[i]` is moved down next to the last
   * entry kept, `a[j]`, unless it has the same gid.
   */
  method KeepIfNew(a: array<NodeProxy>, n: nat, ghost s: seq<NodeProxy>, i: nat, j: nat) returns (j': nat)
    requires 1 <= i < n == |s| <= a.Length && j < i
    requires a[..j + 1] == DedupUpTo(s, i)
    requires forall k :: i <= k < n ==> a[k] == s[k]
    modifies a
    ensures j' <= i && a[..j' + 1] == DedupUpTo(s, i + 1)
    ensures forall k :: i < k < n ==> a[k] == s[k]
  {
    ghost var kept := a[..j + 1];
    j' := j;
    if a[i].gid != a[j].gid {
      j' := j + 1;
      if i != j' {
        a[j'] := a[i];
      }
      assert a[..j' + 1] == kept + [s[i]];
    }
  }

  /** A fresh array of larger capacity starting with the contents of `a`. */
  method Enlarged<T(0)>(a: array<T>) returns (b: array<T>)
    ensures fresh(b) && b.Length == NewCapacity(a.Length) && b[..a.Length] == a[..]
  {
    b := new T[NewCapacity(a.Length)];
    forall k | 0 <= k < a.Length {
      b[k] := a[k];
    }
  }

  /** Shifts `a[idx..n]` right by one slot, as an overlapping array copy does, and stores `x` at `idx`. */
  method InsertAt<T>(a: array<T>, n: nat, idx: nat, x: T)
    requires idx <= n < a.Length
    modifies a
    ensures a[..n + 1] == old(a[..n])[..idx] + [x] + old(a[..n])[idx..]
    ensures a[idx] == x && a[n + 1..] == old(a[n + 1..])
  {
    if idx < n {
      forall k | idx < k <= n {
        a[k] := a[k - 1];
      }
    }
    a[idx] := x;
    assert a[..n + 1] == old(a[..n])[..idx] + [x] + old(a[..n])[idx..];
  }

  /**
   * The two parallel tables: `docs[..n]` lists `ds`, and `ps[..n]` holds the
   * parts of `content` at the slots recorded in `slot`.
   */
  ghost predicate TablesHold(docs: array<int>, ps: array<Part?>, n: int, ds: seq<int>,
                             content: seq<seq<NodeProxy>>, slot: map<object, int>)
    reads docs, ps, slot.Keys
  {
    docs !in slot && ps !in slot &&
    docs.Length == ps.Length && 0 <= n <= ps.Length && |ds| == n &&
    docs[..n] == ds && PartsAt(ps[..n], content, slot, 0)
  }

  /**
   * The one-slot shift of both tables, with `docId` and its new empty `part`
   * stored at `idx`; the parts already in the tables are not touched.
   */
  method ShiftTables(docs: array<int>, ps: array<Part?>, n: nat, docId: int, part: Part, idx: nat,
                     ghost ds: seq<int>, ghost content: seq<seq<NodeProxy>>, ghost slot: map<object, int>,
                     ghost ds': seq<int>, ghost content': seq<seq<NodeProxy>>, ghost slot': map<object, int>)
    requires TablesHold(docs, ps, n, ds, content, slot) && idx <= n < ps.Length
    requires part.Valid() && part.Elements() == [] && part !in slot && part.nodes !in slot
    requires ds' == ds[..idx] + [docId] + ds[idx..] && content' == content[..idx] + [[]] + content[idx..]
    requires slot' == Opened(slot, idx, part, part.nodes)
    modifies docs, ps
    ensures TablesHold(docs, ps, n + 1, ds', content', slot')
    ensures ps[idx] == part
  {
    PartsAtInsert(ps[..n], content, slot, idx, part);
    assert docs !in slot' && ps !in slot';
    InsertAt(docs, n, idx, docId);
    InsertAt(ps, n, idx, part);
  }

  /** The slots with `part` and its backing array put at `idx` and every slot at or after `idx` moved up by one. */
  function Opened(slot: map<object, int>, idx: int, part: object, nodes: object): (r: map<object, int>)
    ensures r.Keys == slot.Keys + {part, nodes}
    ensures r[part] == idx && r[nodes] == idx
    ensures forall q :: q in slot && q != part && q != nodes ==> r[q] == if slot[q] >= idx then slot[q] + 1 else slot[q]
  {
    ShiftSlots(slot, idx)[part := idx][nodes := idx]
  }

  /** Every slot at or after `idx` moves up by one. */
  function ShiftSlots<T>(m: map<T, int>, idx: int): (r: map<T, int>)
    ensures r.Keys == m.Keys
    ensures forall q :: q in m ==> r[q] == if m[q] >= idx then m[q] + 1 else m[q]
  {
    map q | q in m :: if m[q] >= idx then m[q] + 1 else m[q]
  }

  const INITIAL_DOC_SIZE: nat := 64
  const DEFAULT_ARRAY_SIZE: nat := 128

  /**
   * The set: `documentIds[..partCount]` strictly increasing, `parts[i]` holding
   * the entries of document `documentIds[i]`. Ghost `Docs` and `Content` are
   * the abstract view: the live document ids and, slot for slot, the live
   * entries of each part.
   */
  class ExtArrayNodeSet {
    var documentIds: array<int>
    var parts: array<Part?>
    var initialSize: nat
    var size: int
    var partCount: nat
    var isSorted: bool
    var isInDocumentOrder: bool
    var state: int
    var itemType: int

    ghost var Docs: seq<int>
    ghost var Content: seq<seq<NodeProxy>>
    /** The node types of all additions so far, in order. */
    ghost var SeenTypes: seq<int>
    /**
     * The slot of each live part and of its backing array: two slots never
     * share a part or an array because each maps to its own index.
     */
    ghost var Slot: map<object, int>

    ghost function Repr(): set<object>
      reads this
    {
      {this, documentIds, parts} + Slot.Keys
    }

    /** The arrays and parts are where the view says, one part and one backing array per slot. */
    ghost predicate Layout()
      reads this, Repr()
    {
      this !in Slot && TablesHold(documentIds, parts, partCount, Docs, Content, Slot)
    }

    ghost predicate Valid()
      reads this, Repr()
    {
      Layout() &&
      Coherent(Docs, Content, size, isSorted, isInDocumentOrder) &&
      0 <= state <= MAX_INT &&
      itemType == ItemTypeOf(SeenTypes)
    }

    /** The fields the layout covers. */
    ghost function Tables(): (array<int>, array<Part?>, nat, seq<int>, seq<seq<NodeProxy>>, map<object, int>)
      reads this
    {
      (documentIds, parts, partCount, Docs, Content, Slot)
    }

    /** The scalar fields the layout does not cover. */
    ghost function Bookkeeping(): (int, bool, bool, int, int, seq<int>, nat)
      reads this
    {
      (size, isSorted, isInDocumentOrder, state, itemType, SeenTypes, initialSize)
    }

    constructor ()
      ensures Valid() && fresh(Repr())
      ensures Docs == [] && Content == [] && SeenTypes == []
      ensures documentIds.Length == INITIAL_DOC_SIZE && initialSize == DEFAULT_ARRAY_SIZE
      ensures size == 0 && state == 0 && itemType == ANY_TYPE && !isSorted && !isInDocumentOrder
    {
      documentIds := new int[INITIAL_DOC_SIZE](_ => 0);
      parts := new Part?[INITIAL_DOC_SIZE](_ => null);
      initialSize := DEFAULT_ARRAY_SIZE;
      size, partCount, state := 0, 0, 0;
      isSorted, isInDocumentOrder := false, false;
      itemType := ANY_TYPE;
      Docs, Content, SeenTypes := [], [], [];
      Slot := map[];
    }

    constructor WithSizes(initialDocsCount: nat, initialArraySize: nat)
      ensures Valid() && fresh(Repr())
      ensures Docs == [] && Content == [] && SeenTypes == []
      ensures documentIds.Length == initialDocsCount && initialSize == initialArraySize
      ensures size == 0 && state == 0 && itemType == ANY_TYPE && !isSorted && !isInDocumentOrder
    {
      documentIds := new int[initialDocsCount](_ => 0);
      parts := new Part?[initialDocsCount](_ => null);
      initialSize := initialArraySize;
      size, partCount, state := 0, 0, 0;
      isSorted, isInDocumentOrder := false, false;
      itemType := ANY_TYPE;
      Docs, Content, SeenTypes := [], [], [];
      Slot := map[];
    }

    constructor WithArraySize(initialArraySize: nat)
      ensures Valid() && fresh(Repr())
      ensures Docs == [] && Content == [] && SeenTypes == []
      ensures documentIds.Length == INITIAL_DOC_SIZE && initialSize == initialArraySize
      ensures size == 0 && state == 0 && itemType == ANY_TYPE && !isSorted && !isInDocumentOrder
    {
      documentIds := new int[INITIAL_DOC_SIZE](_ => 0);
      parts := new Part?[INITIAL_DOC_SIZE](_ => null);
      initialSize := initialArraySize;
      size, partCount, state := 0, 0, 0;
      isSorted, isInDocumentOrder := false, false;
      itemType := ANY_TYPE;
      Docs, Content, SeenTypes := [], [], [];
      Slot := map[];
    }

    /** The part at slot `i` is valid, holds `Content[i]` and is recorded at `i`. */
    lemma PartOf(i: nat)
      requires Layout() && i < partCount
      ensures parts[i] != null && PartAt(parts[i], Content[i], Slot, i)
    {
      PartsAtAll(parts[..partCount], Content, Slot, 0);
      assert parts[..partCount][i] == parts[i];
    }

    /**
     * Binary search of `documentIds[..partCount]`: the slot of `docId`, or
     * `-(insertion point) - 1` when it is absent.
     */
    method FindDoc(docId: int) returns (idx: int)
      requires Valid()
      ensures 0 <= idx ==> idx < |Docs| && Docs[idx] == docId
      ensures idx < 0 ==> docId !in Docs && -(idx + 1) == InsertionPoint(Docs, docId)
    {
      var low, high := 0, partCount as int - 1;
      while low <= high
        invariant 0 <= low <= high + 1 <= partCount
        invariant forall k :: 0 <= k < low ==> Docs[k] < docId
        invariant forall k :: high < k < partCount ==> docId < Docs[k]
      {
        var mid := (low + high) / 2;
        var v := documentIds[mid];
        if v < docId {
          low := mid + 1;
        } else if v > docId {
          high := mid - 1;
        } else {
          return mid;
        }
      }
      InsertionPointUnique(Docs, docId, low);
      return -(low + 1);
    }

    /** The part of `docId`, if the set holds one; nothing is created. */
    method Lookup(docId: int) returns (part: Part?, ghost slot: nat)
      requires Valid()
      ensures part != null <==> docId in Docs
      ensures part != null ==> slot < |Docs| && Docs[slot] == docId && part == parts[slot]
    {
      var idx := FindDoc(docId);
      if idx >= 0 {
        PartOf(idx);
        part, slot := parts[idx], idx;
      } else {
        part, slot := null, 0;
      }
    }

    method ContainsDoc(docId: int) returns (r: bool)
      requires Valid()
      ensures r <==> docId in Docs
    {
      var idx := FindDoc(docId);
      r := idx > -1;
    }

    /** Replaces both full arrays by arrays of larger capacity holding the same slots. */
    method Grow()
      requires Layout()
      modifies this
      ensures Layout() && fresh(Repr() - old(Repr()))
      ensures fresh(documentIds) && fresh(parts) && partCount < parts.Length
      ensures parts[..partCount] == old(parts[..partCount])
      ensures Bookkeeping() == old(Bookkeeping())
      ensures partCount == old(partCount) && Docs == old(Docs) && Content == old(Content) && Slot == old(Slot)
    {
      var ndocs := Enlarged(documentIds);
      var nparts := Enlarged(parts);
      ghost var ps := parts[..partCount];
      documentIds, parts := ndocs, nparts;
      assert parts[..partCount] == ps;
    }

    /**
     * Puts `docId` and its empty `part` at slot `idx` of both arrays, shifting
     * the tails right by one; full arrays are first replaced by larger ones.
     */
    method InsertPart(docId: int, part: Part, idx: nat)
      requires Valid()
      requires part.Valid() && part.Elements() == [] && part !in Repr() && part.nodes !in Repr()
      requires docId !in Docs && idx == InsertionPoint(Docs, docId)
      modifies this, documentIds, parts
      ensures Valid() && Slot.Keys == old(Slot.Keys) + {part, part.nodes}
      ensures (documentIds == old(documentIds) && parts == old(parts)) || (fresh(documentIds) && fresh(parts))
      ensures partCount == old(partCount) + 1
      ensures Docs == old(Docs)[..idx] + [docId] + old(Docs)[idx..]
      ensures Content == old(Content)[..idx] + [[]] + old(Content)[idx..]
      ensures parts[idx] == part
      ensures Bookkeeping() == old(Bookkeeping())
    {
      if partCount == parts.Length {
        Grow();
      }
      ShiftIn(docId, part, idx);
      InsertEmptyPartCoherent(old(Docs), old(Content), size, isSorted, isInDocumentOrder, docId);
    }

    /** The shift of both tables by one slot from `idx` on, and the new slot filled. */
    method ShiftIn(docId: int, part: Part, idx: nat)
      requires Layout() && idx <= partCount < parts.Length
      requires part.Valid() && part.Elements() == [] && part !in Repr() && part.nodes !in Repr()
      modifies this, documentIds, parts
      ensures Layout() && Slot.Keys == old(Slot.Keys) + {part, part.nodes}
      ensures documentIds == old(documentIds) && parts == old(parts)
      ensures partCount == old(partCount) + 1
      ensures Docs == old(Docs)[..idx] + [docId] + old(Docs)[idx..]
      ensures Content == old(Content)[..idx] + [[]] + old(Content)[idx..]
      ensures parts[idx] == part
      ensures Bookkeeping() == old(Bookkeeping())
    {
      ghost var ds, content, slot :=
        Docs[..idx] + [docId] + Docs[idx..], Content[..idx] + [[]] + Content[idx..], Opened(Slot, idx, part, part.nodes);
      ShiftTables(documentIds, parts, partCount, docId, part, idx, Docs, Content, Slot, ds, content, slot);
      SetLayout(partCount + 1, ds, content, slot);
    }

    /**
     * Records a new live slot count together with the view that describes
     * it, in one step.
     */
    method SetLayout(n: nat, ghost ds: seq<int>, ghost content: seq<seq<NodeProxy>>, ghost slot: map<object, int>)
      modifies this
      ensures partCount == n && Docs == ds && Content == content && Slot == slot
      ensures documentIds == old(documentIds) && parts == old(parts)
      ensures Bookkeeping() == old(Bookkeeping())
    {
      partCount, Docs, Content, Slot := n, ds, content, slot;
    }

    /** The part of `docId`, created with capacity `sizeHint` at its sorted slot when the set has none. */
    method GetPart(docId: int, sizeHint: nat) returns (part: Part, ghost slot: nat)
      requires Valid()
      modifies Repr()
      ensures Valid() && fresh(Repr() - old(Repr()))
      ensures slot < |Docs| && Docs[slot] == docId && parts[slot] == part
      ensures Docs == DocsAfterAdd(old(Docs), docId)
      ensures docId in old(Docs) ==> Content == old(Content) && slot == IndexOf(old(Docs), docId)
      ensures docId !in old(Docs) ==>
        slot == InsertionPoint(old(Docs), docId) && Content == old(Content)[..slot] + [[]] + old(Content)[slot..]
      ensures Bookkeeping() == old(Bookkeeping())
    {
      var idx := FindDoc(docId);
      if idx >= 0 {
        IndexOfUnique(Docs, docId, idx);
        PartOf(idx);
        return parts[idx], idx;
      }
      idx := -(idx + 1);
      part := CreatePart(docId, sizeHint, idx);
      slot := idx;
    }

    /** A new empty part of capacity `sizeHint` for `docId`, inserted at slot `idx`. */
    method CreatePart(docId: int, sizeHint: nat, idx: nat) returns (part: Part)
      requires Valid() && docId !in Docs && idx == InsertionPoint(Docs, docId)
      modifies this, documentIds, parts
      ensures Valid() && fresh(Repr() - old(Repr()))
      ensures idx < |Docs| && parts[idx] == part
      ensures Docs == old(Docs)[..idx] + [docId] + old(Docs)[idx..]
      ensures Content == old(Content)[..idx] + [[]] + old(Content)[idx..]
      ensures Bookkeeping() == old(Bookkeeping())
    {
      part := new Part(sizeHint);
      ghost var keys := Slot.Keys;
      InsertPart(docId, part, idx);
      assert Repr() == {this, documentIds, parts} + keys + {part, part.nodes};
    }

    /** Appends `p` to the part at `slot`, keeping the layout; a grown part's new array takes the old one's slot. */
    method AddToPart(part: Part, ghost slot: nat, p: NodeProxy)
      requires Layout() && slot < partCount && parts[slot] == part
      modifies this, part, part.nodes
      ensures Layout() && Repr() <= old(Repr()) + {part.nodes}
      ensures part.nodes in old(Repr()) || fresh(part.nodes)
      ensures Bookkeeping() == old(Bookkeeping()) && Docs == old(Docs)
      ensures Content == old(Content)[slot := Appended(old(Content)[slot], p)]
    {
      ghost var ps := parts[..partCount];
      ghost var oldNodes := part.nodes;
      ghost var oldSlot := Slot;
      PartsAtAll(ps, Content, Slot, 0);
      assert ps[slot] == part;
      part.Add(p);
      var a: object := part.nodes;
      SetLayout(partCount, Docs, Content[slot := part.Elements()], (Slot - {oldNodes})[a := slot]);
      forall i | 0 <= i < |ps|
        ensures ps[i] != null && PartAt(ps[i], Content[i], Slot, i)
      {
        if i != slot {
          assert ps[i] != part && ps[i].nodes != oldNodes;
          assert PartAt(ps[i], Content[i], oldSlot, i);
        }
      }
      PartsAtFromAll(ps, Content, Slot, 0);
      assert parts[..partCount] == ps;
    }

    /** Moves the change counter on, wrapping from the largest int to 0. */
    method SetHasChanged()
      requires 0 <= state <= MAX_INT
      modifies this
      ensures state == NextState(old(state))
      ensures Tables() == old(Tables())
      ensures (size, isSorted, isInDocumentOrder, itemType, SeenTypes, initialSize) ==
              old((size, isSorted, isInDocumentOrder, itemType, SeenTypes, initialSize))
    {
      state := if state == MAX_INT then 0 else state + 1;
    }

    /** Joins the item type with the type of a new item. */
    method CheckItemType(t: int)
      modifies this
      ensures SeenTypes == old(SeenTypes) + [t]
      ensures itemType == ItemTypeJoin(old(itemType), t)
      ensures Tables() == old(Tables())
      ensures (size, isSorted, isInDocumentOrder, state, initialSize) == old((size, isSorted, isInDocumentOrder, state, initialSize))
    {
      SeenTypes := SeenTypes + [t];
      if itemType == NODE || itemType == t {
        return;
      }
      if itemType == ANY_TYPE {
        itemType := t;
      } else {
        itemType := NODE;
      }
    }

    /**
     * Adds `proxy`, opening a part of capacity `sizeHint` (or the default
     * capacity when the hint is negative) for a new document; the size
     * counter goes up, both order flags are cleared and the state moves on.
     */
    method AddWithHint(proxy: NodeProxy, sizeHint: int)
      requires Valid()
      modifies Repr()
      ensures Valid() && fresh(Repr() - old(Repr()))
      ensures Docs == DocsAfterAdd(old(Docs), proxy.docId)
      ensures Content == ContentAfterAdd(old(Docs), old(Content), proxy)
      ensures size == old(size) + 1 && !isSorted && !isInDocumentOrder
      ensures state == NextState(old(state))
      ensures SeenTypes == old(SeenTypes) + [proxy.nodeType]
      ensures itemType == ItemTypeJoin(old(itemType), proxy.nodeType)
      ensures initialSize == old(initialSize)
    {
      Place(proxy, if sizeHint > -1 then sizeHint else initialSize);
      NoteAddition(proxy.nodeType);
    }

    /** The entry stored in the part of its document, the part created first when the document is new. */
    method Place(proxy: NodeProxy, sizeHint: nat)
      requires Valid()
      modifies Repr()
      ensures Layout() && fresh(Repr() - old(Repr()))
      ensures Docs == DocsAfterAdd(old(Docs), proxy.docId)
      ensures Content == ContentAfterAdd(old(Docs), old(Content), proxy)
      ensures Coherent(Docs, Content, size + 1, false, false)
      ensures Bookkeeping() == old(Bookkeeping())
    {
      var part, slot := GetPart(proxy.docId, sizeHint);
      PartOf(slot);
      AddToPart(part, slot, proxy);
      if proxy.docId !in old(Docs) {
        AddThroughEmptyPart(old(Docs), old(Content), proxy);
      }
      AddCoherent(old(Docs), old(Content), size, isSorted, isInDocumentOrder, proxy);
    }

    /** The bookkeeping of one addition: size counted up, flags cleared, state moved on, item type joined. */
    method NoteAddition(t: int)
      requires Layout() && Coherent(Docs, Content, size + 1, false, false)
      requires 0 <= state <= MAX_INT && itemType == ItemTypeOf(SeenTypes)
      modifies this
      ensures Valid() && Tables() == old(Tables()) && initialSize == old(initialSize)
      ensures size == old(size) + 1 && !isSorted && !isInDocumentOrder
      ensures state == NextState(old(state))
      ensures SeenTypes == old(SeenTypes) + [t] && itemType == ItemTypeJoin(old(itemType), t)
    {
      ghost var types := SeenTypes + [t];
      assert types[..|types| - 1] == SeenTypes;
      size, isSorted, isInDocumentOrder := size + 1, false, false;
      SetHasChanged();
      CheckItemType(t);
    }

    /** Adds `proxy`, opening a part of the default capacity for a new document. */
    method Add(proxy: NodeProxy)
      requires Valid()
      modifies Repr()
      ensures Valid() && fresh(Repr() - old(Repr()))
      ensures Docs == DocsAfterAdd(old(Docs), proxy.docId)
      ensures Content == ContentAfterAdd(old(Docs), old(Content), proxy)
      ensures size == old(size) + 1 && !isSorted && !isInDocumentOrder
      ensures state == NextState(old(state))
      ensures SeenTypes == old(SeenTypes) + [proxy.nodeType]
      ensures itemType == ItemTypeJoin(old(itemType), proxy.nodeType)
      ensures initialSize == old(initialSize)
    {
      AddWithHint(proxy, -1);
    }

    method GetItemType() returns (r: int)
      requires Valid()
      ensures r == ItemTypeOf(SeenTypes)
    {
      r := itemType;
    }

    /** Whether the set changed since the caller saw `previousState`. */
    method HasChanged(previousState: int) returns (r: bool)
      requires Valid()
      ensures r <==> state != previousState
    {
      r := state != previousState;
    }

    /** The number of live entries of the part of `docId`, or -1 when the set holds no part for it. */
    method GetSizeHint(docId: int) returns (r: int)
      requires Valid()
      ensures docId !in Docs ==> r == -1
      ensures docId in Docs ==> r == |Content[IndexOf(Docs, docId)]|
    {
      var part, slot := Lookup(docId);
      if part == null {
        return -1;
      }
      PartOf(slot);
      IndexOfUnique(Docs, docId, slot);
      r := part.length;
    }

    /**
     * The entry at position `pos` of the parts read one after the other in
     * slot order, or None past the end.
     */
    method GetAt(pos: nat) returns (r: Option<NodeProxy>)
      requires Valid()
      ensures pos < |Flatten(Content)| ==> r == Some(Flatten(Content)[pos])
      ensures pos >= |Flatten(Content)| ==> r.None?
    {
      var count := 0;
      var i := 0;
      while i < partCount
        invariant i <= partCount
        invariant count == |Flatten(Content[..i])| <= pos
      {
        PartOf(i);
        var part := parts[i];
        if count + part.length > pos {
          FlattenIndex(Content, i, pos);
          var p := part.At(pos - count);
          return Some(p);
        }
        FlattenStep(Content, i);
        count := count + part.length;
        i := i + 1;
      }
      assert Content[..i] == Content;
      return None;
    }

    /**
     * The part at slot `i` holds `Content[i]`, all of document `Docs[i]`, and
     * is ordered by gid while the set is sorted.
     */
    lemma PartView(i: nat)
      requires Valid() && i < partCount
      ensures parts[i] != null && parts[i].Valid() && parts[i].Elements() == Content[i]
      ensures parts[i] in Repr() && parts[i].nodes in Repr()
      ensures AllOfDoc(Content[i], Docs[i]) && IndexOf(Docs, Docs[i]) == i
      ensures isSorted ==> parts[i].GidSorted()
    {
      PartOf(i);
      IndexOfUnique(Docs, Docs[i], i);
      assert Ordered(Content[i], isSorted, isInDocumentOrder);
    }

    /**
     * The entry with `gid` in the part of `docId`, found by binary search
     * without sorting first: exact while the set is sorted.
     */
    method Find(docId: int, gid: int) returns (r: Option<NodeProxy>)
      requires Valid()
      ensures r.Some? ==> docId in Docs && r.value in Content[IndexOf(Docs, docId)] && r.value.gid == gid
      ensures isSorted && gid in DocGids(Docs, Content, docId) ==> r.Some?
    {
      var part, slot := Lookup(docId);
      if part == null {
        return None;
      }
      PartView(slot);
      r := part.Get(gid);
    }

    /** Whether the part of `docId` holds `gid`, by binary search without sorting first. */
    method Contains(docId: int, gid: int) returns (r: bool)
      requires Valid()
      ensures r ==> gid in DocGids(Docs, Content, docId)
      ensures isSorted ==> (r <==> gid in DocGids(Docs, Content, docId))
    {
      var part, slot := Lookup(docId);
      if part == null {
        return false;
      }
      PartView(slot);
      r := part.Contains(gid);
    }

    /**
     * The entries of the part of `docId` with `lower <= gid <= upper`, in the
     * order they are added to the result set. The part must exist.
     */
    method GetRange(docId: int, lower: int, upper: int) returns (added: seq<NodeProxy>)
      requires Valid() && docId in Docs
      ensures forall p :: p in added ==> p in Content[IndexOf(Docs, docId)] && p.gid <= upper
      ensures isSorted ==> added == InRange(Content[IndexOf(Docs, docId)], lower, upper)
      ensures isSorted ==> Built(added) == RangeView(Content[IndexOf(Docs, docId)], docId, lower, upper)
    {
      var part, slot := Lookup(docId);
      PartView(slot);
      added := part.GetRange(lower, upper);
      if isSorted {
        RangeBuilt(Content[slot], docId, lower, upper);
      }
    }

    /**
     * The entries hasChildrenInSet adds to its result for `parent`: nothing
     * when the set holds no part for the parent's document, else what that
     * part yields for the parent's child range.
     */
    method HasChildrenInSet(parent: NodeProxy, mode: Mode, tc: TreeCodec) returns (added: seq<NodeProxy>)
      requires Valid()
      ensures parent.docId !in Docs ==> added == []
      ensures parent.docId in Docs && isSorted ==>
        added == ChildrenAdded(Content[IndexOf(Docs, parent.docId)], parent, mode, tc.childRange(parent.gid)) &&
        Built(added) == ChildrenView(Content[IndexOf(Docs, parent.docId)], parent.docId, parent, mode, tc.childRange(parent.gid))
    {
      var part, slot := Lookup(parent.docId);
      if part == null {
        return [];
      }
      PartView(slot);
      added := part.GetChildrenInSet(parent, mode, tc.childRange(parent.gid));
      if isSorted {
        ChildrenBuilt(Content[slot], parent.docId, parent, mode, tc.childRange(parent.gid));
      }
    }

    /**
     * Removes `node` from the part of its document when the set holds one;
     * `size` and both order flags are left as they were, and the state moves
     * on only when the part exists.
     */
    method Remove(node: NodeProxy) returns (ghost removed: Option<(nat, nat)>)
      requires Valid()
      modifies Repr()
      ensures Valid() && Repr() == old(Repr())
      ensures Docs == old(Docs)
      ensures (size, isSorted, isInDocumentOrder, itemType, SeenTypes, initialSize) ==
              old((size, isSorted, isInDocumentOrder, itemType, SeenTypes, initialSize))
      ensures state == if node.docId in Docs then NextState(old(state)) else old(state)
      ensures removed.None? ==> Content == old(Content)
      ensures removed.Some? ==>
        var (i, m) := removed.value;
        i < |old(Content)| && m < |old(Content)[i]| && Docs[i] == node.docId &&
        old(Content)[i][m].gid == node.gid && Content == old(Content)[i := Without(old(Content)[i], m)]
      ensures old(isSorted) ==>
        forall d, g :: Has(Docs, Content, d, g) <==> Has(old(Docs), old(Content), d, g) && !(d == node.docId && g == node.gid)
    {
      var part, slot := Lookup(node.docId);
      if part == null {
        assert forall g :: !Has(Docs, Content, node.docId, g);
        return None;
      }
      PartView(slot);
      removed := RemoveFound(part, slot, node);
    }

    /** Removal from the existing part at `slot` of the node's document, then the state moved on. */
    method RemoveFound(part: Part, ghost slot: nat, node: NodeProxy) returns (ghost removed: Option<(nat, nat)>)
      requires Valid() && slot < partCount && parts[slot] == part && Docs[slot] == node.docId
      modifies this, part, part.nodes
      ensures Valid() && Repr() == old(Repr())
      ensures Docs == old(Docs)
      ensures (size, isSorted, isInDocumentOrder, itemType, SeenTypes, initialSize) ==
              old((size, isSorted, isInDocumentOrder, itemType, SeenTypes, initialSize))
      ensures state == NextState(old(state))
      ensures removed.None? ==> Content == old(Content)
      ensures removed.Some? ==>
        var (i, m) := removed.value;
        i < |old(Content)| && m < |old(Content)[i]| && Docs[i] == node.docId &&
        old(Content)[i][m].gid == node.gid && Content == old(Content)[i := Without(old(Content)[i], m)]
      ensures old(isSorted) ==>
        forall d, g :: Has(Docs, Content, d, g) <==> Has(old(Docs), old(Content), d, g) && !(d == node.docId && g == node.gid)
    {
      assert Ordered(Content[slot], isSorted, isInDocumentOrder);
      ghost var before := Content;
      ghost var removedAt := RemoveFromPart(part, slot, node);
      RemovalView(Docs, before, Content, size, isSorted, isInDocumentOrder, slot, removedAt, node.gid);
      removed := if removedAt.Some? then Some((slot, removedAt.value)) else None;
      NoteRemoval();
    }

    /** The bookkeeping of a removal: only the state moves on. */
    method NoteRemoval()
      requires Layout() && Coherent(Docs, Content, size, isSorted, isInDocumentOrder)
      requires 0 <= state <= MAX_INT && itemType == ItemTypeOf(SeenTypes)
      modifies this
      ensures Valid() && Tables() == old(Tables())
      ensures (size, isSorted, isInDocumentOrder, itemType, SeenTypes, initialSize) ==
              old((size, isSorted, isInDocumentOrder, itemType, SeenTypes, initialSize))
      ensures state == NextState(old(state))
    {
      SetHasChanged();
    }

    /** Removes `node` from the part at `slot` by the part's own binary search, keeping the layout. */
    method RemoveFromPart(part: Part, ghost slot: nat, node: NodeProxy) returns (ghost removedAt: Option<nat>)
      requires Layout() && slot < partCount && parts[slot] == part
      modifies this, part, part.nodes
      ensures Layout() && Repr() == old(Repr())
      ensures Bookkeeping() == old(Bookkeeping()) && Docs == old(Docs)
      ensures removedAt.None? ==> Content == old(Content)
      ensures removedAt.Some? ==>
        removedAt.value < |old(Content)[slot]| && old(Content)[slot][removedAt.value].gid == node.gid &&
        Content == old(Content)[slot := Without(old(Content)[slot], removedAt.value)]
      ensures old(SortedBy(Content[slot], GidOf)) ==> (removedAt.Some? <==> node.gid in Gids(old(Content)[slot]))
    {
      ghost var ps := parts[..partCount];
      PartsAtAll(ps, Content, Slot, 0);
      assert ps[slot] == part;
      removedAt := part.Remove(node);
      SetLayout(partCount, Docs, Content[slot := part.Elements()], Slot);
      forall i | 0 <= i < |ps|
        ensures ps[i] != null && PartAt(ps[i], Content[i], Slot, i)
      {
        if i != slot {
          assert ps[i] != part && ps[i].nodes != part.nodes;
        }
      }
      PartsAtFromAll(ps, Content, Slot, 0);
      assert parts[..partCount] == ps;
    }

    /**
     * Sorts every part by gid and collapses duplicate gids, then counts the
     * entries; does nothing when the set is already sorted by gid.
     */
    method Sort()
      requires Valid()
      modifies Repr()
      ensures Valid() && Repr() == old(Repr()) && Docs == old(Docs)
      ensures isSorted && !isInDocumentOrder
      ensures old(isSorted) ==> Content == old(Content) && size == old(size)
      ensures !old(isSorted) ==>
        |Content| == |old(Content)| && size == |Flatten(Content)| &&
        forall j :: 0 <= j < |Content| ==> Content[j] == Canon(old(Content)[j], GidOf)
      ensures forall d, g :: Has(Docs, Content, d, g) <==> Has(old(Docs), old(Content), d, g)
      ensures (state, itemType, SeenTypes, initialSize) == old((state, itemType, SeenTypes, initialSize))
    {
      if isSorted {
        return;
      }
      ghost var before := Content;
      var total := CanonParts(GidOf);
      SortedCoherent(Docs, before, Content);
      SetOrder(total, true, false);
    }

    /**
     * Sorts every part into document order and collapses duplicate gids,
     * then counts the entries; does nothing when the set is already in
     * document order. `rank(doc, gid)` gives each node its position in
     * its own document's tree.
     */
    method SortInDocumentOrder(rank: (int, int) -> int)
      requires Valid() && Injective(rank)
      modifies Repr()
      ensures Valid() && Repr() == old(Repr()) && Docs == old(Docs)
      ensures !isSorted && isInDocumentOrder
      ensures old(isInDocumentOrder) ==> Content == old(Content) && size == old(size)
      ensures !old(isInDocumentOrder) ==>
        |Content| == |old(Content)| && size == |Flatten(Content)| &&
        forall j :: 0 <= j < |Content| ==> Content[j] == Canon(old(Content)[j], DocOrderKey(rank))
      ensures forall d, g :: Has(Docs, Content, d, g) <==> Has(old(Docs), old(Content), d, g)
      ensures (state, itemType, SeenTypes, initialSize) == old((state, itemType, SeenTypes, initialSize))
    {
      if isInDocumentOrder {
        return;
      }
      ghost var before := Content;
      var total := CanonParts(DocOrderKey(rank));
      DocOrderCoherent(Docs, before, Content, rank);
      SetOrder(total, false, true);
    }

    /** Records the entry count and the two order flags, in one step. */
    method SetOrder(n: int, sorted: bool, inDocOrder: bool)
      requires Layout()
      modifies this
      ensures Layout()
      ensures size == n && isSorted == sorted && isInDocumentOrder == inDocOrder
      ensures Tables() == old(Tables())
      ensures (state, itemType, SeenTypes, initialSize) == old((state, itemType, SeenTypes, initialSize))
    {
      size, isSorted, isInDocumentOrder := n, sorted, inDocOrder;
    }

    /** Sorts every part by `key` and collapses duplicate gids, slot by slot; returns the new entry count. */
    method CanonParts(key: NodeProxy -> int) returns (total: nat)
      requires Layout()
      modifies Repr()
      ensures Layout() && Repr() == old(Repr()) && Docs == old(Docs) && |Content| == |old(Content)|
      ensures forall j :: 0 <= j < |Content| ==> Content[j] == Canon(old(Content)[j], key)
      ensures total == |Flatten(Content)|
      ensures Bookkeeping() == old(Bookkeeping())
    {
      total := 0;
      var i := 0;
      ghost var c0 := Content;
      if partCount > 0 {
        CanonUpToStep(c0, 0, key);
      }
      while i < partCount
        invariant 0 <= i <= partCount == |Content| == |c0|
        invariant Layout() && Repr() == old(Repr()) && Docs == old(Docs)
        invariant Content == CanonUpTo(c0, i, key)
        invariant total == |Flatten(Content[..i])|
        invariant Bookkeeping() == old(Bookkeeping())
      {
        PartOf(i);
        ghost var c := Content;
        var n := CanonPart(parts[i], i, key);
        FlattenPrefixUpdate(c, i, Content[i]);
        CanonUpToStep(c0, i, key);
        total := total + n;
        i := i + 1;
      }
      assert Content[..i] == Content;
    }

    /** Sorts the part at `slot` by `key` and collapses its duplicate gids, keeping the layout. */
    method CanonPart(part: Part, ghost slot: nat, key: NodeProxy -> int) returns (n: nat)
      requires Layout() && slot < partCount && parts[slot] == part
      modifies this, part, part.nodes
      ensures Layout() && Repr() == old(Repr())
      ensures Bookkeeping() == old(Bookkeeping()) && Docs == old(Docs)
      ensures Content == old(Content)[slot := Canon(old(Content)[slot], key)]
      ensures n == |Content[slot]|
    {
      ghost var ps := parts[..partCount];
      PartsAtAll(ps, Content, Slot, 0);
      assert ps[slot] == part;
      n := part.Canonicalize(key);
      SetLayout(partCount, Docs, Content[slot := part.Elements()], Slot);
      forall i | 0 <= i < |ps|
        ensures ps[i] != null && PartAt(ps[i], Content[i], Slot, i)
      {
        if i != slot {
          assert ps[i] != part && ps[i].nodes != part.nodes;
        }
      }
      PartsAtFromAll(ps, Content, Slot, 0);
      assert parts[..partCount] == ps;
    }

    /**
     * The number of entries, sorting by gid first (which collapses
     * duplicates) unless the set is already in either order.
     */
    method GetLength() returns (r: int)
      requires Valid()
      modifies Repr()
      ensures Valid() && Repr() == old(Repr()) && Docs == old(Docs)
      ensures r == size && r >= |Flatten(Content)|
      ensures old(isSorted || isInDocumentOrder) ==>
        Content == old(Content) && r == old(size) &&
        isSorted == old(isSorted) && isInDocumentOrder == old(isInDocumentOrder)
      ensures !old(isSorted || isInDocumentOrder) ==>
        r == |Flatten(Content)| && isSorted && !isInDocumentOrder &&
        |Content| == |old(Content)| && forall j :: 0 <= j < |Content| ==> Content[j] == Canon(old(Content)[j], GidOf)
      ensures forall d, g :: Has(Docs, Content, d, g) <==> Has(old(Docs), old(Content), d, g)
      ensures (state, itemType, SeenTypes, initialSize) == old((state, itemType, SeenTypes, initialSize))
    {
      if !(isSorted || isInDocumentOrder) {
        Sort();
      }
      r := size;
    }

    /** The entry of node (`docId`, `gid`), sorting by gid first: found exactly when the set holds the node. */
    method Get(docId: int, gid: int) returns (r: Option<NodeProxy>)
      requires Valid()
      modifies Repr()
      ensures Valid() && Repr() == old(Repr()) && Docs == old(Docs) && isSorted && !isInDocumentOrder
      ensures r.Some? ==> docId in Docs && r.value in Content[IndexOf(Docs, docId)] && r.value.gid == gid
      ensures r.Some? <==> Has(old(Docs), old(Content), docId, gid)
      ensures forall d, g :: Has(Docs, Content, d, g) <==> Has(old(Docs), old(Content), d, g)
      ensures (state, itemType, SeenTypes, initialSize) == old((state, itemType, SeenTypes, initialSize))
    {
      Sort();
      r := Find(docId, gid);
      DocGidsMembership(Docs, Content, docId, gid);
    }

    /**
     * The entry parentWithChild reports for node (`docId`, `gid`) after
     * sorting by gid: the first of the candidate ids present in the part of
     * `docId`, or None when the set holds no part for it.
     */
    method ParentWithChild(tc: TreeCodec, docId: int, gid: int, directParent: bool, includeSelf: bool, level: int)
      returns (r: Option<NodeProxy>)
      requires Valid() && ParentsPrecede(tc)
      modifies Repr()
      ensures Valid() && Repr() == old(Repr()) && Docs == old(Docs) && isSorted && !isInDocumentOrder
      ensures r.Some? ==> docId in Docs && r.value in Content[IndexOf(Docs, docId)]
      ensures GidOfOption(r) == FirstIn(Candidates(tc, gid, directParent, includeSelf, level), DocGids(Docs, Content, docId))
      ensures forall d, g :: Has(Docs, Content, d, g) <==> Has(old(Docs), old(Content), d, g)
      ensures (state, itemType, SeenTypes, initialSize) == old((state, itemType, SeenTypes, initialSize))
    {
      Sort();
      r := ParentInPart(tc, docId, gid, directParent, includeSelf, level);
    }

    /** The lookup of parentWithChild in the part of `docId`, on a set sorted by gid. */
    method ParentInPart(tc: TreeCodec, docId: int, gid: int, directParent: bool, includeSelf: bool, level: int)
      returns (r: Option<NodeProxy>)
      requires Valid() && ParentsPrecede(tc) && isSorted
      ensures r.Some? ==> docId in Docs && r.value in Content[IndexOf(Docs, docId)]
      ensures GidOfOption(r) == FirstIn(Candidates(tc, gid, directParent, includeSelf, level), DocGids(Docs, Content, docId))
    {
      var part, slot := Lookup(docId);
      if part == null {
        return None;
      }
      PartView(slot);
      r := part.ParentWithChild(tc, gid, directParent, includeSelf, level);
    }
  }
}
