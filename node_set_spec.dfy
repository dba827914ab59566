/**
 * Specification functions for the partitioned node set: the abstract view of
 * a set (sorted document ids paired with one sequence of entries per
 * document), what an addition or a removal does to that view, the item-type
 * lattice, the wrap-around change counter, array growth, and the ancestor
 * walk over an external node-id codec.
 */
module NodeSetSpec {
  import opened Wrappers
  import opened NodeProxies

  ghost predicate StrictlyIncreasing(s: seq<int>) {
    forall i, j :: 0 <= i < j < |s| ==> s[i] < s[j]
  }

  /** The slot at which `x` belongs in `s`: the number of leading entries below `x`. */
  function InsertionPoint(s: seq<int>, x: int): (k: nat)
    ensures k <= |s|
    ensures forall i :: 0 <= i < k ==> s[i] < x
    ensures k < |s| ==> x <= s[k]
  {
    if s == [] || x <= s[0] then 0 else 1 + InsertionPoint(s[1..], x)
  }

  lemma InsertionPointSplits(s: seq<int>, x: int)
    requires StrictlyIncreasing(s)
    ensures forall i :: InsertionPoint(s, x) <= i < |s| ==> x <= s[i]
  {
  }

  /** Any slot with only smaller entries before it and none smaller from it on is the insertion point. */
  lemma InsertionPointUnique(s: seq<int>, x: int, k: nat)
    requires k <= |s|
    requires forall i :: 0 <= i < k ==> s[i] < x
    requires k < |s| ==> x <= s[k]
    ensures InsertionPoint(s, x) == k
  {
  }

  function IndexOf(s: seq<int>, x: int): (i: nat)
    requires x in s
    ensures i < |s| && s[i] == x
  {
    if s[0] == x then 0 else 1 + IndexOf(s[1..], x)
  }

  lemma IndexOfUnique(s: seq<int>, x: int, i: int)
    requires StrictlyIncreasing(s) && 0 <= i < |s| && s[i] == x
    ensures IndexOf(s, x) == i
  {
  }

  /** Entry `p` is appended unless the last entry already carries its gid. */
  function Appended(s: seq<NodeProxy>, p: NodeProxy): seq<NodeProxy> {
    if |s| > 0 && s[|s| - 1].gid == p.gid then s else s + [p]
  }

  /** Every part holds only entries of the document in its slot. */
  ghost predicate Paired(docs: seq<int>, content: seq<seq<NodeProxy>>) {
    |docs| == |content| && forall i :: 0 <= i < |docs| ==> AllOfDoc(content[i], docs[i])
  }

  /** Node (d, g) belongs to the set. */
  ghost predicate Has(docs: seq<int>, content: seq<seq<NodeProxy>>, d: int, g: int) {
    exists i :: 0 <= i < |docs| && i < |content| && docs[i] == d && g in Gids(content[i])
  }

  function DocsAfterAdd(docs: seq<int>, d: int): seq<int> {
    if d in docs then docs
    else
      var k := InsertionPoint(docs, d);
      docs[..k] + [d] + docs[k..]
  }

  function ContentAfterAdd(docs: seq<int>, content: seq<seq<NodeProxy>>, p: NodeProxy): seq<seq<NodeProxy>>
    requires |docs| == |content|
  {
    if p.docId in docs then
      var i := IndexOf(docs, p.docId);
      content[i := Appended(content[i], p)]
    else
      var k := InsertionPoint(docs, p.docId);
      content[..k] + [[p]] + content[k..]
  }

  /** An addition keeps the document ids strictly increasing and every part paired with its document. */
  lemma AddKeepsShape(docs: seq<int>, content: seq<seq<NodeProxy>>, p: NodeProxy)
    requires StrictlyIncreasing(docs) && Paired(docs, content)
    ensures StrictlyIncreasing(DocsAfterAdd(docs, p.docId))
    ensures Paired(DocsAfterAdd(docs, p.docId), ContentAfterAdd(docs, content, p))
  {
    var d := p.docId;
    if d !in docs {
      InsertedIncreasing(docs, d);
      PairedInsert(docs, content, InsertionPoint(docs, d), d, [p]);
    }
  }

  /** After an addition the set holds exactly the nodes it held before and the added one. */
  lemma AddMembership(docs: seq<int>, content: seq<seq<NodeProxy>>, p: NodeProxy, d: int, g: int)
    requires StrictlyIncreasing(docs) && Paired(docs, content)
    ensures Has(DocsAfterAdd(docs, p.docId), ContentAfterAdd(docs, content, p), d, g)
        <==> Has(docs, content, d, g) || (d == p.docId && g == p.gid)
  {
    if p.docId in docs {
      AddToExistingPart(docs, content, p, d, g);
    } else {
      AddNewPart(docs, content, p, d, g);
    }
  }

  lemma AppendedGids(s: seq<NodeProxy>, p: NodeProxy)
    ensures Gids(Appended(s, p)) == Gids(s) + {p.gid}
  {
    if |s| > 0 && s[|s| - 1].gid == p.gid {
      assert s[|s| - 1] in s;
    }
  }

  lemma AddToExistingPart(docs: seq<int>, content: seq<seq<NodeProxy>>, p: NodeProxy, d: int, g: int)
    requires StrictlyIncreasing(docs) && Paired(docs, content) && p.docId in docs
    ensures Has(DocsAfterAdd(docs, p.docId), ContentAfterAdd(docs, content, p), d, g)
        <==> Has(docs, content, d, g) || (d == p.docId && g == p.gid)
  {
    var content' := ContentAfterAdd(docs, content, p);
    var i := IndexOf(docs, p.docId);
    AppendedGids(content[i], p);
    assert DocsAfterAdd(docs, p.docId) == docs;
    assert Gids(content'[i]) == Gids(content[i]) + {p.gid};
    assert forall j :: 0 <= j < |docs| && j != i ==> content'[j] == content[j];
  }

  lemma AddNewPart(docs: seq<int>, content: seq<seq<NodeProxy>>, p: NodeProxy, d: int, g: int)
    requires StrictlyIncreasing(docs) && Paired(docs, content) && p.docId !in docs
    ensures Has(DocsAfterAdd(docs, p.docId), ContentAfterAdd(docs, content, p), d, g)
        <==> Has(docs, content, d, g) || (d == p.docId && g == p.gid)
  {
    assert Gids([p]) == {p.gid};
    HasInsert(docs, content, InsertionPoint(docs, p.docId), p.docId, [p], d, g);
  }

  /** A document and its entries inserted at slot `k` add exactly their nodes. */
  lemma HasInsert(docs: seq<int>, content: seq<seq<NodeProxy>>, k: nat, d0: int, c0: seq<NodeProxy>, d: int, g: int)
    requires |docs| == |content| && k <= |docs|
    ensures Has(docs[..k] + [d0] + docs[k..], content[..k] + [c0] + content[k..], d, g)
        <==> Has(docs, content, d, g) || (d == d0 && g in Gids(c0))
  {
    var docs', content' := docs[..k] + [d0] + docs[k..], content[..k] + [c0] + content[k..];
    if Has(docs, content, d, g) {
      var j :| 0 <= j < |docs| && j < |content| && docs[j] == d && g in Gids(content[j]);
      var j' := if j < k then j else j + 1;
      assert docs'[j'] == docs[j] && content'[j'] == content[j];
    }
    if d == d0 && g in Gids(c0) {
      assert docs'[k] == d0 && content'[k] == c0;
    }
    if Has(docs', content', d, g) {
      var j :| 0 <= j < |docs'| && j < |content'| && docs'[j] == d && g in Gids(content'[j]);
      if j < k {
        assert docs[j] == docs'[j] && content[j] == content'[j];
      } else if j > k {
        assert docs[j - 1] == docs'[j] && content[j - 1] == content'[j];
      }
    }
  }

  /** In-order additions keep a part strictly increasing by gid. */
  lemma AppendInOrder(s: seq<NodeProxy>, p: NodeProxy)
    requires StrictlyIncreasingBy(s, GidOf)
    requires |s| > 0 ==> s[|s| - 1].gid < p.gid
    ensures Appended(s, p) == s + [p]
    ensures StrictlyIncreasingBy(Appended(s, p), GidOf)
  {
  }

  // ---------------------------------------------------------------------------
  // Removal of one entry
  // ---------------------------------------------------------------------------

  function Without(s: seq<NodeProxy>, m: nat): seq<NodeProxy>
    requires m < |s|
  {
    s[..m] + s[m + 1..]
  }

  /** Removing one entry keeps an ordered part ordered and takes away exactly its gid. */
  lemma WithoutProperties(s: seq<NodeProxy>, m: nat, key: NodeProxy -> int)
    requires m < |s|
    ensures StrictlyIncreasingBy(s, key) ==> StrictlyIncreasingBy(Without(s, m), key)
    ensures DistinctGids(s) ==> DistinctGids(Without(s, m)) && Gids(Without(s, m)) == Gids(s) - {s[m].gid}
    ensures forall p :: p in Without(s, m) ==> p in s
  {
    var w := Without(s, m);
    assert forall i :: 0 <= i < |w| ==> w[i] == if i < m then s[i] else s[i + 1];
    if DistinctGids(s) {
      forall g | g in Gids(s) - {s[m].gid} ensures g in Gids(w) {
        var i :| 0 <= i < |s| && s[i].gid == g;
        assert i != m;
        assert s[i] == w[if i < m then i else i - 1];
      }
    }
  }

  /** Replacing one part by one that lost exactly gid `g` removes exactly node (docs[i], g) from the set. */
  lemma ReplacePartMembership(docs: seq<int>, content: seq<seq<NodeProxy>>, content': seq<seq<NodeProxy>>, i: nat, g: int)
    requires StrictlyIncreasing(docs) && |docs| == |content| == |content'| && i < |docs|
    requires forall j :: 0 <= j < |docs| && j != i ==> content'[j] == content[j]
    requires Gids(content'[i]) == Gids(content[i]) - {g}
    ensures forall d, h :: Has(docs, content', d, h) <==> Has(docs, content, d, h) && !(d == docs[i] && h == g)
  {
    forall d, h ensures Has(docs, content', d, h) <==> Has(docs, content, d, h) && !(d == docs[i] && h == g) {
      if Has(docs, content, d, h) && !(d == docs[i] && h == g) {
        var j :| 0 <= j < |docs| && docs[j] == d && h in Gids(content[j]);
        assert h in Gids(content'[j]);
      }
      if Has(docs, content', d, h) {
        var j :| 0 <= j < |docs| && docs[j] == d && h in Gids(content'[j]);
        assert h in Gids(content[j]);
        if j != i {
          assert docs[j] != docs[i];
        }
      }
    }
  }

  /** Parts whose gid sets are unchanged hold the same nodes. */
  lemma SameGidsSameMembers(docs: seq<int>, content: seq<seq<NodeProxy>>, content': seq<seq<NodeProxy>>)
    requires |docs| == |content| == |content'|
    requires forall j :: 0 <= j < |docs| ==> Gids(content'[j]) == Gids(content[j])
    ensures forall d, h :: Has(docs, content', d, h) <==> Has(docs, content, d, h)
  {
    forall d, h | Has(docs, content, d, h) ensures Has(docs, content', d, h) {
      var j :| 0 <= j < |docs| && docs[j] == d && h in Gids(content[j]);
      assert h in Gids(content'[j]);
    }
    forall d, h | Has(docs, content', d, h) ensures Has(docs, content, d, h) {
      var j :| 0 <= j < |docs| && docs[j] == d && h in Gids(content'[j]);
      assert h in Gids(content[j]);
    }
  }

  /** The gids the set holds for document `d`. */
  ghost function DocGids(docs: seq<int>, content: seq<seq<NodeProxy>>, d: int): set<int>
    requires |docs| == |content|
  {
    if d in docs then Gids(content[IndexOf(docs, d)]) else {}
  }

  lemma DocGidsMembership(docs: seq<int>, content: seq<seq<NodeProxy>>, d: int, g: int)
    requires StrictlyIncreasing(docs) && |docs| == |content|
    ensures g in DocGids(docs, content, d) <==> Has(docs, content, d, g)
  {
    if Has(docs, content, d, g) {
      var j :| 0 <= j < |docs| && docs[j] == d && g in Gids(content[j]);
      IndexOfUnique(docs, d, j);
    }
  }

  // ---------------------------------------------------------------------------
  // Range extraction
  // ---------------------------------------------------------------------------

  /** The entries of `s` with `lower <= gid <= upper`, in their order in `s`. */
  function InRange(s: seq<NodeProxy>, lower: int, upper: int): (r: seq<NodeProxy>)
    ensures |r| <= |s|
  {
    if s == [] then []
    else if lower <= s[0].gid <= upper then [s[0]] + InRange(s[1..], lower, upper)
    else InRange(s[1..], lower, upper)
  }

  /** The in-range subsequence holds exactly the entries of `s` whose gid lies in `[lower, upper]`. */
  lemma {:induction false} InRangeMembers(s: seq<NodeProxy>, lower: int, upper: int)
    ensures forall p :: p in InRange(s, lower, upper) <==> p in s && lower <= p.gid <= upper
  {
    if s != [] {
      InRangeMembers(s[1..], lower, upper);
      assert s == [s[0]] + s[1..];
    }
  }

  /** A run of a gid-sorted sequence inside `[lower, upper]`, bounded by entries outside it, is exactly the entries inside it. */
  lemma WindowBounds(s: seq<NodeProxy>, lo: nat, hi: nat, lower: int, upper: int)
    requires SortedBy(s, GidOf) && lo <= hi <= |s|
    requires lo == 0 || s[lo - 1].gid < lower
    requires hi == |s| || s[hi].gid > upper
    requires forall k :: lo <= k < hi ==> lower <= s[k].gid <= upper
    ensures forall k :: 0 <= k < |s| ==> (lo <= k < hi <==> lower <= s[k].gid <= upper)
  {
    forall k | 0 <= k < |s| && !(lo <= k < hi) ensures !(lower <= s[k].gid <= upper) {
      if k < lo {
        assert GidOf(s[k]) <= GidOf(s[lo - 1]);
      } else {
        assert GidOf(s[hi]) <= GidOf(s[k]);
      }
    }
  }

  /** When the indices in `[lo, hi)` are exactly those of in-range entries, that slice is the in-range subsequence. */
  lemma {:induction false} WindowIsInRange(s: seq<NodeProxy>, lo: nat, hi: nat, lower: int, upper: int)
    requires lo <= hi <= |s|
    requires forall k :: 0 <= k < |s| ==> (lo <= k < hi <==> lower <= s[k].gid <= upper)
    ensures s[lo..hi] == InRange(s, lower, upper)
  {
    if s != [] {
      var t := s[1..];
      var lo', hi' := if lo > 0 then lo - 1 else 0, if hi > 0 then hi - 1 else 0;
      forall k | 0 <= k < |t| ensures lo' <= k < hi' <==> lower <= t[k].gid <= upper {
        assert t[k] == s[k + 1];
      }
      WindowIsInRange(t, lo', hi', lower, upper);
      if lo > 0 {
        TailSlice(s, lo, hi);
      } else if hi > 0 {
        TailSlice(s, 1, hi);
        assert s[0..hi] == [s[0]] + s[1..hi];
      }
    }
  }

  lemma TailSlice(s: seq<NodeProxy>, lo: nat, hi: nat)
    requires 1 <= lo <= hi <= |s|
    ensures s[1..][lo - 1..hi - 1] == s[lo..hi]
  {
  }

  lemma InRangeOrdered(s: seq<NodeProxy>, lower: int, upper: int, lo: nat, hi: nat)
    requires StrictlyIncreasingBy(s, GidOf) && lo <= hi <= |s|
    ensures StrictlyIncreasingBy(s[lo..hi], GidOf)
  {
  }

  /** How getChildrenInSet reports a match: the child itself, or the parent once per child. */
  datatype Mode = Descendant | Ancestor | OtherMode

  /** The (document ids, parts) view of the set getRange builds from the entries `s` of document `doc`. */
  function RangeView(s: seq<NodeProxy>, doc: int, lower: int, upper: int): (seq<int>, seq<seq<NodeProxy>>) {
    var w := InRange(s, lower, upper);
    if w == [] then ([], []) else ([doc], [w])
  }

  /**
   * The view of the set getChildrenInSet builds from the entries `s` of
   * document `doc`: the entries in the child range, or the parent once, or
   * nothing for any other mode.
   */
  function ChildrenView(s: seq<NodeProxy>, doc: int, parent: NodeProxy, mode: Mode, range: ChildRange): (seq<int>, seq<seq<NodeProxy>>) {
    if InRange(s, range.start, range.end) == [] then ([], [])
    else match mode
      case Descendant => RangeView(s, doc, range.start, range.end)
      case Ancestor => ([parent.docId], [[parent]])
      case OtherMode => ([], [])
  }

  /** A range view holds exactly the nodes of `doc` with an in-range gid. */
  lemma RangeViewMembers(s: seq<NodeProxy>, doc: int, lower: int, upper: int, d: int, g: int)
    requires AllOfDoc(s, doc)
    ensures var (docs, content) := RangeView(s, doc, lower, upper);
      Has(docs, content, d, g) <==> d == doc && lower <= g <= upper && g in Gids(s)
  {
    var w := InRange(s, lower, upper);
    InRangeMembers(s, lower, upper);
    if d == doc && lower <= g <= upper && g in Gids(s) {
      var p :| p in s && p.gid == g;
      assert p in w;
      assert g in Gids(w);
      var (docs, content) := RangeView(s, doc, lower, upper);
      assert docs[0] == d && content[0] == w;
    }
  }

  /** On entries sorted by gid, the in-range subsequence is sorted by gid too. */
  lemma {:induction false} InRangeStrict(s: seq<NodeProxy>, lower: int, upper: int)
    requires StrictlyIncreasingBy(s, GidOf)
    ensures StrictlyIncreasingBy(InRange(s, lower, upper), GidOf)
  {
    if s != [] {
      var t := s[1..];
      InRangeStrict(t, lower, upper);
      InRangeMembers(t, lower, upper);
      var w := InRange(t, lower, upper);
      if lower <= s[0].gid <= upper {
        forall k | 0 <= k < |w| ensures s[0].gid < w[k].gid {
          assert w[k] in t;
        }
      }
    }
  }

  /** The entries getChildrenInSet adds to its result, in order: each child in range, or the parent once per child. */
  function ChildrenAdded(s: seq<NodeProxy>, parent: NodeProxy, mode: Mode, range: ChildRange): seq<NodeProxy> {
    var w := InRange(s, range.start, range.end);
    match mode
      case Descendant => w
      case Ancestor => seq(|w|, _ => parent)
      case OtherMode => []
  }

  /** The view of a new, empty set after adding the entries of `added` in order. */
  function Built(added: seq<NodeProxy>): (r: (seq<int>, seq<seq<NodeProxy>>))
    ensures |r.0| == |r.1|
  {
    if added == [] then ([], [])
    else
      var b := Built(added[..|added| - 1]);
      var p := added[|added| - 1];
      (DocsAfterAdd(b.0, p.docId), ContentAfterAdd(b.0, b.1, p))
  }

  /** The first addition to an empty set opens one part holding the entry. */
  lemma AddToEmpty(p: NodeProxy)
    ensures DocsAfterAdd([], p.docId) == [p.docId] && ContentAfterAdd([], [], p) == [[p]]
  {
    assert InsertionPoint([], p.docId) == 0;
  }

  /** An addition to a set of one part of the same document appends to that part. */
  lemma AddToSingle(c: seq<NodeProxy>, p: NodeProxy)
    ensures DocsAfterAdd([p.docId], p.docId) == [p.docId]
    ensures ContentAfterAdd([p.docId], [c], p) == [Appended(c, p)]
  {
    assert IndexOf([p.docId], p.docId) == 0;
  }

  /** Adding entries of one document with increasing gids builds one part holding all of them. */
  lemma {:induction false} BuiltOneDoc(s: seq<NodeProxy>, d: int)
    requires s != [] && AllOfDoc(s, d) && StrictlyIncreasingBy(s, GidOf)
    ensures Built(s) == ([d], [s])
  {
    var init, p := s[..|s| - 1], s[|s| - 1];
    assert p in s;
    if init == [] {
      assert s == [p];
      AddToEmpty(p);
    } else {
      assert init[|init| - 1] == s[|s| - 2];
      forall q | q in init ensures q.docId == d {
        assert q in s;
      }
      BuiltOneDoc(init, d);
      AddToSingle(init, p);
      assert Appended(init, p) == s;
    }
  }

  /** Adding the same entry any positive number of times builds one part holding it once. */
  lemma {:induction false} BuiltRepeated(p: NodeProxy, k: nat)
    requires k > 0
    ensures Built(seq(k, _ => p)) == ([p.docId], [[p]])
  {
    var s := seq(k, _ => p);
    assert s[..k - 1] == seq(k - 1, _ => p);
    if k > 1 {
      BuiltRepeated(p, k - 1);
      AddToSingle([p], p);
    } else {
      AddToEmpty(p);
    }
  }

  /** On the entries of one document sorted by gid, the set getRange builds is the range view. */
  lemma RangeBuilt(s: seq<NodeProxy>, doc: int, lower: int, upper: int)
    requires AllOfDoc(s, doc) && StrictlyIncreasingBy(s, GidOf)
    ensures Built(InRange(s, lower, upper)) == RangeView(s, doc, lower, upper)
  {
    var w := InRange(s, lower, upper);
    if w != [] {
      InRangeMembers(s, lower, upper);
      InRangeStrict(s, lower, upper);
      BuiltOneDoc(w, doc);
    }
  }

  /** On the entries of one document sorted by gid, the set getChildrenInSet builds is the children view. */
  lemma ChildrenBuilt(s: seq<NodeProxy>, doc: int, parent: NodeProxy, mode: Mode, range: ChildRange)
    requires AllOfDoc(s, doc) && StrictlyIncreasingBy(s, GidOf)
    ensures Built(ChildrenAdded(s, parent, mode, range)) == ChildrenView(s, doc, parent, mode, range)
  {
    var w := InRange(s, range.start, range.end);
    if w != [] {
      match mode
      case Descendant => RangeBuilt(s, doc, range.start, range.end);
      case Ancestor => BuiltRepeated(parent, |w|);
      case OtherMode =>
    }
  }

  /**
   * The value-level invariant of a node set: document ids strictly increasing
   * and paired with their parts, `size` never below the number of entries,
   * at most one sort flag, and the order each flag promises.
   */
  ghost predicate Coherent(docs: seq<int>, content: seq<seq<NodeProxy>>, size: int, sorted: bool, inDocOrder: bool) {
    StrictlyIncreasing(docs) && Paired(docs, content) &&
    size >= |Flatten(content)| &&
    !(sorted && inDocOrder) &&
    forall i :: 0 <= i < |content| ==> Ordered(content[i], sorted, inDocOrder)
  }

  /** The order a part's entries keep under the two flags: by gid when sorted, no gid twice under either. */
  ghost predicate Ordered(c: seq<NodeProxy>, sorted: bool, inDocOrder: bool) {
    (sorted ==> StrictlyIncreasingBy(c, GidOf)) && (sorted || inDocOrder ==> DistinctGids(c))
  }

  /** Removing one entry of one part keeps the invariant, with `size` left as it was. */
  lemma RemoveCoherent(docs: seq<int>, content: seq<seq<NodeProxy>>, size: int, sorted: bool, inDocOrder: bool, i: nat, m: nat)
    requires Coherent(docs, content, size, sorted, inDocOrder) && i < |content| && m < |content[i]|
    ensures Coherent(docs, content[i := Without(content[i], m)], size, sorted, inDocOrder)
  {
    var w := Without(content[i], m);
    WithoutProperties(content[i], m, GidOf);
    FlattenUpdateLength(content, i, w);
    var c := content[i := w];
    forall j | 0 <= j < |c|
      ensures AllOfDoc(c[j], docs[j]) && Ordered(c[j], sorted, inDocOrder)
    {
      assert Ordered(content[j], sorted, inDocOrder);
    }
  }

  /**
   * Removing the entry at offset `m` of part `i` keeps the invariant; on a
   * sorted set it takes away exactly node (docs[i], g).
   */
  lemma RemovedView(docs: seq<int>, content: seq<seq<NodeProxy>>, size: int, sorted: bool, inDocOrder: bool,
                    i: nat, m: nat, g: int)
    requires Coherent(docs, content, size, sorted, inDocOrder) && i < |content| && m < |content[i]|
    requires content[i][m].gid == g
    ensures Coherent(docs, content[i := Without(content[i], m)], size, sorted, inDocOrder)
    ensures sorted ==> forall d, h ::
      Has(docs, content[i := Without(content[i], m)], d, h) <==> Has(docs, content, d, h) && !(d == docs[i] && h == g)
  {
    RemoveCoherent(docs, content, size, sorted, inDocOrder, i, m);
    if sorted {
      assert Ordered(content[i], sorted, inDocOrder);
      WithoutProperties(content[i], m, GidOf);
      ReplacePartMembership(docs, content, content[i := Without(content[i], m)], i, g);
    }
  }

  /**
   * What a removal attempt on part `i` leaves: the set unchanged when the
   * search found nothing, else the found entry gone; either way the
   * invariant holds, and on a sorted set exactly node (docs[i], g) is gone.
   */
  lemma RemovalView(docs: seq<int>, content: seq<seq<NodeProxy>>, content': seq<seq<NodeProxy>>, size: int,
                    sorted: bool, inDocOrder: bool, i: nat, removedAt: Option<nat>, g: int)
    requires Coherent(docs, content, size, sorted, inDocOrder) && i < |content|
    requires removedAt.None? ==> content' == content && (sorted ==> g !in Gids(content[i]))
    requires removedAt.Some? ==>
      removedAt.value < |content[i]| && content[i][removedAt.value].gid == g &&
      content' == content[i := Without(content[i], removedAt.value)]
    ensures Coherent(docs, content', size, sorted, inDocOrder)
    ensures sorted ==> forall d, h :: Has(docs, content', d, h) <==> Has(docs, content, d, h) && !(d == docs[i] && h == g)
  {
    if removedAt.Some? {
      RemovedView(docs, content, size, sorted, inDocOrder, i, removedAt.value, g);
    } else if sorted {
      AbsentFromPart(docs, content, i, g);
    }
  }

  /** A gid missing from part `i` is not a node of document `docs[i]`. */
  lemma AbsentFromPart(docs: seq<int>, content: seq<seq<NodeProxy>>, i: nat, g: int)
    requires StrictlyIncreasing(docs) && |docs| == |content| && i < |docs| && g !in Gids(content[i])
    ensures !Has(docs, content, docs[i], g)
  {
    IndexOfUnique(docs, docs[i], i);
    DocGidsMembership(docs, content, docs[i], g);
  }

  /**
   * A sort pass by a key that separates gids leaves every part strictly
   * increasing by the key with no gid twice, still paired with its document,
   * and the set holding the same nodes.
   */
  lemma CanonView(docs: seq<int>, content: seq<seq<NodeProxy>>, content': seq<seq<NodeProxy>>, key: NodeProxy -> int)
    requires StrictlyIncreasing(docs) && Paired(docs, content) && forall d :: d in docs ==> SeparatesGids(key, d)
    requires |content'| == |content| && forall j :: 0 <= j < |content| ==> content'[j] == Canon(content[j], key)
    ensures Paired(docs, content')
    ensures forall j :: 0 <= j < |content'| ==> StrictlyIncreasingBy(content'[j], key) && DistinctGids(content'[j])
    ensures forall d, g :: Has(docs, content', d, g) <==> Has(docs, content, d, g)
  {
    forall j | 0 <= j < |content|
      ensures AllOfDoc(content'[j], docs[j]) && Gids(content'[j]) == Gids(content[j])
      ensures StrictlyIncreasingBy(content'[j], key) && DistinctGids(content'[j])
    {
      CanonProperties(content[j], key, docs[j]);
    }
    SameGidsSameMembers(docs, content, content');
  }

  /** After a sort pass by gid the set is coherent as sorted, with the exact entry count, and holds the same nodes. */
  lemma SortedCoherent(docs: seq<int>, content: seq<seq<NodeProxy>>, content': seq<seq<NodeProxy>>)
    requires StrictlyIncreasing(docs) && Paired(docs, content)
    requires |content'| == |content| && forall j :: 0 <= j < |content| ==> content'[j] == Canon(content[j], GidOf)
    ensures Coherent(docs, content', |Flatten(content')|, true, false)
    ensures forall d, g :: Has(docs, content', d, g) <==> Has(docs, content, d, g)
  {
    forall d | d in docs ensures SeparatesGids(GidOf, d) {
      GidKeySeparates(d);
    }
    CanonView(docs, content, content', GidOf);
  }

  /** After a sort pass into document order the set is coherent as in document order, with the exact entry count. */
  lemma DocOrderCoherent(docs: seq<int>, content: seq<seq<NodeProxy>>, content': seq<seq<NodeProxy>>, rank: (int, int) -> int)
    requires StrictlyIncreasing(docs) && Paired(docs, content) && Injective(rank)
    requires |content'| == |content| && forall j :: 0 <= j < |content| ==> content'[j] == Canon(content[j], DocOrderKey(rank))
    ensures Coherent(docs, content', |Flatten(content')|, false, true)
    ensures forall d, g :: Has(docs, content', d, g) <==> Has(docs, content, d, g)
  {
    forall d | d in docs ensures SeparatesGids(DocOrderKey(rank), d) {
      DocOrderKeySeparates(rank, d);
    }
    CanonView(docs, content, content', DocOrderKey(rank));
  }

  /** The parts before `i` in canonical form, the others as they are. */
  function CanonUpTo(c: seq<seq<NodeProxy>>, i: nat, key: NodeProxy -> int): (r: seq<seq<NodeProxy>>)
    ensures |r| == |c|
  {
    seq(|c|, j requires 0 <= j < |c| => if j < i then Canon(c[j], key) else c[j])
  }

  lemma CanonUpToStep(c: seq<seq<NodeProxy>>, i: nat, key: NodeProxy -> int)
    requires i < |c|
    ensures CanonUpTo(c, i, key)[i := Canon(c[i], key)] == CanonUpTo(c, i + 1, key)
    ensures CanonUpTo(c, 0, key) == c
  {
  }

  /** Replacing part `i` and counting it adds its length to the count of the parts before it. */
  lemma FlattenPrefixUpdate(c: seq<seq<NodeProxy>>, i: nat, x: seq<NodeProxy>)
    requires i < |c|
    ensures |Flatten(c[i := x][..i + 1])| == |Flatten(c[..i])| + |x|
  {
    FlattenStep(c[i := x], i);
    assert c[i := x][..i] == c[..i];
  }

  /** A new empty part at the insertion point of a new document keeps the invariant. */
  lemma InsertEmptyPartCoherent(docs: seq<int>, content: seq<seq<NodeProxy>>, size: int, sorted: bool, inDocOrder: bool, d: int)
    requires Coherent(docs, content, size, sorted, inDocOrder) && d !in docs
    ensures var k := InsertionPoint(docs, d);
      Coherent(docs[..k] + [d] + docs[k..], content[..k] + [[]] + content[k..], size, sorted, inDocOrder)
  {
    var k := InsertionPoint(docs, d);
    InsertedIncreasing(docs, d);
    PairedInsert(docs, content, k, d, []);
    OrderedInsert(content, k, [], sorted, inDocOrder);
    FlattenInsert(content, k, []);
  }

  /** Inserting a part that belongs to its document keeps every part paired with its document. */
  lemma PairedInsert(docs: seq<int>, content: seq<seq<NodeProxy>>, k: nat, d: int, c: seq<NodeProxy>)
    requires Paired(docs, content) && k <= |docs| && AllOfDoc(c, d)
    ensures Paired(docs[..k] + [d] + docs[k..], content[..k] + [c] + content[k..])
  {
    var docs', content' := docs[..k] + [d] + docs[k..], content[..k] + [c] + content[k..];
    forall i | 0 <= i < |docs'| ensures AllOfDoc(content'[i], docs'[i]) {
      if i < k {
        assert docs'[i] == docs[i] && content'[i] == content[i];
      } else if i > k {
        assert docs'[i] == docs[i - 1] && content'[i] == content[i - 1];
      }
    }
  }

  /** Inserting a part that keeps the flags' order keeps every part in that order. */
  lemma OrderedInsert(content: seq<seq<NodeProxy>>, k: nat, c: seq<NodeProxy>, sorted: bool, inDocOrder: bool)
    requires k <= |content| && Ordered(c, sorted, inDocOrder)
    requires forall i :: 0 <= i < |content| ==> Ordered(content[i], sorted, inDocOrder)
    ensures var content' := content[..k] + [c] + content[k..];
      forall i :: 0 <= i < |content'| ==> Ordered(content'[i], sorted, inDocOrder)
  {
    var content' := content[..k] + [c] + content[k..];
    forall i | 0 <= i < |content'| ensures Ordered(content'[i], sorted, inDocOrder) {
      if i < k {
        assert content'[i] == content[i];
      } else if i > k {
        assert content'[i] == content[i - 1];
      }
    }
  }

  /** A new document id at its insertion point keeps the ids strictly increasing. */
  lemma InsertedIncreasing(docs: seq<int>, d: int)
    requires StrictlyIncreasing(docs) && d !in docs
    ensures var k := InsertionPoint(docs, d); StrictlyIncreasing(docs[..k] + [d] + docs[k..])
  {
    var k := InsertionPoint(docs, d);
    InsertionPointSplits(docs, d);
    var docs' := docs[..k] + [d] + docs[k..];
    forall i, j | 0 <= i < j < |docs'| ensures docs'[i] < docs'[j] {
      if j < k {
        assert docs'[i] == docs[i] && docs'[j] == docs[j];
      } else if j == k {
        assert docs'[i] == docs[i];
      } else if i == k {
        assert docs'[j] == docs[j - 1];
      } else if i < k {
        assert docs'[i] == docs[i] && docs'[j] == docs[j - 1];
      } else {
        assert docs'[i] == docs[i - 1] && docs'[j] == docs[j - 1];
      }
    }
  }

  /** An addition (one more entry counted in `size`, both flags cleared) keeps the invariant. */
  lemma AddCoherent(docs: seq<int>, content: seq<seq<NodeProxy>>, size: int, sorted: bool, inDocOrder: bool, p: NodeProxy)
    requires Coherent(docs, content, size, sorted, inDocOrder)
    ensures Coherent(DocsAfterAdd(docs, p.docId), ContentAfterAdd(docs, content, p), size + 1, false, false)
  {
    AddKeepsShape(docs, content, p);
    if p.docId in docs {
      var i := IndexOf(docs, p.docId);
      FlattenUpdateLength(content, i, Appended(content[i], p));
    } else {
      FlattenInsert(content, InsertionPoint(docs, p.docId), [p]);
    }
  }

  /** Opening an empty part for a new document and appending to it is the addition of the entry. */
  lemma AddThroughEmptyPart(docs: seq<int>, content: seq<seq<NodeProxy>>, p: NodeProxy)
    requires |docs| == |content| && p.docId !in docs
    ensures var k := InsertionPoint(docs, p.docId);
      (content[..k] + [[]] + content[k..])[k := Appended([], p)] == ContentAfterAdd(docs, content, p)
  {
    var k := InsertionPoint(docs, p.docId);
    var c := content[..k] + [[]] + content[k..];
    assert Appended([], p) == [p];
    assert c[k := [p]] == content[..k] + [[p]] + content[k..];
  }

  // ---------------------------------------------------------------------------
  // The concatenation of all parts, in slot order
  // ---------------------------------------------------------------------------

  function Flatten(c: seq<seq<NodeProxy>>): seq<NodeProxy> {
    if c == [] then [] else Flatten(c[..|c| - 1]) + c[|c| - 1]
  }

  lemma {:induction false} FlattenConcat(a: seq<seq<NodeProxy>>, b: seq<seq<NodeProxy>>)
    ensures Flatten(a + b) == Flatten(a) + Flatten(b)
  {
    if b != [] {
      assert (a + b)[..|a + b| - 1] == a + b[..|b| - 1];
      FlattenConcat(a, b[..|b| - 1]);
    } else {
      assert a + b == a;
    }
  }

  /** Position `pos` of the concatenation lies in part `i` at offset `pos - count`, where `count` sums the earlier parts. */
  lemma FlattenIndex(c: seq<seq<NodeProxy>>, i: nat, pos: nat)
    requires i < |c|
    requires |Flatten(c[..i])| <= pos < |Flatten(c[..i])| + |c[i]|
    ensures pos < |Flatten(c)| && Flatten(c)[pos] == c[i][pos - |Flatten(c[..i])|]
  {
    assert c == c[..i + 1] + c[i + 1..];
    FlattenConcat(c[..i + 1], c[i + 1..]);
    assert c[..i + 1][..i] == c[..i];
  }

  lemma FlattenStep(c: seq<seq<NodeProxy>>, i: nat)
    requires i < |c|
    ensures |Flatten(c[..i + 1])| == |Flatten(c[..i])| + |c[i]|
  {
    assert c[..i + 1][..i] == c[..i];
  }

  lemma FlattenUpdateLength(c: seq<seq<NodeProxy>>, i: nat, s: seq<NodeProxy>)
    requires i < |c|
    ensures |Flatten(c[i := s])| == |Flatten(c)| - |c[i]| + |s|
  {
    assert c == c[..i] + [c[i]] + c[i + 1..];
    assert c[i := s] == c[..i] + [s] + c[i + 1..];
    FlattenConcat(c[..i] + [c[i]], c[i + 1..]);
    FlattenConcat(c[..i], [c[i]]);
    FlattenConcat(c[..i] + [s], c[i + 1..]);
    FlattenConcat(c[..i], [s]);
    assert Flatten([c[i]]) == c[i] by { assert [c[i]][..0] == []; }
    assert Flatten([s]) == s by { assert [s][..0] == []; }
  }

  /** A part inserted at any slot adds exactly its entries to the count. */
  lemma FlattenInsert(c: seq<seq<NodeProxy>>, k: nat, x: seq<NodeProxy>)
    requires k <= |c|
    ensures |Flatten(c[..k] + [x] + c[k..])| == |Flatten(c)| + |x|
  {
    assert c == c[..k] + c[k..];
    FlattenConcat(c[..k], c[k..]);
    FlattenConcat(c[..k] + [x], c[k..]);
    FlattenConcat(c[..k], [x]);
    assert Flatten([x]) == x by { assert [x][..0] == []; }
  }

  lemma FlattenAllEmpty(c: seq<seq<NodeProxy>>)
    requires forall i :: 0 <= i < |c| ==> c[i] == []
    ensures Flatten(c) == []
  {
  }

  // ---------------------------------------------------------------------------
  // Item types: ANY_TYPE until the first item, then its type, NODE once two types differ
  // ---------------------------------------------------------------------------

  /** Codes of the type hierarchy for the generic node type and for "no type seen yet". */
  const NODE: int := -1
  const ANY_TYPE: int := 12

  function ItemTypeJoin(current: int, t: int): int {
    if current == NODE || current == t then current
    else if current == ANY_TYPE then t
    else NODE
  }

  /** The item type after the types `types` were added, in order, to a fresh set. */
  function ItemTypeOf(types: seq<int>): int {
    if types == [] then ANY_TYPE
    else ItemTypeJoin(ItemTypeOf(types[..|types| - 1]), types[|types| - 1])
  }

  /** The recorded item type is the common type of all items, or NODE as soon as two differ. */
  lemma {:induction false} ItemTypeLattice(types: seq<int>)
    requires forall i :: 0 <= i < |types| ==> types[i] != ANY_TYPE
    ensures ItemTypeOf(types) ==
      if types == [] then ANY_TYPE
      else if forall i :: 0 <= i < |types| ==> types[i] == types[0] then types[0]
      else NODE
  {
    if |types| > 1 {
      var init := types[..|types| - 1];
      ItemTypeLattice(init);
      assert init[0] == types[0];
      if forall i :: 0 <= i < |init| ==> init[i] == init[0] {
      } else {
        var i :| 0 <= i < |init| && init[i] != init[0];
        assert types[i] != types[0];
      }
    }
  }

  // ---------------------------------------------------------------------------
  // The change counter: a Java int that wraps from MAX_VALUE to 0
  // ---------------------------------------------------------------------------

  const MAX_INT: int := 0x7fff_ffff

  function NextState(s: int): (r: int)
    requires 0 <= s <= MAX_INT
    ensures 0 <= r <= MAX_INT && r != s
  {
    if s == MAX_INT then 0 else s + 1
  }

  /** The counter after `n` changes starting from `s`. */
  function StateAfter(s: int, n: nat): (r: int)
    requires 0 <= s <= MAX_INT
    ensures 0 <= r <= MAX_INT
  {
    if n == 0 then s else NextState(StateAfter(s, n - 1))
  }

  lemma {:induction false} StateAfterWraps(s: int, n: nat)
    requires 0 <= s <= MAX_INT
    ensures StateAfter(s, n) == (s + n) % (MAX_INT + 1)
  {
    if n > 0 {
      StateAfterWraps(s, n - 1);
      ModSucc(s + n - 1);
    }
  }

  /** The successor's remainder modulo 2^31 wraps to 0 after MAX_INT. */
  lemma ModSucc(x: nat)
    ensures (x + 1) % (MAX_INT + 1) == if x % (MAX_INT + 1) == MAX_INT then 0 else x % (MAX_INT + 1) + 1
  {
  }

  /**
   * A holder of an earlier counter value sees no change exactly when the
   * number of changes since is a multiple of 2^31.
   */
  lemma ChangeDetection(s: int, n: nat)
    requires 0 <= s <= MAX_INT
    ensures StateAfter(s, n) == s <==> n % (MAX_INT + 1) == 0
  {
    StateAfterWraps(s, n);
    ModReturns(s, n);
  }

  /** Starting below 2^31, adding `n` comes back to the start modulo 2^31 exactly when `n` is a multiple of it. */
  lemma {:induction false} ModReturns(s: nat, n: nat)
    requires s <= MAX_INT
    ensures (s + n) % (MAX_INT + 1) == s <==> n % (MAX_INT + 1) == 0
    decreases n
  {
    if n > MAX_INT {
      ModReturns(s, n - (MAX_INT + 1));
    }
  }

  // ---------------------------------------------------------------------------
  // Growth of the backing arrays
  // ---------------------------------------------------------------------------

  /** The capacity the source computes when an array is full: `length << 1` (int overflow not modelled). */
  function DoubledAsWritten(length: nat): nat {
    length * 2
  }

  /** A full array of capacity 0 is "grown" to capacity 0, which has no slot for the entry being stored. */
  lemma DoublingFromZeroHasNoSlot()
    ensures DoubledAsWritten(0) == 0
  {
  }

  /** The corrected growth: double, but give an empty array one slot. */
  function NewCapacity(length: nat): (r: nat)
    ensures r > length
    ensures length > 0 ==> r == DoubledAsWritten(length)
  {
    if length == 0 then 1 else length * 2
  }

  // ---------------------------------------------------------------------------
  // Collapsing duplicates on an empty part
  // ---------------------------------------------------------------------------

  /**
   * The live entries after the source's removeDuplicates on a backing array `a`
   * whose first `length` slots are live: on an empty part the loop does not
   * run and the length becomes 1.
   */
  function RemoveDuplicatesAsWritten(a: seq<NodeProxy>, length: nat): seq<NodeProxy>
    requires 0 < |a| && length <= |a|
  {
    if length == 0 then a[..1] else Dedup(a[..length])
  }

  /** The part that held only `p` and had it removed reports `p` again after a sort pass. */
  lemma RemovedEntryReappears(p: NodeProxy)
    ensures RemoveDuplicatesAsWritten([p], 0) == [p]
  {
  }

  /** The corrected collapse leaves an empty part empty and never adds an entry. */
  lemma CollapseAddsNothing(s: seq<NodeProxy>)
    ensures |Dedup(s)| <= |s|
    ensures forall p :: p in Dedup(s) ==> p in s
  {
    DedupMembers(s);
  }

  // ---------------------------------------------------------------------------
  // Ancestor walk over the external node-id codec
  // ---------------------------------------------------------------------------

  /** The id range reserved for the children of a node, as the external codec reports it. */
  datatype ChildRange = ChildRange(start: int, end: int, distance: int)

  /** The external node-id codec of one document. */
  datatype TreeCodec = TreeCodec(parentId: (int, int) -> int, treeLevel: int -> int, childRange: int -> ChildRange)

  /** Parent ids are smaller than their children's ids, so the walk to the root ends. */
  ghost predicate ParentsPrecede(tc: TreeCodec) {
    forall g, level :: g > 0 ==> tc.parentId(g, level) < g
  }

  /** The ids visited when walking up from `gid`, one level per step, until an id is not positive. */
  function AncestorChain(tc: TreeCodec, gid: int, level: int): seq<int>
    requires ParentsPrecede(tc)
    decreases if gid > 0 then gid else 0
  {
    if gid <= 0 then []
    else
      var p := tc.parentId(gid, level);
      [p] + AncestorChain(tc, p, level - 1)
  }

  /** The ancestor ids the walk looks up from `gid` at `level`: only the parent when `directParent`. */
  function Walk(tc: TreeCodec, gid: int, directParent: bool, level: int): seq<int>
    requires ParentsPrecede(tc)
  {
    var chain := AncestorChain(tc, gid, level);
    if directParent && chain != [] then chain[..1] else chain
  }

  /** The ids parentWithChild looks up, in the order it looks them up; a negative level is asked of the codec. */
  function Candidates(tc: TreeCodec, gid: int, directParent: bool, includeSelf: bool, level: int): seq<int>
    requires ParentsPrecede(tc)
  {
    (if includeSelf then [gid] else []) + Walk(tc, gid, directParent, if level < 0 then tc.treeLevel(gid) else level)
  }

  /** The first id of `c` that belongs to `gids`. */
  function FirstIn(c: seq<int>, gids: set<int>): (r: Option<int>)
    ensures r.Some? ==> r.value in c && r.value in gids
    ensures r.None? ==> forall x :: x in c ==> x !in gids
  {
    if c == [] then None
    else if c[0] in gids then Some(c[0])
    else FirstIn(c[1..], gids)
  }

  /** Leading misses do not change the first hit. */
  lemma {:induction false} FirstInSkip(a: seq<int>, b: seq<int>, gids: set<int>)
    requires forall y :: y in a ==> y !in gids
    ensures FirstIn(a + b, gids) == FirstIn(b, gids)
  {
    if a == [] {
      assert a + b == b;
    } else {
      var h := a[0];
      assert h in a;
      assert h !in gids;
      FirstInSkip(a[1..], b, gids);
      assert (a + b)[0] == a[0];
      assert (a + b)[1..] == a[1..] + b;
    }
  }

  function GidOfOption(r: Option<NodeProxy>): Option<int> {
    if r.Some? then Some(r.value.gid) else None
  }
}
