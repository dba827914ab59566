/**
 * Node references and the per-document orderings used by the node set:
 * a NodeProxy names one node of one document by its tree-position id (gid).
 * The sort routines the source borrows from a utility class are modelled
 * here by a reference insertion sort on sequences, keyed by an integer key
 * (the gid itself, or a node's position in document order).
 */
module NodeProxies {

  /** One node: its document, its tree-position id, its storage address and its DOM node type. */
  datatype NodeProxy = NodeProxy(docId: int, gid: int, address: int, nodeType: int)

  /** The key of the "by node id" sort. */
  function GidOf(p: NodeProxy): int { p.gid }

  /**
   * The key of the document-order sort: `rank(doc, gid)` is the position of
   * node `gid` in the tree of document `doc`, so two documents may order the
   * same pair of gids differently.
   */
  function DocOrderKey(rank: (int, int) -> int): NodeProxy -> int {
    (p: NodeProxy) => rank(p.docId, p.gid)
  }

  /** Within each document, distinct nodes have distinct document-order positions. */
  ghost predicate Injective(rank: (int, int) -> int) {
    forall doc, a, b :: rank(doc, a) == rank(doc, b) ==> a == b
  }

  /** A sort key that puts two entries of document `doc` on the same key exactly when they share a gid. */
  ghost predicate SeparatesGids(key: NodeProxy -> int, doc: int) {
    forall x: NodeProxy, y: NodeProxy :: x.docId == doc && y.docId == doc ==> (key(x) == key(y) <==> x.gid == y.gid)
  }

  ghost predicate SortedBy(s: seq<NodeProxy>, key: NodeProxy -> int) {
    forall i, j :: 0 <= i < j < |s| ==> key(s[i]) <= key(s[j])
  }

  ghost predicate StrictlyIncreasingBy(s: seq<NodeProxy>, key: NodeProxy -> int) {
    forall i, j :: 0 <= i < j < |s| ==> key(s[i]) < key(s[j])
  }

  ghost predicate DistinctGids(s: seq<NodeProxy>) {
    forall i, j :: 0 <= i < j < |s| ==> s[i].gid != s[j].gid
  }

  /** All entries belong to document `doc`. */
  ghost predicate AllOfDoc(s: seq<NodeProxy>, doc: int) {
    forall p :: p in s ==> p.docId == doc
  }

  function Gids(s: seq<NodeProxy>): set<int> {
    set p | p in s :: p.gid
  }

  lemma GidKeySeparates(doc: int)
    ensures SeparatesGids(GidOf, doc)
  {
  }

  lemma DocOrderKeySeparates(rank: (int, int) -> int, doc: int)
    requires Injective(rank)
    ensures SeparatesGids(DocOrderKey(rank), doc)
  {
  }

  // ---------------------------------------------------------------------------
  // Reference sort (stands for the quicksort of the source)
  // ---------------------------------------------------------------------------

  /** Inserts `x` before the first entry whose key is not smaller. */
  function Insert(x: NodeProxy, s: seq<NodeProxy>, key: NodeProxy -> int): (r: seq<NodeProxy>)
    ensures multiset(r) == multiset(s) + multiset{x}
    ensures |r| == |s| + 1
  {
    if s == [] || key(x) <= key(s[0]) then [x] + s
    else
      assert s == [s[0]] + s[1..];
      [s[0]] + Insert(x, s[1..], key)
  }

  function SortBy(s: seq<NodeProxy>, key: NodeProxy -> int): (r: seq<NodeProxy>)
    ensures multiset(r) == multiset(s)
    ensures |r| == |s|
  {
    if s == [] then []
    else
      assert s == [s[0]] + s[1..];
      Insert(s[0], SortBy(s[1..], key), key)
  }

  lemma {:induction false} InsertSorted(x: NodeProxy, s: seq<NodeProxy>, key: NodeProxy -> int)
    requires SortedBy(s, key)
    ensures SortedBy(Insert(x, s, key), key)
  {
    if s == [] || key(x) <= key(s[0]) {
    } else {
      var t := s[1..];
      var rest := Insert(x, t, key);
      InsertSorted(x, t, key);
      InsertBounded(x, t, key, key(s[0]));
      var r := [s[0]] + rest;
      assert Insert(x, s, key) == r;
      forall i, j | 0 <= i < j < |r| ensures key(r[i]) <= key(r[j]) {
        assert r[j] == rest[j - 1] && r[j] in rest;
        if i > 0 {
          assert r[i] == rest[i - 1];
        }
      }
    }
  }

  /** A lower bound on the keys of `x` and of every entry of `s` bounds every entry after the insertion. */
  lemma InsertBounded(x: NodeProxy, s: seq<NodeProxy>, key: NodeProxy -> int, bound: int)
    requires bound <= key(x) && forall y :: y in s ==> bound <= key(y)
    ensures forall y :: y in Insert(x, s, key) ==> bound <= key(y)
  {
    forall y | y in Insert(x, s, key) ensures bound <= key(y) {
      assert y in multiset(Insert(x, s, key));
    }
  }

  /** The reference sort yields a sorted permutation of its input. */
  lemma {:induction false} SortBySorted(s: seq<NodeProxy>, key: NodeProxy -> int)
    ensures SortedBy(SortBy(s, key), key)
    ensures multiset(SortBy(s, key)) == multiset(s)
  {
    if s != [] {
      SortBySorted(s[1..], key);
      InsertSorted(s[0], SortBy(s[1..], key), key);
    }
  }

  // ---------------------------------------------------------------------------
  // Collapsing adjacent duplicates (the two-index loop of removeDuplicates)
  // ---------------------------------------------------------------------------

  /**
   * Keeps the first entry of every run of entries sharing a gid, comparing
   * each entry with the last one kept.
   */
  function Dedup(s: seq<NodeProxy>): (r: seq<NodeProxy>)
    ensures |r| <= |s|
    ensures |s| > 0 ==> |r| > 0 && r[0] == s[0] && r[|r| - 1].gid == s[|s| - 1].gid
  {
    if |s| <= 1 then s
    else
      var d := Dedup(s[..|s| - 1]);
      if s[|s| - 1].gid == d[|d| - 1].gid then d else d + [s[|s| - 1]]
  }

  /** One more input entry either repeats the last gid kept or is kept itself. */
  lemma DedupStep(s: seq<NodeProxy>, i: nat)
    requires 0 < i < |s|
    ensures var d := Dedup(s[..i]);
      Dedup(s[..i + 1]) == if s[i].gid == d[|d| - 1].gid then d else d + [s[i]]
  {
    assert s[..i + 1][..i] == s[..i];
  }

  /** The entries the collapsing pass has kept after looking at `s[..i]`, counted by index. */
  function DedupUpTo(s: seq<NodeProxy>, i: nat): (r: seq<NodeProxy>)
    requires 1 <= i <= |s|
    ensures 0 < |r| <= i
  {
    if i == 1 then [s[0]]
    else
      var d := DedupUpTo(s, i - 1);
      if s[i - 1].gid == d[|d| - 1].gid then d else d + [s[i - 1]]
  }

  lemma {:induction false} DedupUpToIsDedup(s: seq<NodeProxy>, i: nat)
    requires 1 <= i <= |s|
    ensures DedupUpTo(s, i) == Dedup(s[..i])
  {
    if i > 1 {
      DedupUpToIsDedup(s, i - 1);
      DedupStep(s, i - 1);
    }
  }

  /** Collapsing keeps only entries of the input and loses no gid. */
  lemma {:induction false} DedupMembers(s: seq<NodeProxy>)
    ensures forall p :: p in Dedup(s) ==> p in s
    ensures Gids(Dedup(s)) == Gids(s)
  {
    if |s| > 1 {
      var init := s[..|s| - 1];
      DedupMembers(init);
      assert s == init + [s[|s| - 1]];
      var d := Dedup(init);
      forall g | g in Gids(s) ensures g in Gids(Dedup(s)) {
        var p :| p in s && p.gid == g;
        if p in init {
          assert g in Gids(init);
        } else {
          assert p == s[|s| - 1];
          assert d[|d| - 1] in d;
        }
      }
    }
  }

  /** On a sequence sorted by a key that separates gids, collapsing leaves it strictly increasing. */
  lemma {:induction false} DedupStrict(s: seq<NodeProxy>, key: NodeProxy -> int, doc: int)
    requires SortedBy(s, key) && AllOfDoc(s, doc) && SeparatesGids(key, doc)
    ensures StrictlyIncreasingBy(Dedup(s), key)
  {
    if |s| > 1 {
      var init := s[..|s| - 1];
      var last := s[|s| - 1];
      DedupStrict(init, key, doc);
      DedupMembers(init);
      var d := Dedup(init);
      if last.gid != d[|d| - 1].gid {
        assert key(d[|d| - 1]) == key(init[|init| - 1]);
        assert key(d[|d| - 1]) < key(last);
        var r := d + [last];
        forall i, j | 0 <= i < j < |r| ensures key(r[i]) < key(r[j]) {
          if j == |r| - 1 && i < |d| - 1 {
            assert key(d[i]) < key(d[|d| - 1]);
          }
        }
      }
    }
  }

  lemma StrictIsDistinct(s: seq<NodeProxy>, key: NodeProxy -> int, doc: int)
    requires StrictlyIncreasingBy(s, key) && AllOfDoc(s, doc) && SeparatesGids(key, doc)
    ensures DistinctGids(s)
  {
  }

  lemma {:induction false} DistinctGidsCount(s: seq<NodeProxy>)
    requires DistinctGids(s)
    ensures |Gids(s)| == |s|
  {
    if s != [] {
      var init := s[..|s| - 1];
      DistinctGidsCount(init);
      assert s == init + [s[|s| - 1]];
      assert Gids(s) == Gids(init) + {s[|s| - 1].gid};
      assert s[|s| - 1].gid !in Gids(init);
    }
  }

  /** Sort then collapse duplicates: what one sort pass leaves in a part. */
  function Canon(s: seq<NodeProxy>, key: NodeProxy -> int): seq<NodeProxy> {
    Dedup(SortBy(s, key))
  }

  /**
   * A sort pass leaves a part strictly increasing by its key, holding one
   * entry of the input per distinct gid and nothing else.
   */
  lemma CanonProperties(s: seq<NodeProxy>, key: NodeProxy -> int, doc: int)
    requires AllOfDoc(s, doc) && SeparatesGids(key, doc)
    ensures StrictlyIncreasingBy(Canon(s, key), key)
    ensures DistinctGids(Canon(s, key))
    ensures forall p :: p in Canon(s, key) ==> p in s
    ensures Gids(Canon(s, key)) == Gids(s)
    ensures |Canon(s, key)| == |Gids(s)|
  {
    var t := SortBy(s, key);
    SortBySorted(s, key);
    forall p | p in t ensures p in s && p.docId == doc {
      assert p in multiset(t);
    }
    DedupStrict(t, key, doc);
    DedupMembers(t);
    StrictIsDistinct(Canon(s, key), key, doc);
    DistinctGidsCount(Canon(s, key));
    forall p | p in s ensures p in t {
      assert p in multiset(s);
    }
    assert Gids(t) == Gids(s);
  }
}
