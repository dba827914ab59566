/**
 * The posting records of the value index, as field sequences: a record is a
 * sequence of segments, one per flush of one document, and a segment lists
 * the document id, the entry count and, per entry in gid order, the gap to
 * the previous gid (the first gap measured from 0) and the storage address.
 * The variable-byte layout of the fields is not modelled.
 */
module Postings {
  import opened NodeProxies

  /** One indexed occurrence: the node's gid and its storage address. */
  datatype Posting = Posting(gid: int, address: int)

  /** One encoded entry: the gap to the previous gid and the storage address. */
  datatype Pair = Pair(delta: int, address: int)

  /** The segment one document contributes to a record: its id, its entry count and its entries. */
  datatype Segment = Segment(docId: int, count: int, pairs: seq<Pair>)

  /** The occurrences the entries of `s` stand for, in the same order. */
  function PostingsOf(s: seq<NodeProxy>): (r: seq<Posting>)
    ensures |r| == |s|
  {
    seq(|s|, i requires 0 <= i < |s| => Posting(s[i].gid, s[i].address))
  }

  /** Gap encoding: every gid as its difference from the gid before it, the first one from `prev`. */
  function Deltas(e: seq<Posting>, prev: int): (r: seq<Pair>)
    ensures |r| == |e|
  {
    seq(|e|, i requires 0 <= i < |e| => Pair(e[i].gid - (if i == 0 then prev else e[i - 1].gid), e[i].address))
  }

  /** Gap decoding: the running sum of the gaps, starting from `prev`, gives back the gids. */
  function PrefixSums(d: seq<Pair>, prev: int): (r: seq<Posting>)
    ensures |r| == |d|
  {
    if d == [] then []
    else [Posting(prev + d[0].delta, d[0].address)] + PrefixSums(d[1..], prev + d[0].delta)
  }

  /** The occurrences a segment lists, its gaps summed from 0. */
  function Decode(seg: Segment): seq<Posting> {
    PrefixSums(seg.pairs, 0)
  }

  /** The segment flush writes for the buffered list of one value: the entries sorted by gid, then gap-encoded. */
  function SegmentFor(docId: int, list: seq<NodeProxy>): Segment {
    var sorted := SortBy(list, GidOf);
    Segment(docId, |sorted|, Deltas(PostingsOf(sorted), 0))
  }

  /** Decoding undoes the gap encoding. */
  lemma {:induction false} DecodeDeltas(e: seq<Posting>, prev: int)
    ensures PrefixSums(Deltas(e, prev), prev) == e
  {
    if e != [] {
      var d := Deltas(e, prev);
      assert d[1..] == Deltas(e[1..], e[0].gid);
      DecodeDeltas(e[1..], e[0].gid);
      assert e == [e[0]] + e[1..];
    }
  }

  /** Encoding undoes the decoding: any gap sequence is the encoding of its running sums. */
  lemma {:induction false} DeltasOfSums(d: seq<Pair>, prev: int)
    ensures Deltas(PrefixSums(d, prev), prev) == d
  {
    if d != [] {
      var next := prev + d[0].delta;
      var p := PrefixSums(d, prev);
      DeltasOfSums(d[1..], next);
      assert p[1..] == PrefixSums(d[1..], next);
      var r := Deltas(p, prev);
      forall i | 0 <= i < |d|
        ensures r[i] == d[i]
      {
        if i > 0 {
          assert p[i] == p[1..][i - 1];
          assert Deltas(p[1..], next)[i - 1] == d[1..][i - 1];
          if i > 1 {
            assert p[i - 1] == p[1..][i - 2];
          }
        }
      }
    }
  }

  /** The segment of a flush decodes to the buffered occurrences in gid order. */
  lemma SegmentRoundTrip(docId: int, list: seq<NodeProxy>)
    ensures Decode(SegmentFor(docId, list)) == PostingsOf(SortBy(list, GidOf))
    ensures SegmentFor(docId, list).count == |list| == |SegmentFor(docId, list).pairs|
  {
    var sorted := SortBy(list, GidOf);
    assert |multiset(sorted)| == |multiset(list)|;
    DecodeDeltas(PostingsOf(sorted), 0);
  }

  /** Within the buffered list of one value, entries that share a gid are the same entry (one node, one address). */
  ghost predicate GidDetermines(s: seq<NodeProxy>) {
    forall x, y :: x in s && y in s && x.gid == y.gid ==> x == y
  }

  /** Two gid-sorted arrangements of the same entries are the same sequence. */
  lemma {:induction false} SortedUnique(s: seq<NodeProxy>, t: seq<NodeProxy>)
    requires multiset(s) == multiset(t) && GidDetermines(s)
    requires SortedBy(s, GidOf) && SortedBy(t, GidOf)
    ensures s == t
  {
    if s == [] {
      assert |multiset(t)| == 0;
    } else {
      assert |multiset(t)| == |multiset(s)|;
      SameHead(s, t);
      SameTail(s, t);
      SortedUnique(s[1..], t[1..]);
      assert s == [s[0]] + s[1..] && t == [t[0]] + t[1..];
    }
  }

  /** Taking the same first entry off two arrangements of the same entries leaves arrangements of the same entries. */
  lemma SameTail(s: seq<NodeProxy>, t: seq<NodeProxy>)
    requires s != [] && t != [] && s[0] == t[0] && multiset(s) == multiset(t) && GidDetermines(s)
    ensures multiset(s[1..]) == multiset(t[1..]) && GidDetermines(s[1..])
  {
    assert s == [s[0]] + s[1..] && t == [t[0]] + t[1..];
    assert multiset(s[1..]) == multiset(s) - multiset{s[0]};
    assert multiset(t[1..]) == multiset(t) - multiset{t[0]};
    forall x, y | x in s[1..] && y in s[1..] && x.gid == y.gid ensures x == y {
      assert x in s && y in s;
    }
  }

  /** Two non-empty gid-sorted arrangements of the same entries start with the same entry. */
  lemma SameHead(s: seq<NodeProxy>, t: seq<NodeProxy>)
    requires s != [] && t != [] && multiset(s) == multiset(t) && GidDetermines(s)
    requires SortedBy(s, GidOf) && SortedBy(t, GidOf)
    ensures s[0] == t[0]
  {
    assert t[0] in multiset(s) && s[0] in multiset(t);
    var k :| 0 <= k < |s| && s[k] == t[0];
    var m :| 0 <= m < |t| && t[m] == s[0];
    assert GidOf(s[0]) <= GidOf(s[k]);
    assert GidOf(t[0]) <= GidOf(t[m]);
  }

  /**
   * The order in which the occurrences of a value were buffered does not
   * change the segment flush writes for them.
   */
  lemma BufferOrderIrrelevant(docId: int, a: seq<NodeProxy>, b: seq<NodeProxy>)
    requires multiset(a) == multiset(b) && GidDetermines(a)
    ensures SegmentFor(docId, a) == SegmentFor(docId, b)
  {
    var sa, sb := SortBy(a, GidOf), SortBy(b, GidOf);
    SortBySorted(a, GidOf);
    SortBySorted(b, GidOf);
    forall x, y | x in sa && y in sa && x.gid == y.gid ensures x == y {
      assert x in multiset(a) && y in multiset(a);
    }
    SortedUnique(sa, sb);
  }

  /**
   * The gap encoding loop of flush over a list already sorted by gid: the
   * count, then per entry its gap to the previous gid (0 before the first)
   * and its address.
   */
  method EncodeSegment(docId: int, sorted: seq<NodeProxy>) returns (seg: Segment)
    ensures seg == Segment(docId, |sorted|, Deltas(PostingsOf(sorted), 0))
    ensures Decode(seg) == PostingsOf(sorted)
  {
    var len := |sorted|;
    var pairs: seq<Pair> := [];
    var prevId := 0;
    var j := 0;
    ghost var e := PostingsOf(sorted);
    while j < len
      invariant j <= len && |pairs| == j
      invariant prevId == if j == 0 then 0 else sorted[j - 1].gid
      invariant forall i :: 0 <= i < j ==> pairs[i] == Deltas(e, 0)[i]
    {
      var proxy := sorted[j];
      var cid := proxy.gid - prevId;
      prevId := proxy.gid;
      pairs := pairs + [Pair(cid, proxy.address)];
      j := j + 1;
    }
    seg := Segment(docId, len, pairs);
    DecodeDeltas(e, 0);
  }

  // ---------------------------------------------------------------------------
  // Records and the document drop
  // ---------------------------------------------------------------------------

  /** The segments of `segs` that do not belong to document `target`, in their order. */
  function Kept(segs: seq<Segment>, target: int): (r: seq<Segment>)
    ensures |r| <= |segs|
  {
    if segs == [] then []
    else (if segs[0].docId == target then [] else [segs[0]]) + Kept(segs[1..], target)
  }

  /** The segments of `segs` that belong to document `doc`, in their order. */
  function Only(segs: seq<Segment>, doc: int): seq<Segment> {
    if segs == [] then []
    else (if segs[0].docId == doc then [segs[0]] else []) + Only(segs[1..], doc)
  }

  /** Some segment of `segs` belongs to document `target`. */
  predicate Mentions(segs: seq<Segment>, target: int) {
    exists i :: 0 <= i < |segs| && segs[i].docId == target
  }

  /** Dropping a document keeps exactly the segments of the other documents. */
  lemma {:induction false} KeptMembers(segs: seq<Segment>, target: int)
    ensures forall s :: s in Kept(segs, target) <==> s in segs && s.docId != target
  {
    if segs != [] {
      KeptMembers(segs[1..], target);
      assert segs == [segs[0]] + segs[1..];
    }
  }

  /** Dropping a document leaves the segments of every other document as they were, in their order. */
  lemma {:induction false} KeptOthers(segs: seq<Segment>, target: int, doc: int)
    requires doc != target
    ensures Only(Kept(segs, target), doc) == Only(segs, doc)
  {
    if segs != [] {
      KeptOthers(segs[1..], target, doc);
      var head := if segs[0].docId == target then [] else [segs[0]];
      OnlyConcat(head, Kept(segs[1..], target), doc);
      if head != [] {
        assert head[1..] == [];
      }
    }
  }

  lemma {:induction false} OnlyConcat(a: seq<Segment>, b: seq<Segment>, doc: int)
    ensures Only(a + b, doc) == Only(a, doc) + Only(b, doc)
  {
    if a != [] {
      OnlyConcat(a[1..], b, doc);
      assert (a + b)[1..] == a[1..] + b;
    } else {
      assert a + b == b;
    }
  }

  /** Nothing of the dropped document is left. */
  lemma {:induction false} KeptDropsAll(segs: seq<Segment>, target: int)
    ensures !Mentions(Kept(segs, target), target) && Only(Kept(segs, target), target) == []
  {
    KeptMembers(segs, target);
    OnlyNone(Kept(segs, target), target);
  }

  lemma {:induction false} OnlyNone(segs: seq<Segment>, doc: int)
    requires forall s :: s in segs ==> s.docId != doc
    ensures Only(segs, doc) == []
  {
    if segs != [] {
      assert segs[0] in segs;
      OnlyNone(segs[1..], doc);
    }
  }

  /** A record that does not mention the document is left as it is. */
  lemma {:induction false} KeptIdentity(segs: seq<Segment>, target: int)
    requires !Mentions(segs, target)
    ensures Kept(segs, target) == segs
  {
    if segs != [] {
      assert segs[0].docId != target;
      assert !Mentions(segs[1..], target) by {
        forall i | 0 <= i < |segs[1..]| ensures segs[1..][i].docId != target {
          assert segs[1..][i] == segs[i + 1];
        }
      }
      KeptIdentity(segs[1..], target);
      assert segs == [segs[0]] + segs[1..];
    }
  }

  /** Dropping the same document twice is dropping it once. */
  lemma KeptIdempotent(segs: seq<Segment>, target: int)
    ensures Kept(Kept(segs, target), target) == Kept(segs, target)
  {
    KeptMembers(segs, target);
    var k := Kept(segs, target);
    assert !Mentions(k, target) by {
      forall i | 0 <= i < |k| ensures k[i].docId != target {
        assert k[i] in k;
      }
    }
    KeptIdentity(k, target);
  }
}
