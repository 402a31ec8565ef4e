/** The end of every dump parser: a stable sort by start address, then an overlap
    check of neighbours only. */
module SegmentOrder {
  import opened Words
  import opened VmiTypes
  import opened Segments
  import opened Snapshot

  /** `sort_by_key(|segment| segment.range.start)`, a stable sort. */
  function SortByStart(segments: seq<Segment>): (sorted: seq<Segment>)
    ensures SortedByStart(sorted) && multiset(sorted) == multiset(segments)
  {
    if segments == [] then []
    else
      assert segments == [segments[0]] + segments[1..];
      InsertByStart(segments[0], SortByStart(segments[1..]))
  }

  function InsertByStart(s: Segment, sorted: seq<Segment>): (r: seq<Segment>)
    requires SortedByStart(sorted)
    ensures SortedByStart(r) && multiset(r) == multiset{s} + multiset(sorted)
    ensures |r| == |sorted| + 1
  {
    if sorted == [] || s.start <= sorted[0].start then [s] + sorted
    else
      assert sorted == [sorted[0]] + sorted[1..];
      var rest := InsertByStart(s, sorted[1..]);
      InsertedAfter(s, sorted[0], sorted[1..], rest);
      [sorted[0]] + rest
  }

  lemma InsertedAfter(s: Segment, head: Segment, tail: seq<Segment>, rest: seq<Segment>)
    requires SortedByStart([head] + tail) && head.start <= s.start
    requires SortedByStart(rest) && multiset(rest) == multiset{s} + multiset(tail)
    ensures SortedByStart([head] + rest)
  {
    forall i | 0 <= i < |rest| ensures head.start <= rest[i].start {
      assert rest[i] in multiset(rest);
      if rest[i] != s {
        var j :| 0 <= j < |tail| && tail[j] == rest[i];
        var all := [head] + tail;
        assert all[0].start <= all[j + 1].start;
      }
    }
  }

  /** The segments that start at `x`, as they are listed. */
  function StartingAt(segments: seq<Segment>, x: nat): seq<Segment> {
    if segments == [] then [] else (if segments[0].start == x then [segments[0]] else []) + StartingAt(segments[1..], x)
  }

  lemma {:induction false} InsertStable(s: Segment, sorted: seq<Segment>, x: nat)
    requires SortedByStart(sorted)
    ensures StartingAt(InsertByStart(s, sorted), x) == StartingAt([s] + sorted, x)
  {
    assert ([s] + sorted)[1..] == sorted;
    if sorted != [] && sorted[0].start < s.start {
      var head, tail := sorted[0], sorted[1..];
      InsertStable(s, tail, x);
      assert ([head] + InsertByStart(s, tail))[1..] == InsertByStart(s, tail);
      assert ([s] + tail)[1..] == tail;
    }
  }

  /** The sort is stable: segments of one start keep their order, on which it depends
      what the check of neighbours sees when some are empty. */
  lemma {:induction false} SortStable(segments: seq<Segment>, x: nat)
    ensures StartingAt(SortByStart(segments), x) == StartingAt(segments, x)
  {
    if segments != [] {
      SortStable(segments[1..], x);
      InsertStable(segments[0], SortByStart(segments[1..]), x);
      assert ([segments[0]] + SortByStart(segments[1..]))[1..] == SortByStart(segments[1..]);
    }
  }

  predicate NonEmpty(segments: seq<Segment>) {
    forall i | 0 <= i < |segments| :: |segments[i].data| > 0
  }

  predicate NeighboursDisjoint(segments: seq<Segment>) {
    forall i | 0 <= i < |segments| - 1 :: !segments[i].Overlaps(segments[i + 1])
  }

  /** On a sorted list of non-empty segments the check of neighbours decides
      pairwise disjointness. */
  lemma NeighboursDecide(segments: seq<Segment>)
    requires SortedByStart(segments) && NonEmpty(segments)
    ensures NeighboursDisjoint(segments) <==> PairwiseDisjoint(segments)
  {
    if NeighboursDisjoint(segments) {
      forall i, j | 0 <= i < j < |segments| ensures segments[i].End() <= segments[j].start {
        assert !segments[i].Overlaps(segments[i + 1]);
        assert segments[i + 1].start <= segments[j].start;
      }
    } else {
      var i :| 0 <= i < |segments| - 1 && segments[i].Overlaps(segments[i + 1]);
      assert !PairwiseDisjoint(segments) by { assert segments[i].Overlaps(segments[i + 1]); }
    }
  }

  /** With empty segments it does not: ELF program headers of memory size zero
      can stand between two overlapping neighbours. */
  lemma EmptySegmentHidesOverlap(a: byte)
    ensures var segments := [Segment(0, [a, a, a, a, a, a]), Segment(0, []), Segment(5, [a, a, a])];
      && SortedByStart(segments) && NeighboursDisjoint(segments) && !PairwiseDisjoint(segments)
  {
    var segments := [Segment(0, [a, a, a, a, a, a]), Segment(0, []), Segment(5, [a, a, a])];
    assert segments[0].Overlaps(segments[2]);
  }

  // ---------- sorting does not change what is disjoint or what is stored ----------

  predicate Apart(s: Segment, segments: seq<Segment>) {
    forall i | 0 <= i < |segments| :: !s.Overlaps(segments[i])
  }

  lemma DisjointCons(s: Segment, segments: seq<Segment>)
    ensures PairwiseDisjoint([s] + segments) <==> Apart(s, segments) && PairwiseDisjoint(segments)
  {
    var all := [s] + segments;
    assert forall i | 0 <= i < |segments| :: all[i + 1] == segments[i];
    if PairwiseDisjoint(all) {
      forall i | 0 <= i < |segments| ensures !s.Overlaps(segments[i]) { assert !all[0].Overlaps(all[i + 1]); }
      forall i, j | 0 <= i < j < |segments| ensures !segments[i].Overlaps(segments[j]) {
        assert !all[i + 1].Overlaps(all[j + 1]);
      }
    }
    if Apart(s, segments) && PairwiseDisjoint(segments) {
      forall i, j | 0 <= i < j < |all| ensures !all[i].Overlaps(all[j]) {
        if i > 0 { assert !segments[i - 1].Overlaps(segments[j - 1]); }
      }
    }
  }

  lemma ApartCons(s: Segment, head: Segment, tail: seq<Segment>)
    ensures Apart(s, [head] + tail) <==> !s.Overlaps(head) && Apart(s, tail)
  {
    var all := [head] + tail;
    assert all[0] == head && forall i | 0 <= i < |tail| :: all[i + 1] == tail[i];
    if Apart(s, all) {
      forall i | 0 <= i < |tail| ensures !s.Overlaps(tail[i]) { assert !s.Overlaps(all[i + 1]); }
    }
  }

  lemma ApartPermuted(s: Segment, a: seq<Segment>, b: seq<Segment>)
    requires multiset(a) == multiset(b)
    ensures Apart(s, a) <==> Apart(s, b)
  {
    assert forall x :: x in a <==> x in multiset(a);
    assert forall x :: x in b <==> x in multiset(b);
    assert Apart(s, a) <==> forall x | x in a :: !s.Overlaps(x);
    assert Apart(s, b) <==> forall x | x in b :: !s.Overlaps(x);
  }

  lemma {:induction false} InsertDisjoint(s: Segment, sorted: seq<Segment>)
    requires SortedByStart(sorted)
    ensures PairwiseDisjoint(InsertByStart(s, sorted)) <==> Apart(s, sorted) && PairwiseDisjoint(sorted)
  {
    hide PairwiseDisjoint, Apart;
    if sorted == [] || s.start <= sorted[0].start {
      DisjointCons(s, sorted);
    } else {
      var head, tail := sorted[0], sorted[1..];
      assert sorted == [head] + tail;
      var rest := InsertByStart(s, tail);
      InsertDisjoint(s, tail);
      DisjointCons(head, rest);
      DisjointCons(head, tail);
      ApartPermuted(head, rest, [s] + tail);
      ApartCons(head, s, tail);
      ApartCons(s, head, tail);
    }
  }

  lemma {:induction false} SortDisjoint(segments: seq<Segment>)
    ensures PairwiseDisjoint(SortByStart(segments)) <==> PairwiseDisjoint(segments)
  {
    if segments != [] {
      var s, tail := segments[0], segments[1..];
      assert segments == [s] + tail;
      SortDisjoint(tail);
      InsertDisjoint(s, SortByStart(tail));
      DisjointCons(s, tail);
      ApartPermuted(s, SortByStart(tail), tail);
    }
  }

  /** No address belongs to two segments. */
  ghost predicate OneOwner(segments: seq<Segment>) {
    forall i, j, a: nat | 0 <= i < j < |segments| && segments[i].Covers(a) :: !segments[j].Covers(a)
  }

  /** Where no address has two owners the order of a list does not matter, empty
      segments or not. */
  lemma OwnersContents(a: seq<Segment>, b: seq<Segment>)
    requires multiset(a) == multiset(b) && OneOwner(a)
    ensures Contents(a) == Contents(b)
  {
    assert forall x :: x in a <==> x in multiset(a);
    assert forall x :: x in b <==> x in multiset(b);
    forall p: nat
      ensures Covered(a, p) <==> Covered(b, p)
      ensures Covered(a, p) ==> FirstByte(a, p) == FirstByte(b, p)
    {
      if Covered(a, p) {
        var i := FirstCover(a, p);
        assert a[i] in b;
      }
      if Covered(b, p) {
        var j := FirstCover(b, p);
        assert b[j] in a;
        var k :| 0 <= k < |a| && a[k] == b[j];
        assert a[k].Covers(p);
        var i := FirstCover(a, p);
        assert i == k;
      }
    }
  }

  lemma DisjointOwners(segments: seq<Segment>)
    requires PairwiseDisjoint(segments)
    ensures OneOwner(segments)
  {
    forall i, j, a: nat | 0 <= i < j < |segments| && segments[i].Covers(a) ensures !segments[j].Covers(a) {
      assert !segments[i].Overlaps(segments[j]);
    }
  }

  lemma FirstCover(segments: seq<Segment>, p: nat) returns (i: nat)
    requires Covered(segments, p)
    ensures i < |segments| && segments[i].Covers(p)
    ensures FirstByte(segments, p) == segments[i].data[p - segments[i].start]
    ensures forall j | 0 <= j < i :: !segments[j].Covers(p)
  {
    i := 0;
    while !segments[i].Covers(p)
      invariant i < |segments|
      invariant forall j | 0 <= j < i :: !segments[j].Covers(p)
      decreases |segments| - i
    {
      i := i + 1;
    }
    FirstByteAt(segments, p, i);
  }

  /** Sorting disjoint segments does not change a single byte of memory. */
  lemma SortedContents(segments: seq<Segment>)
    requires PairwiseDisjoint(segments)
    ensures Contents(SortByStart(segments)) == Contents(segments)
  {
    DisjointOwners(segments);
    OwnersContents(segments, SortByStart(segments));
  }

  /** The sort and check that end every parser. */
  ghost function Assembled(segments: seq<Segment>, message: string): Result<SnapshotBundle> {
    if NeighboursDisjoint(SortByStart(segments)) then Ok(SnapshotBundle(SortByStart(segments)))
    else Err(Backend(message))
  }

  method Assemble(segments: seq<Segment>, message: string) returns (r: Result<SnapshotBundle>)
    ensures r == Assembled(segments, message)
    ensures r.Ok? ==> r.value.Valid()
  {
    var sorted := SortByStart(segments);
    var i := 0;
    while i + 1 < |sorted|
      invariant 0 <= i && (i == 0 || i < |sorted|)
      invariant forall j | 0 <= j < i :: !sorted[j].Overlaps(sorted[j + 1])
    {
      if sorted[i].Overlaps(sorted[i + 1]) { return Err(Backend(message)); }
      i := i + 1;
    }
    return Ok(SnapshotBundle(sorted));
  }

  lemma SortNonEmpty(segments: seq<Segment>)
    requires NonEmpty(segments)
    ensures NonEmpty(SortByStart(segments))
  {
    var sorted := SortByStart(segments);
    forall i | 0 <= i < |sorted| ensures |sorted[i].data| > 0 {
      assert sorted[i] in multiset(sorted);
      assert sorted[i] in segments;
    }
  }

  /** A list of non-empty segments is accepted exactly when it is pairwise
      disjoint, in whatever order it is listed, and then reads as it was listed. */
  lemma AssembledMeaning(segments: seq<Segment>, message: string)
    requires NonEmpty(segments)
    ensures Assembled(segments, message).Ok? <==> PairwiseDisjoint(segments)
    ensures Assembled(segments, message).Ok? ==>
      Assembled(segments, message).value.View().bytes == Contents(segments)
  {
    SortNonEmpty(segments);
    NeighboursDecide(SortByStart(segments));
    SortDisjoint(segments);
    if PairwiseDisjoint(segments) { SortedContents(segments); }
  }
}
