/** Lists that may hold empty segments: when a check of neighbours decides that no
    address has two owners, in ELF dumps, where it need not, and in
    `validate_segments` of vmi-testkit, where it does. */
module SegmentOwners {
  import opened Words
  import opened VmiTypes
  import opened Segments
  import opened SegmentOrder

  function WithoutEmpty(segments: seq<Segment>): seq<Segment> {
    if segments == [] then []
    else (if segments[0].data == [] then [] else [segments[0]]) + WithoutEmpty(segments[1..])
  }

  predicate InAddressSpace(segments: seq<Segment>) {
    forall i | 0 <= i < |segments| :: segments[i].data != [] ==> segments[i].End() <= U64_LIMIT
  }

  lemma {:induction false} WithoutEmptyMembers(segments: seq<Segment>, s: Segment)
    ensures s in WithoutEmpty(segments) <==> s in segments && s.data != []
  {
    if segments != [] {
      WithoutEmptyMembers(segments[1..], s);
      assert segments == [segments[0]] + segments[1..];
    }
  }

  lemma OneOwnerCons(s: Segment, segments: seq<Segment>)
    ensures OneOwner([s] + segments) <==>
      OneOwner(segments) && forall x, a: nat | x in segments && s.Covers(a) :: !x.Covers(a)
  {
    var all := [s] + segments;
    assert forall i | 0 <= i < |segments| :: all[i + 1] == segments[i];
    if OneOwner(all) {
      forall x, a: nat | x in segments && s.Covers(a) ensures !x.Covers(a) {
        var j :| 0 <= j < |segments| && segments[j] == x;
        assert all[0].Covers(a) && all[j + 1] == x;
      }
      forall i, j, a: nat | 0 <= i < j < |segments| && segments[i].Covers(a) ensures !segments[j].Covers(a) {
        assert all[i + 1].Covers(a);
      }
    }
    if OneOwner(segments) && forall x, a: nat | x in segments && s.Covers(a) :: !x.Covers(a) {
      forall i, j, a: nat | 0 <= i < j < |all| && all[i].Covers(a) ensures !all[j].Covers(a) {
        if i > 0 { assert segments[i - 1].Covers(a); }
      }
    }
  }

  /** Empty segments own nothing: leaving them out changes no owner. */
  lemma {:induction false} OwnersWithoutEmpty(segments: seq<Segment>)
    ensures OneOwner(segments) <==> OneOwner(WithoutEmpty(segments))
  {
    if segments != [] {
      var s, rest := segments[0], segments[1..];
      assert segments == [s] + rest;
      OwnersWithoutEmpty(rest);
      OneOwnerCons(s, rest);
      OneOwnerCons(s, WithoutEmpty(rest));
      forall x { WithoutEmptyMembers(rest, x); }
      if s.data == [] { assert WithoutEmpty(segments) == WithoutEmpty(rest); }
    }
  }

  lemma DisjointIsOneOwner(segments: seq<Segment>)
    requires NonEmpty(segments)
    ensures PairwiseDisjoint(segments) <==> OneOwner(segments)
  {
    if OneOwner(segments) {
      forall i, j | 0 <= i < j < |segments| ensures !segments[i].Overlaps(segments[j]) {
        var a := if segments[i].start <= segments[j].start then segments[j].start else segments[i].start;
        if segments[i].Overlaps(segments[j]) {
          assert segments[i].Covers(a) && segments[j].Covers(a);
        }
      }
    }
    if PairwiseDisjoint(segments) { DisjointOwners(segments); }
  }

  lemma {:induction false} InsertOwners(s: Segment, sorted: seq<Segment>)
    requires SortedByStart(sorted)
    ensures OneOwner(InsertByStart(s, sorted)) <==> OneOwner([s] + sorted)
  {
    if sorted != [] && s.start > sorted[0].start {
      var head, tail := sorted[0], sorted[1..];
      assert sorted == [head] + tail;
      var rest := InsertByStart(s, tail);
      InsertOwners(s, tail);
      OneOwnerCons(head, rest);
      OneOwnerCons(s, sorted);
      OneOwnerCons(s, tail);
      OneOwnerCons(head, tail);
      assert forall x :: x in rest <==> x in multiset(rest);
      assert forall x :: x in rest <==> x == s || x in tail;
    }
  }

  /** Sorting does not change who owns what. */
  lemma {:induction false} SortOwners(segments: seq<Segment>)
    ensures OneOwner(SortByStart(segments)) <==> OneOwner(segments)
  {
    hide OneOwner;
    if segments != [] {
      var s, tail := segments[0], segments[1..];
      var sorted := SortByStart(tail);
      assert segments == [s] + tail;
      SortOwners(tail);
      InsertOwners(s, sorted);
      OneOwnerCons(s, sorted);
      OneOwnerCons(s, tail);
      assert forall x :: x in sorted <==> x in multiset(sorted);
      assert forall x :: x in tail <==> x in multiset(tail);
    }
  }

  lemma {:induction false} SortedWithoutEmpty(segments: seq<Segment>)
    requires SortedByStart(segments)
    ensures SortedByStart(WithoutEmpty(segments))
  {
    if segments != [] {
      var s, rest := segments[0], segments[1..];
      SortedWithoutEmpty(rest);
      var kept := WithoutEmpty(rest);
      forall i | 0 <= i < |kept| ensures s.start <= kept[i].start {
        WithoutEmptyMembers(rest, kept[i]);
        var k :| 0 <= k < |rest| && rest[k] == kept[i];
        assert segments[k + 1] == kept[i];
      }
    }
  }

  /** What the check of neighbours at the end of the ELF parser misses: a sorted
      list gives no address two owners exactly when the neighbours are disjoint once
      its empty segments are dropped. */
  lemma NeighboursDecideOwnersWithoutEmpty(sorted: seq<Segment>)
    requires SortedByStart(sorted)
    ensures OneOwner(sorted) <==> NeighboursDisjoint(WithoutEmpty(sorted))
  {
    hide OneOwner, PairwiseDisjoint, SortedByStart, NonEmpty, NeighboursDisjoint, WithoutEmpty;
    OwnersWithoutEmpty(sorted);
    RangesNonEmpty(sorted);
    SortedWithoutEmpty(sorted);
    DisjointIsOneOwner(WithoutEmpty(sorted));
    NeighboursDecide(WithoutEmpty(sorted));
  }

  predicate AllInside(ranges: seq<Segment>) { forall i | 0 <= i < |ranges| :: ranges[i].End() <= U64_LIMIT }

  lemma RangesInside(segments: seq<Segment>)
    ensures InAddressSpace(segments) <==> AllInside(WithoutEmpty(segments))
  {
    var ranges := WithoutEmpty(segments);
    forall s { WithoutEmptyMembers(segments, s); }
    if InAddressSpace(segments) {
      forall i | 0 <= i < |ranges| ensures ranges[i].End() <= U64_LIMIT { assert ranges[i] in segments; }
    }
    if AllInside(ranges) {
      forall k | 0 <= k < |segments| && segments[k].data != [] ensures segments[k].End() <= U64_LIMIT {
        assert segments[k] in ranges;
      }
    }
  }

  lemma RangesNonEmpty(segments: seq<Segment>)
    ensures NonEmpty(WithoutEmpty(segments))
  {
    var ranges := WithoutEmpty(segments);
    forall i | 0 <= i < |ranges| ensures |ranges[i].data| > 0 {
      assert ranges[i] in ranges;
      WithoutEmptyMembers(segments, ranges[i]);
    }
  }

  /** With the empty segments dropped, neighbours decide who owns what. */
  lemma NeighboursDecideOwners(segments: seq<Segment>)
    ensures var sorted := SortByStart(WithoutEmpty(segments));
      NonEmpty(sorted) && (NeighboursDisjoint(sorted) <==> OneOwner(segments))
  {
    hide OneOwner, PairwiseDisjoint, SortedByStart, NonEmpty, NeighboursDisjoint, SortByStart, WithoutEmpty;
    var ranges := WithoutEmpty(segments);
    RangesNonEmpty(segments);
    OwnersWithoutEmpty(segments);
    DisjointIsOneOwner(ranges);
    SortDisjoint(ranges);
    SortNonEmpty(ranges);
    NeighboursDecide(SortByStart(ranges));
  }

  lemma StartsAscend(sorted: seq<Segment>, i: nat)
    requires SortedByStart(sorted) && NonEmpty(sorted) && i + 1 < |sorted|
    ensures sorted[i].Overlaps(sorted[i + 1]) <==> sorted[i + 1].start < sorted[i].End()
  {
  }

  /** Accepts exactly the lists in which no address has two owners and none lies
      beyond the address space: empty segments are dropped first, so that they
      cannot hide an overlap.  Equal starts overlap, so their order is immaterial. */
  method ValidateSegments(segments: seq<Segment>) returns (r: Result<()>)
    ensures r.Ok? <==> InAddressSpace(segments) && OneOwner(segments)
  {
    hide OneOwner, InAddressSpace, SortedByStart, NonEmpty, SortByStart, WithoutEmpty;
    var ranges := WithoutEmpty(segments);
    RangesInside(segments);
    var i := 0;
    while i < |ranges|
      invariant i <= |ranges| && forall j | 0 <= j < i :: ranges[j].End() <= U64_LIMIT
    {
      if ranges[i].End() > U64_LIMIT {
        return Err(Backend("fake sparse segment exceeds the physical address space"));
      }
      i := i + 1;
    }
    NeighboursDecideOwners(segments);
    var sorted := SortByStart(ranges);
    i := 0;
    while i + 1 < |sorted|
      invariant 0 <= i && (i == 0 || i < |sorted|)
      invariant forall j | 0 <= j < i :: !sorted[j].Overlaps(sorted[j + 1])
    {
      StartsAscend(sorted, i);
      if sorted[i + 1].start < sorted[i].End() { return Err(Backend("fake sparse segments overlap")); }
      i := i + 1;
    }
    return Ok(());
  }
}
