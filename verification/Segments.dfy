/** Sparse physical memory as a list of byte runs, the representation shared by
    snapshot bundles and the fake provider.  When runs overlap, the first run
    listed that contains an address supplies its byte. */
module Segments {
  import opened Words

  datatype Segment = Segment(start: u64, data: seq<byte>) {
    function End(): nat { start + |data| }

    predicate Covers(a: nat) { start <= a < End() }

    predicate Overlaps(other: Segment) { start < other.End() && other.start < End() }
  }

  predicate Covered(segments: seq<Segment>, a: nat) {
    exists j | 0 <= j < |segments| :: segments[j].Covers(a)
  }

  function FirstByte(segments: seq<Segment>, a: nat): byte
    requires Covered(segments, a)
  {
    if segments[0].Covers(a) then segments[0].data[a - segments[0].start]
    else CoveredTail(segments, a); FirstByte(segments[1..], a)
  }

  lemma CoveredTail(segments: seq<Segment>, a: nat)
    requires |segments| > 0 && !segments[0].Covers(a)
    ensures Covered(segments, a) <==> Covered(segments[1..], a)
  {
    var tail := segments[1..];
    assert forall j | 0 <= j < |tail| :: tail[j] == segments[j + 1];
    if Covered(segments, a) {
      var j :| 0 <= j < |segments| && segments[j].Covers(a);
      assert tail[j - 1].Covers(a);
    }
  }

  lemma {:induction false} FirstByteAt(segments: seq<Segment>, a: nat, j: nat)
    requires j < |segments| && segments[j].Covers(a)
    requires forall i | 0 <= i < j :: !segments[i].Covers(a)
    ensures Covered(segments, a)
    ensures FirstByte(segments, a) == segments[j].data[a - segments[j].start]
  {
    if j > 0 { FirstByteAt(segments[1..], a, j - 1); }
  }

  ghost function Contents(segments: seq<Segment>): map<nat, byte> {
    map a: nat | a < U64_LIMIT && Covered(segments, a) :: FirstByte(segments, a)
  }

  predicate SortedByStart(segments: seq<Segment>) {
    forall i, j | 0 <= i < j < |segments| :: segments[i].start <= segments[j].start
  }

  predicate PairwiseDisjoint(segments: seq<Segment>) {
    forall i, j | 0 <= i < j < |segments| :: !segments[i].Overlaps(segments[j])
  }
}
