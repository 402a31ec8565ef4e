/** The writable memory under a session: `FakeSession` of vmi-testkit. */
module FakeProvider {
  import opened Words
  import opened VmiTypes
  import opened PhysicalMemory
  import opened Segments
  import opened Slices

  /** The byte of the first segment that covers `a` is replaced; every other
      address keeps its byte, even where segments overlap. */
  lemma {:induction false} StoreByte(segments: seq<Segment>, j: nat, a: nat, v: byte, x: nat)
    requires j < |segments| && segments[j].Covers(a)
    requires forall i | 0 <= i < j :: !segments[i].Covers(a)
    ensures var stored := Stored(segments, j, a, v);
      && (Covered(stored, x) <==> Covered(segments, x))
      && (Covered(stored, x) ==> FirstByte(stored, x) == if x == a then v else FirstByte(segments, x))
  {
    var stored := Stored(segments, j, a, v);
    assert forall i | 0 <= i < |segments| ::
      stored[i].start == segments[i].start && |stored[i].data| == |segments[i].data|;
    assert forall i | 0 <= i < |segments| :: stored[i].Covers(x) <==> segments[i].Covers(x);
    assert Covered(stored, x) <==> Covered(segments, x);
    if Covered(segments, x) && !segments[0].Covers(x) {
      CoveredTail(segments, x);
      CoveredTail(stored, x);
      if j > 0 {
        StoreByte(segments[1..], j - 1, a, v, x);
        assert stored[1..] == Stored(segments[1..], j - 1, a, v);
      } else {
        assert stored[1..] == segments[1..];
      }
    }
  }

  lemma StoreContents(segments: seq<Segment>, j: nat, a: nat, v: byte)
    requires j < |segments| && segments[j].Covers(a) && a < U64_LIMIT
    requires forall i | 0 <= i < j :: !segments[i].Covers(a)
    ensures a in Contents(segments)
    ensures Contents(Stored(segments, j, a, v)) == Contents(segments)[a := v]
  {
    hide Stored, FirstByte;
    forall x: nat { StoreByte(segments, j, a, v, x); }
    assert Covered(segments, a);
  }

  function Stored(segments: seq<Segment>, j: nat, a: nat, v: byte): (r: seq<Segment>)
    requires j < |segments| && segments[j].Covers(a)
    ensures |r| == |segments|
  {
    var s := segments[j];
    segments[j := Segment(s.start, s.data[a - s.start := v])]
  }

  class FakeSession {
    var segments: seq<Segment>
    const readFaults: set<nat>
    const writeFaults: set<nat>
    const canRead: bool
    const canWrite: bool

    constructor (segments: seq<Segment>, readFaults: set<nat>, writeFaults: set<nat>, canRead: bool, canWrite: bool)
      ensures View() == Memory(Contents(segments), readFaults, writeFaults, StopAtByte, canRead, canWrite)
    {
      this.segments := segments;
      this.readFaults := readFaults;
      this.writeFaults := writeFaults;
      this.canRead := canRead;
      this.canWrite := canWrite;
    }

    ghost function View(): Memory
      reads this
    {
      Memory(Contents(segments), readFaults, writeFaults, StopAtByte, canRead, canWrite)
    }

    /** The first segment holding `a`, or `|segments|`. */
    method Locate(a: nat) returns (j: nat)
      ensures j <= |segments|
      ensures forall i | 0 <= i < j :: !segments[i].Covers(a)
      ensures j < |segments| ==> segments[j].Covers(a)
    {
      j := 0;
      while j < |segments| && !segments[j].Covers(a)
        invariant j <= |segments|
        invariant forall i | 0 <= i < j :: !segments[i].Covers(a)
      {
        j := j + 1;
      }
    }

    /** A byte that no segment covers cannot be read. */
    lemma Missing(a: nat)
      requires forall i | 0 <= i < |segments| :: !segments[i].Covers(a)
      ensures !Readable(View(), a) && a !in View().bytes
    {
    }

    /** The first segment that covers a byte supplies it. */
    lemma Found(a: nat, j: nat)
      requires j < |segments| && segments[j].Covers(a) && forall i | 0 <= i < j :: !segments[i].Covers(a)
      requires a < U64_LIMIT && a !in readFaults
      ensures Readable(View(), a) && View().bytes[a] == segments[j].data[a - segments[j].start]
    {
      FirstByteAt(segments, a, j);
    }

    method ReadSparseInto(address: u64, output: array<byte>, lo: nat, hi: nat) returns (r: Result<()>)
      requires lo <= hi <= output.Length
      modifies output
      ensures match Read(View(), address, hi - lo)
        case Ok(b) => r == Ok(()) && Spliced(output[..], old(output[..]), lo, b)
        case Err(e) => r == Err(e)
    {
      hide Contents, Covered, FirstByte;
      var n, index := hi - lo, 0;
      ghost var was, view := output[..], View();
      while index < n
        invariant 0 <= index <= n
        invariant AllReadable(view, address, index)
        invariant Spliced(output[..], was, lo, Bytes(view, address, index))
      {
        var absolute := address + index;
        if absolute >= U64_LIMIT {
          FirstReadErrorAt(view, address, n, index);
          return Err(ReadFailed(address, n));
        }
        if absolute in readFaults {
          FirstReadErrorAt(view, address, n, index);
          return Err(Backend(READ_FAULT));
        }
        var j := Locate(absolute);
        if j == |segments| {
          Missing(absolute);
          FirstReadErrorAt(view, address, n, index);
          return Err(ReadFailed(absolute, 1));
        }
        Found(absolute, j);
        ghost var before, b := output[..], segments[j].data[absolute - segments[j].start];
        output[lo + index] := segments[j].data[absolute - segments[j].start];
        assert Readable(view, absolute);
        SplicedOnward(was, before, output[..], lo, Bytes(view, address, index), [b]);
        assert Bytes(view, address, index + 1) == Bytes(view, address, index) + [b];
        index := index + 1;
      }
      return Ok(());
    }

    method Write(address: u64, data: seq<byte>) returns (r: Result<()>)
      modifies this
      ensures (View(), r) == PhysicalMemory.Write(old(View()), address, data)
    {
      hide Contents, Covered, FirstByte, Stored;
      var index := 0;
      while index < |data|
        invariant 0 <= index <= |data| && |segments| == |old(segments)|
        invariant WriteFrom(View(), address, data, index) == PhysicalMemory.Write(old(View()), address, data)
      {
        var absolute := address + index;
        if absolute >= U64_LIMIT { return Err(ReadFailed(address, |data|)); }
        if absolute in writeFaults { return Err(Backend(WRITE_FAULT)); }
        var j := Locate(absolute);
        if j == |segments| {
          Missing(absolute);
          return Err(ReadFailed(absolute, 1));
        }
        ghost var before := segments;
        segments := Stored(segments, j, absolute, data[index]);
        StoreContents(before, j, absolute, data[index]);
        index := index + 1;
      }
      return Ok(());
    }
  }
}
