/** `SnapshotBundle::read_into` (vmi-artifact): a two-pass scatter read over
    sorted segments. */
module Snapshot {
  import opened Words
  import opened VmiTypes
  import opened PhysicalMemory
  import opened Segments
  import opened Slices

  datatype SnapshotBundle = SnapshotBundle(segments: seq<Segment>) {
    /** What every constructor of a bundle establishes. */
    predicate Valid() { SortedByStart(segments) }

    ghost function View(): Memory {
      Memory(Contents(segments), {}, {}, WholeRequest, true, false)
    }

    lemma UncoveredGap(i: nat, a: nat)
      requires Valid() && i <= |segments|
      requires forall j | 0 <= j < i :: segments[j].End() <= a
      requires i < |segments| ==> a < segments[i].start
      ensures !Readable(View(), a)
    {
      forall j | 0 <= j < |segments| ensures !segments[j].Covers(a) {
        if j > i { assert segments[i].start <= segments[j].start; }
      }
    }

    /** First pass: how far the request is covered without a gap. */
    method CoveredUpTo(address: nat, end: nat) returns (covered: nat)
      requires Valid() && address < end <= U64_LIMIT
      ensures address <= covered <= end
      ensures forall x | address <= x < covered :: Readable(View(), x)
      ensures covered < end ==> !Readable(View(), covered)
    {
      covered := address;
      var i := 0;
      while i < |segments| && covered != end && segments[i].start <= covered
        invariant 0 <= i <= |segments| && address <= covered <= end
        invariant forall x | address <= x < covered :: Readable(View(), x)
        invariant covered != end ==> forall j | 0 <= j < i :: segments[j].End() <= covered
      {
        if covered < segments[i].End() {
          var next := if segments[i].End() < end then segments[i].End() else end;
          assert forall x | covered <= x < next :: segments[i].Covers(x);
          covered := next;
        }
        i := i + 1;
      }
      if covered != end { UncoveredGap(i, covered); }
    }

    lemma SourceBytes(address: nat, n: nat, completed: nat, length: nat, i: nat)
      requires AllReadable(View(), address, n) && completed + length <= n
      requires i < |segments| && segments[i].start <= address + completed
      requires address + completed + length <= segments[i].End()
      requires forall j | 0 <= j < i :: segments[j].End() <= address + completed
      ensures var offset := address + completed - segments[i].start;
        segments[i].data[offset..offset + length] == Bytes(View(), address, n)[completed..completed + length]
    {
      var offset, want := address + completed - segments[i].start, Bytes(View(), address, n);
      var got, part := segments[i].data[offset..offset + length], want[completed..completed + length];
      forall k | 0 <= k < length ensures got[k] == part[k] {
        assert want[completed + k] == part[k];
        FirstByteAt(segments, address + (completed + k), i);
        assert Readable(View(), address + (completed + k));
      }
    }

    /** Copies what segment `i` holds of the request from `completed` on. */
    method CopyRun(i: nat, address: nat, output: array<byte>, lo: nat, n: nat, completed: nat) returns (done: nat)
      requires lo + n <= output.Length && completed < n && AllReadable(View(), address, n)
      requires i < |segments| && segments[i].start <= address + completed < segments[i].End()
      requires forall j | 0 <= j < i :: segments[j].End() <= address + completed
      modifies output
      ensures completed < done <= n && (done == n || segments[i].End() == address + done)
      ensures Spliced(output[..], old(output[..]), lo + completed, Bytes(View(), address, n)[completed..done])
    {
      hide Bytes, Contents, FirstByte, Covered;
      var offset := address + completed - segments[i].start;
      var available, remaining := |segments[i].data| - offset, n - completed;
      var length := if available < remaining then available else remaining;
      SourceBytes(address, n, completed, length, i);
      CopySlice(output, lo + completed, segments[i].data[offset..offset + length]);
      done := completed + length;
    }

    /** Second pass: copy from the first segment that holds each byte.  The
        source's error branches in this pass are not reachable, so the method
        has no failure to report. */
    method Scatter(address: nat, output: array<byte>, lo: nat, hi: nat)
      requires Valid() && lo <= hi <= output.Length
      requires AllReadable(View(), address, hi - lo)
      modifies output
      ensures Spliced(output[..], old(output[..]), lo, Bytes(View(), address, hi - lo))
    {
      var n, completed, i := hi - lo, 0, 0;
      ghost var want, was := Bytes(View(), address, n), output[..];
      while i < |segments| && completed != n && segments[i].start <= address + completed
        invariant 0 <= i <= |segments| && 0 <= completed <= n
        invariant completed != n ==> forall j | 0 <= j < i :: segments[j].End() <= address + completed
        invariant Spliced(output[..], was, lo, want[..completed])
      {
        if address + completed < segments[i].End() {
          ghost var before := output[..];
          var done := CopyRun(i, address, output, lo, n, completed);
          SplicedPrefix(was, before, output[..], lo, want, completed, done);
          completed := done;
        }
        i := i + 1;
      }
      if completed != n {
        UncoveredGap(i, address + completed);
        assert false;
      }
      assert want[..n] == want;
    }

    /** Fills `output[lo..hi]`, the source's `&mut [u8]`, or leaves all of
        `output` alone.  Succeeds exactly when every requested byte is covered. */
    method ReadInto(address: u64, output: array<byte>, lo: nat, hi: nat) returns (r: Result<()>)
      requires Valid() && lo <= hi <= output.Length
      modifies output
      ensures match Read(View(), address, hi - lo)
        case Ok(b) => r == Ok(()) && Spliced(output[..], old(output[..]), lo, b)
        case Err(e) => r == Err(e) && output[..] == old(output[..])
    {
      if lo == hi {
        assert Bytes(View(), address, 0) == [];
        return Ok(());
      }
      var end := address + (hi - lo);
      if end > U64_LIMIT {
        assert !Readable(View(), end - 1);
        return Err(ReadFailed(address, hi - lo));
      }
      var covered := CoveredUpTo(address, end);
      if covered != end {
        return Err(ReadFailed(address, hi - lo));
      }
      Scatter(address, output, lo, hi);
      return Ok(());
    }
  }
}
