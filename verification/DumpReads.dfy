/** A virtual read of a memory dump, end to end: the chunked, cached, segmented
    read against the byte-at-a-time meaning of the dump. */
module DumpReads {
  import opened Words
  import opened Segments
  import opened Snapshot
  import opened PageWalk
  import opened SessionModel
  import opened SessionLaws

  /** Virtual address `y` means something in the dump: it is below 2^64, walks to
      a present page, and the physical byte it walks to is in the dump. */
  ghost predicate Present(bundle: SnapshotBundle, t: Translator, root: u64, y: nat)
    requires Accepted(t)
  {
    && y < U64_LIMIT && Walk(t, bundle.View(), root, y).Ok?
    && Walk(t, bundle.View(), root, y).value.physicalAddress < U64_LIMIT
    && Covered(bundle.segments, Walk(t, bundle.View(), root, y).value.physicalAddress)
  }

  /** The byte there: that of the first segment that covers the physical address. */
  ghost function ByteOf(bundle: SnapshotBundle, t: Translator, root: u64, y: nat): byte
    requires Accepted(t) && Present(bundle, t, root, y)
  {
    FirstByte(bundle.segments, Walk(t, bundle.View(), root, y).value.physicalAddress)
  }

  lemma PresentIsReadable(bundle: SnapshotBundle, t: Translator, root: u64, y: nat)
    requires Accepted(t)
    ensures Present(bundle, t, root, y) <==> VirtualReadable(bundle.View(), t, root, y)
    ensures Present(bundle, t, root, y) ==> VirtualByte(bundle.View(), t, root, y) == ByteOf(bundle, t, root, y)
  {
    hide Walk;
  }

  /** From every coherent cache, whatever hits, misses and evictions it leads to:
      the read succeeds exactly when every address is present, and byte `i` is then
      the byte of the dump at the uncached walk of `va + i`. */
  lemma DumpReadExact(bundle: SnapshotBundle, cache: Cache, t: Translator, root: u64, va: u64, length: nat)
    requires Accepted(t) && Coherent(State(cache, bundle.View()))
    ensures var r := ReadVirtualStep(State(cache, bundle.View()), t, root, va, length).1;
      && (r.Ok? <==> forall y | va <= y < va + length :: Present(bundle, t, root, y))
      && (r.Ok? ==>
           && |r.value| == length
           && forall i | 0 <= i < length :: r.value[i] == ByteOf(bundle, t, root, va + i))
  {
    hide ReadVirtualStep, VirtualReadable, VirtualByte, Present, ByteOf, Coherent;
    ReadVirtualExact(State(cache, bundle.View()), t, root, va, length);
    forall y: nat { PresentIsReadable(bundle, t, root, y); }
    var r := ReadVirtualStep(State(cache, bundle.View()), t, root, va, length).1;
    if r.Ok? {
      forall i | 0 <= i < length ensures r.value[i] == ByteOf(bundle, t, root, va + i) {
        var y := va + i;
        assert r.value[y - va] == VirtualByte(bundle.View(), t, root, y);
      }
    }
  }
}
