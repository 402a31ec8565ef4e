/** The session facets `memory()` and `memory_write()` over the two backends the
    model has: a read-only dump and the writable fake provider. */
module Backend {
  import opened Words
  import opened VmiTypes
  import opened PhysicalMemory
  import opened Slices
  import opened Snapshot
  import opened FakeProvider

  datatype Backend = Dump(bundle: SnapshotBundle) | Fake(session: FakeSession) {
    ghost function Repr(): set<object> {
      if Fake? then {session} else {}
    }

    ghost predicate Valid() {
      Dump? ==> bundle.Valid()
    }

    ghost function View(): Memory
      reads Repr()
    {
      if Dump? then bundle.View() else session.View()
    }

    predicate CanRead() { Dump? || session.canRead }

    predicate CanWrite() { Fake? && session.canWrite }

    method ReadInto(address: u64, output: array<byte>, lo: nat, hi: nat) returns (r: Result<()>)
      requires Valid() && lo <= hi <= output.Length
      modifies output
      ensures match Read(View(), address, hi - lo)
        case Ok(b) => r == Ok(()) && Spliced(output[..], old(output[..]), lo, b)
        case Err(e) => r == Err(e)
    {
      match this
      case Dump(bundle) => r := bundle.ReadInto(address, output, lo, hi);
      case Fake(session) => r := session.ReadSparseInto(address, output, lo, hi);
    }

    /** A dump has no write facet; only the fake provider gets here. */
    method Write(address: u64, data: seq<byte>) returns (r: Result<()>)
      requires Valid() && CanWrite()
      modifies Repr()
      ensures (View(), r) == PhysicalMemory.Write(old(View()), address, data)
    {
      r := session.Write(address, data);
    }

    method ReadScalarU64(address: u64) returns (r: Result<u64>)
      requires Valid()
      ensures r == ReadU64(View(), address)
    {
      var buffer := new byte[8];
      ghost var was := buffer[..];
      var read := ReadInto(address, buffer, 0, 8);
      if read.Err? { return Err(read.error); }
      SplicedWhole(buffer[..], was, Bytes(View(), address, 8));
      return Ok(U64FromLe(buffer[..]));
    }
  }
}
