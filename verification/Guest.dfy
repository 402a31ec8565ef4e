/** Reads of a guest's virtual memory, as the OS adapters make them: through a
    session whose cache may change, over memory that does not. */
module Guest {
  import opened Words
  import opened VmiTypes
  import opened FileFields
  import opened PhysicalMemory
  import opened PageWalk
  import opened SessionModel
  import opened SessionLaws
  import opened Session

  /** The address space an adapter looks at. */
  datatype Space = Space(memory: Memory, t: Translator, root: u64) {
    ghost predicate Valid() { Accepted(t) }

    ghost function Bytes(a: u64, n: nat): (r: Result<seq<byte>>)
      requires Valid()
      ensures r.Ok? ==> |r.value| == n
    {
      if !memory.canRead then Err(CapabilityMissing)
      else
        ReadDirectMeaning(memory, t, root, a, n, []);
        ReadDirect(memory, t, root, a, n, [])
    }

    ghost function U64(a: u64): Result<u64>
      requires Valid()
    {
      match Bytes(a, 8) case Err(e) => Err(e) case Ok(b) => Ok(U64FromLe(b))
    }

    ghost function U32(a: u64): Result<nat>
      requires Valid()
    {
      match Bytes(a, 4) case Err(e) => Err(e) case Ok(b) => Ok(FromLe(b))
    }
  }

  /** Words of guest memory are little-endian, of eight bytes and of four. */
  lemma WordsExact(g: Space, a: u64, x: u64, y: nat)
    requires g.Valid() && y < 0x1_0000_0000
    ensures g.U64(a) == Ok(x) <==> g.Bytes(a, 8) == Ok(ToLe(x, 8))
    ensures g.U32(a) == Ok(y) <==> g.Bytes(a, 4) == Ok(ToLe(y, 4))
  {
    hide FromLe, ToLe, Space.Bytes, Pow2;
    if g.Bytes(a, 8).Ok? { LeU64(g.Bytes(a, 8).value, x); }
    WidthOf(4);
    if g.Bytes(a, 4).Ok? { LeExact(g.Bytes(a, 4).value, y); }
  }

  function Add(base: u64, offset: u64): (r: Result<u64>)
    ensures r.Ok? <==> base + offset < U64_LIMIT
    ensures r.Ok? ==> r.value == base + offset
  {
    if base + offset < U64_LIMIT then Ok(base + offset) else Err(VmiError.Backend("address overflow"))
  }

  class Reader {
    const session: VmiSession
    const t: Translator
    const root: u64

    constructor (session: VmiSession, t: Translator, root: u64)
      requires session.Valid() && Coherent(session.State()) && Accepted(t)
      ensures this.session == session && Valid() && Sees() == Space(session.State().memory, t, root)
    {
      this.session := session;
      this.t := t;
      this.root := root;
    }

    ghost predicate Valid()
      reads this, session, session.translations, session.memory.Repr()
    {
      session.Valid() && Accepted(t) && Coherent(session.State())
    }

    ghost function Sees(): Space
      reads this, session, session.translations, session.memory.Repr()
    {
      Space(session.State().memory, t, root)
    }

    method ReadBytes(a: u64, n: nat) returns (r: Result<seq<byte>>)
      requires Valid()
      modifies session.translations
      ensures Valid() && Sees() == old(Sees())
      ensures r == Sees().Bytes(a, n)
    {
      hide ReadFrom, ReadDirect, Coherent;
      ghost var s := session.State();
      if s.memory.canRead { ReadTransparent(s, t, root, a, n, []); }
      r := session.ReadVirtual(t, root, a, n);
    }

    method ReadU64(a: u64) returns (r: Result<u64>)
      requires Valid()
      modifies session.translations
      ensures Valid() && Sees() == old(Sees())
      ensures r == Sees().U64(a)
    {
      hide Space.Bytes, Coherent;
      var b :- ReadBytes(a, 8);
      return Ok(U64FromLe(b));
    }

    method ReadU32(a: u64) returns (r: Result<nat>)
      requires Valid()
      modifies session.translations
      ensures Valid() && Sees() == old(Sees())
      ensures r == Sees().U32(a)
    {
      hide Space.Bytes, Coherent;
      var b :- ReadBytes(a, 4);
      return Ok(FromLe(b));
    }
  }

  /** A step that leaves the session alone leaves what is seen through it. */
  twostate lemma StillSees(reader: Reader)
    requires old(reader.Valid())
    requires unchanged(reader.session, reader.session.translations, reader.session.memory.Repr())
    ensures reader.Valid() && reader.Sees() == old(reader.Sees())
  {
  }
}
