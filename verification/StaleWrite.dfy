/** A write that rewrites a page-table entry of its own range lands elsewhere when
    that entry's translation is already cached. */
module StaleWrite {
  import opened Words
  import opened VmiTypes
  import opened PhysicalMemory
  import opened PageWalk
  import opened Translators
  import opened SessionModel
  import opened CachedWrites

  /** One table level of 4 KiB pages: 21 address bits. */
  const T := Aarch64(KiB4, 21)

  /** Virtual pages 510 and 511 of the single table, at the top of the space. */
  const PAGE_510: u64 := 0xffff_ffff_ffff_e000
  const PAGE_511: u64 := 0xffff_ffff_ffff_f000

  /** The table at address 0: entry 510 maps the table itself, entry 511 maps the
      frame 0x1000 or 0x2000, as `b` says; both frames start with `x` and `y`. */
  ghost function Table(b: byte, x: byte, y: byte): Memory {
    Memory(
      map[0xff0 := 3, 0xff1 := 0, 0xff2 := 0, 0xff3 := 0, 0xff4 := 0, 0xff5 := 0, 0xff6 := 0, 0xff7 := 0,
          0xff8 := 3, 0xff9 := b, 0xffa := 0, 0xffb := 0, 0xffc := 0, 0xffd := 0, 0xffe := 0, 0xfff := 0,
          0x1000 := x, 0x2000 := y],
      {}, {}, StopAtByte, true, true)
  }

  ghost const ENTRY: Key := Key(CacheTag(T), 0, PAGE_511)

  /** A session that has just translated page 511. */
  ghost const WARM: State :=
    State(Cache(CACHE_CAPACITY, map[ENTRY := Translation(0x1000, 0x1000)], [ENTRY]), Table(0x10, 0, 0))

  /** Nine bytes across the page boundary: a new entry 511, then the byte 7. */
  const DATA: seq<byte> := [3, 0x20, 0, 0, 0, 0, 0, 0, 7]

  /** The memory the cached write leaves, and the one the uncached write leaves. */
  ghost const STALE: Memory := Table(0x20, 7, 0)
  ghost const FRESH: Memory := Table(0x20, 0, 7)

  const START: u64 := 0xffff_ffff_ffff_eff8

  lemma ReadsEntry(m: Memory, a: nat, b1: byte)
    requires a + 8 <= U64_LIMIT && m.readFaults == {}
    requires a in m.bytes && m.bytes[a] == 3
    requires a + 1 in m.bytes && m.bytes[a + 1] == b1
    requires a + 2 in m.bytes && a + 3 in m.bytes && a + 4 in m.bytes && a + 5 in m.bytes
    requires a + 6 in m.bytes && a + 7 in m.bytes
    requires m.bytes[a + 2] == m.bytes[a + 3] == m.bytes[a + 4] == m.bytes[a + 5] == 0
    requires m.bytes[a + 6] == m.bytes[a + 7] == 0
    ensures ReadU64(m, a) == Ok(3 + 0x100 * b1)
  {
    var b: seq<byte> := [3, b1, 0, 0, 0, 0, 0, 0];
    forall x | a <= x < a + 8 ensures Readable(m, x) {
      assert x == a || x == a + 1 || x == a + 2 || x == a + 3 || x == a + 4 || x == a + 5 || x == a + 6 || x == a + 7;
    }
    var r := Bytes(m, a, 8);
    assert r[0] == 3 && r[1] == b1 && r[2] == 0 && r[3] == 0 && r[4] == 0 && r[5] == 0 && r[6] == 0 && r[7] == 0;
    assert r == b;
    EntryBytes(b1);
  }

  lemma TopPage(va: u64, i: nat, low: nat, n12: nat, n9: nat, n20: nat, n21: nat)
    requires n12 == 12 && n9 == 9 && n20 == 20 && n21 == 21
    requires 510 <= i <= 511 && low < 0x1000 && va == U64_LIMIT - 0x1000 * (512 - i) + low
    ensures Canonical(va, n21) && Low(Above(va, n12), n9) == i && Low(va, n12) == low
  {
    Pow2Value(n12);
    Pow2Value(n9);
    var q := 0x10_0000_0000_0000 - (512 - i);
    ShlIsTimes(q, n12);
    RebuildUnique(va, n12, q, low);
    ShlIsTimes(0x7ff_ffff_ffff, n9);
    RebuildUnique(q, n9, 0x7ff_ffff_ffff, i);
    assert Pow2(n20) == 0x100 * Pow2(n12) by { Pow2Plus4(n12); Pow2Plus4(n12 + 4); }
    ShlIsTimes(0xfff_ffff_ffff, n20);
    RebuildUnique(va, n20, 0xfff_ffff_ffff, va - 0xffff_ffff_fff0_0000);
    assert Pow2(n21) == 2 * Pow2(n20);
    ShlIsTimes(0x7ff_ffff_ffff, n21);
    RebuildUnique(va, n21, 0x7ff_ffff_ffff, va - 0xffff_ffff_ffe0_0000);
  }

  lemma EntryFields(e: u64, b: byte, n12: nat, n48: nat)
    requires n12 == 12 && n48 == 48 && e == 3 + 0x100 * b && b % 0x10 == 0
    ensures Bit(e, 0) && Bit(e, 1)
    ensures Field(e, n12, n48) == 0x100 * b && Field(0, n12, n48) == 0
  {
    hide Low, Shl, Pow2;
    Pow2Value(n12);
    Pow2Value(n48);
    LowOfSmall(e, n12, b / 0x10, 3);
    LowOfSmall(e, n48, 0, e);
    LowOfSmall(0, n12, 0, 0);
    LowOfSmall(0, n48, 0, 0);
    FirstBits(e);
  }

  lemma LowOfSmall(x: nat, n: nat, q: nat, r: nat)
    requires x == Pow2(n) * q + r && r < Pow2(n)
    ensures Low(x, n) == r
  {
    ShlIsTimes(q, n);
    RebuildUnique(x, n, q, r);
  }

  lemma FirstBits(e: nat)
    ensures Bit(e, 0) <==> e % 2 == 1
    ensures Bit(e, 1) <==> e / 2 % 2 == 1
  {
    assert Above(e, 0) == e && Above(e, 1) == e / 2;
  }

  lemma EntryBytes(b: byte)
    ensures FromLe([3, b, 0, 0, 0, 0, 0, 0]) == 3 + 0x100 * b
  {
    assert FromLe([0, 0]) == 0;
    assert FromLe([0, 0, 0, 0]) == 0;
    assert FromLe([0, 0, 0, 0, 0, 0]) == 0;
    var s: seq<byte> := [3, b, 0, 0, 0, 0, 0, 0];
    assert s[1..] == [b, 0, 0, 0, 0, 0, 0] && s[1..][1..] == [0, 0, 0, 0, 0, 0];
  }

  /** The address `va` is the first of the page that entry `i` names. */
  ghost predicate NamedBy(va: u64, i: nat, n: nat) {
    hide Canonical, Low, Above;
    n == 12 && Canonical(va, 21) && Low(Above(va, n), 9) == i && Low(va, n) == 0
  }

  /** Entry `i` is the valid entry `e`, for the page at `frame`. */
  ghost predicate EntryFor(m: Memory, i: nat, e: u64, frame: nat, n: nat) {
    hide ReadU64, Low, Above;
    n == 12 && ReadU64(m, 8 * i) == Ok(e) && Bit(e, 0) && Bit(e, 1) && Field(e, n, 48) == frame && Field(0, n, 48) == 0
  }

  lemma OneLevel(m: Memory, va: u64, i: nat, e: u64, frame: nat, n: nat)
    requires NamedBy(va, i, n) && EntryFor(m, i, e, frame, n) && Accepted(T)
    ensures Walk(T, m, 0, va) == Ok(Translation(frame, 0x1000))
  {
    hide ReadU64, Canonical, Pow2, Above, Low, Field, Bit;
    assert Levels(T) == 1;
    assert Shift(T, 0) == n;
    Pow2Value(n);
    assert EntryAddress(T, Frame(T, 0, n), va, 0) == 8 * i;
  }

  /** Page 510 is the table itself; page 511 is the frame its entry names. */
  lemma PageWalks(b: byte, x: byte, y: byte)
    requires b == 0x10 || b == 0x20
    ensures Walk(T, Table(b, x, y), 0, PAGE_510) == Ok(Translation(0, 0x1000))
    ensures Walk(T, Table(b, x, y), 0, PAGE_511) == Ok(Translation(0x100 * b, 0x1000))
  {
    hide ReadU64, Canonical, Pow2, Above, Low, Walk, Bit, Field;
    var m := Table(b, x, y);
    TableEntries(b, x, y);
    EntryFields(3, 0, 12, 48);
    EntryFields(3 + 0x100 * b, b, 12, 48);
    TopPage(PAGE_510, 510, 0, 12, 9, 20, 21);
    TopPage(PAGE_511, 511, 0, 12, 9, 20, 21);
    OneLevel(m, PAGE_510, 510, 3, 0, 12);
    OneLevel(m, PAGE_511, 511, 3 + 0x100 * b, 0x100 * b, 12);
  }

  lemma TableEntries(b: byte, x: byte, y: byte)
    ensures ReadU64(Table(b, x, y), 0xff0) == Ok(3)
    ensures ReadU64(Table(b, x, y), 0xff8) == Ok(3 + 0x100 * b)
  {
    hide ReadU64, Table;
    FirstEntry(b, x, y);
    SecondEntry(b, x, y);
  }

  lemma FirstEntry(b: byte, x: byte, y: byte)
    ensures ReadU64(Table(b, x, y), 0xff0) == Ok(3)
  {
    hide ReadU64;
    ReadsEntry(Table(b, x, y), 0xff0, 0);
  }

  lemma SecondEntry(b: byte, x: byte, y: byte)
    ensures ReadU64(Table(b, x, y), 0xff8) == Ok(3 + 0x100 * b)
  {
    hide ReadU64;
    ReadsEntry(Table(b, x, y), 0xff8, b);
  }

  lemma WarmIsCoherent()
    ensures Coherent(WARM)
  {
    hide Walk, Table;
    PageWalks(0x10, 0, 0);
    forall t, root: u64, page: u64 | Accepted(t) && Key(CacheTag(t), root, page) in WARM.cache.entries
      ensures Walk(t, WARM.memory, root, page) == Ok(WARM.cache.entries[Key(CacheTag(t), root, page)])
    {
      CacheTagInjective(t, T);
    }
    assert WARM.memory.canRead by { TableCanRead(0x10, 0, 0); }
  }

  lemma TableCanRead(b: byte, x: byte, y: byte)
    ensures Table(b, x, y).canRead && Table(b, x, y).canWrite
  {
  }

  lemma RewriteBytes(m: Memory, m': Memory, r: Result<()>)
    requires m == Table(0x10, 0, 0) && (m', r) == Write(m, 0xff8, DATA[..8])
    ensures r == Ok(()) && SameExcept(m, m', Span(0xff8, 0x1000))
    ensures forall x | 0xff8 <= x < 0x1000 ::
      x in m'.bytes && m'.bytes[x] == if x == 0xff8 then 3 else if x == 0xff9 then 0x20 else 0
  {
    hide Walk, WriteFrom;
    WholeWriteEffect(m, 0xff8, DATA[..8]);
    forall x | 0xff8 <= x < 0x1000 ensures Writable(m, x) {
      assert x == 0xff8 || x == 0xff9 || x == 0xffa || x == 0xffb || x == 0xffc || x == 0xffd || x == 0xffe || x == 0xfff;
    }
    assert r == Ok(r.value) && r.value == ();
  }

  lemma RewriteEntry()
    ensures Write(Table(0x10, 0, 0), 0xff8, DATA[..8]) == (Table(0x20, 0, 0), Ok(()))
  {
    hide Walk, Write;
    var (m', r) := Write(Table(0x10, 0, 0), 0xff8, DATA[..8]);
    RewriteBytes(Table(0x10, 0, 0), m', r);
    var want := Table(0x20, 0, 0).bytes;
    assert m'.bytes.Keys == want.Keys;
    assert m'.bytes == want;
  }

  lemma StoreSeven(a: nat)
    requires a == 0x1000 || a == 0x2000
    ensures Write(Table(0x20, 0, 0), a, DATA[8..]) ==
      (Table(0x20, if a == 0x1000 then 7 else 0, if a == 0x2000 then 7 else 0), Ok(()))
  {
    var m := Table(0x20, 0, 0);
    assert Writable(m, a);
    assert m.bytes[a := 7] == Table(0x20, if a == 0x1000 then 7 else 0, if a == 0x2000 then 7 else 0).bytes;
    assert WriteFrom(m, a, DATA[8..], 0) == WriteFrom(m.(bytes := m.bytes[a := 7]), a, DATA[8..], 1);
  }

  /** From a coherent cache, `write_virtual` succeeds but stores its last byte
      through the translation cached before the call; without a cache the same
      call follows the entry it has just rewritten. */
  lemma StaleTranslationMisdirectsWrite()
    ensures Coherent(WARM)
    ensures WriteVirtualStep(WARM, T, 0, START, DATA).0.memory == STALE
    ensures WriteVirtualStep(WARM, T, 0, START, DATA).1 == Ok(())
    ensures WriteDirect(WARM.memory, T, 0, START, DATA, 0) == (FRESH, Ok(()))
    ensures STALE != FRESH
  {
    hide Walk, Table, Write, Coherent, TranslateStep, TranslateDirect;
    WarmIsCoherent();
    TablesDiffer();
    RewriteEntry();
    StoreSeven(0x1000);
    StoreSeven(0x2000);
    FirstChunk();
    SecondChunk();
    assert DATA[0..8] == DATA[..8] && DATA[8..9] == DATA[8..];
    var m1 := Table(0x20, 0, 0);
    assert WriteDirect(WARM.memory, T, 0, START, DATA, 0) == WriteDirect(m1, T, 0, START, DATA, 8);
    var s1 := TranslateStep(WARM, T, 0, START).0.(memory := m1);
    assert WriteFromStep(WARM, T, 0, START, DATA, 0) == WriteFromStep(s1, T, 0, START, DATA, 8);
    TableCanRead(0x10, 0, 0);
  }

  /** So the cache does not stay right: page 511 is cached, and remapped by the time
      the write comes to it. */
  lemma CacheGoesStale()
    ensures !TranslationsRight(WARM, T, 0, START, DATA, 0)
    ensures !Undisturbed(CachedPages(WARM.cache, T, 0), WARM.memory, WARM.memory, T, 0, START, DATA, 0)
  {
    hide *;
    StaleTranslationMisdirectsWrite();
    WarmIsAccepted();
    RightFromHere(WARM, T, 0, START, DATA);
    if TranslationsRight(WARM, T, 0, START, DATA, 0) {
      RightIsDirect(WARM, T, 0, START, DATA, 0);
      WriteEndsAlike();
      assert false;
    }
  }

  lemma WarmIsAccepted()
    ensures Accepted(T)
  {
  }

  /** The clearing at the end of `write_virtual` does not touch memory. */
  lemma WriteEndsAlike()
    ensures WriteVirtualStep(WARM, T, 0, START, DATA).0.memory == WriteFromStep(WARM, T, 0, START, DATA, 0).0.memory
  {
    hide Walk, WriteFromStep;
  }

  lemma TablesDiffer()
    ensures Table(0x20, 7, 0) != Table(0x20, 0, 7)
  {
    assert Table(0x20, 7, 0).bytes[0x1000] == 7;
  }

  /** Page 510 is not cached: both translate it by walking. */
  lemma FirstChunk()
    ensures TranslateDirect(WARM.memory, T, 0, START) == Ok(Translation(0xff8, 0x1000))
    ensures TranslateStep(WARM, T, 0, START).1 == Ok(Translation(0xff8, 0x1000))
    ensures TranslateStep(WARM, T, 0, START).0.memory == WARM.memory
    ensures ENTRY in TranslateStep(WARM, T, 0, START).0.cache.entries
    ensures TranslateStep(WARM, T, 0, START).0.cache.entries[ENTRY] == Translation(0x1000, 0x1000)
  {
    hide Walk, Table, Coherent;
    assert PageOf(START) == PAGE_510;
    TableCanRead(0x10, 0, 0);
    PageWalks(0x10, 0, 0);
    WarmIsCoherent();
    OffsetOfPage(WARM.memory, T, 0, START);
  }

  /** Page 511 is: the walk sees the new entry, the cache does not. */
  lemma SecondChunk()
    ensures var m1 := Table(0x20, 0, 0);
      && TranslateDirect(m1, T, 0, PAGE_511) == Ok(Translation(0x2000, 0x1000))
      && TranslateStep(TranslateStep(WARM, T, 0, START).0.(memory := m1), T, 0, PAGE_511)
         == (TranslateStep(WARM, T, 0, START).0.(memory := m1), Ok(Translation(0x1000, 0x1000)))
  {
    hide Walk, Table, Coherent;
    assert PageOf(PAGE_511) == PAGE_511;
    TableCanRead(0x20, 0, 0);
    PageWalks(0x20, 0, 0);
    OffsetOfPage(Table(0x20, 0, 0), T, 0, PAGE_511);
    FirstChunk();
  }
}
