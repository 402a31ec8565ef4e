/** One recursive description of the page walks of vmi-arch-amd64 and
    vmi-arch-aarch64.  The loops of the two translators are proved equal to
    `Walk` in modules Amd64Walker and Aarch64Walker; the laws are proved here, once. */
module PageWalk {
  import opened Words
  import opened VmiTypes
  import opened PhysicalMemory

  datatype Granule = KiB4 | KiB16 | KiB64 {
    function PageShift(): nat {
      match this case KiB4 => 12 case KiB16 => 14 case KiB64 => 16
    }

    function IndexBits(): nat {
      match this case KiB4 => 9 case KiB16 => 11 case KiB64 => 13
    }

    function MaximumLevels(): nat {
      match this case KiB4 => 4 case KiB16 => 4 case KiB64 => 3
    }

    function Kilobytes(): nat {
      match this case KiB4 => 4 case KiB16 => 16 case KiB64 => 64
    }
  }

  datatype Translator = Amd64 | Amd64La57 | Aarch64(granule: Granule, bits: nat)

  /** What `Aarch64Translator::new` lets through; the AMD64 translators are fixed. */
  predicate Accepted(t: Translator) {
    t.Aarch64? ==>
      && t.granule.PageShift() < t.bits
      && t.bits <= t.granule.PageShift() + t.granule.IndexBits() * t.granule.MaximumLevels()
      && t.bits <= 48
  }

  function AddressBits(t: Translator): nat {
    match t case Amd64 => 48 case Amd64La57 => 57 case Aarch64(_, bits) => bits
  }

  /** Bits of a physical address that an entry or root can hold. */
  function PhysicalBits(t: Translator): nat {
    if t.Aarch64? then 48 else 52
  }

  function PageShift(t: Translator): nat {
    if t.Aarch64? then t.granule.PageShift() else 12
  }

  function IndexBits(t: Translator): nat {
    if t.Aarch64? then t.granule.IndexBits() else 9
  }

  function Levels(t: Translator): (n: nat)
    requires Accepted(t)
    ensures 1 <= n <= 5
    ensures t.Aarch64? ==> n <= t.granule.MaximumLevels()
  {
    match t
    case Amd64 => 4
    case Amd64La57 => 5
    case Aarch64(g, bits) => (bits - g.PageShift() + g.IndexBits() - 1) / g.IndexBits()
  }

  /** Lowest address bit that selects an entry when `k` levels remain below. */
  function Shift(t: Translator, k: nat): nat {
    if k == 0 then PageShift(t) else Shift(t, k - 1) + IndexBits(t)
  }

  function Index(t: Translator, va: nat, k: nat): nat {
    Low(Above(va, Shift(t, k)), IndexBits(t))
  }

  predicate Canonical(va: u64, bits: nat)
    requires 1 <= bits < 64
  {
    va - Low(va, bits) == if Bit(va, bits - 1) then U64_LIMIT - Pow2(bits) else 0
  }

  datatype Decision = Fault(error: VmiError) | Leaf | Table

  function Classify(t: Translator, entry: u64, va: nat, k: nat): Decision {
    if t.Aarch64? then ClassifyAarch64(entry, va, k) else ClassifyAmd64(entry, va, k + 1)
  }

  function ClassifyAmd64(entry: u64, va: nat, level: nat): Decision {
    if !Bit(entry, 0) then Fault(PageNotPresent(va, level))
    else if Bit(entry, 7) && (level > 3 || level == 1) then Fault(InvalidPageTableEntry(entry, level))
    else if level == 1 || Bit(entry, 7) then Leaf
    else Table
  }

  function ClassifyAarch64(entry: u64, va: nat, k: nat): Decision {
    var level := if k <= 3 then 3 - k else 0;
    if !Bit(entry, 0) then Fault(PageNotPresent(va, level))
    else if k == 0 then if Bit(entry, 1) then Leaf else Fault(InvalidPageTableEntry(entry, level))
    else if Bit(entry, 1) then Table
    else if level == 0 then Fault(InvalidPageTableEntry(entry, level))
    else Leaf
  }

  /** The physical address bits of an entry that describes a `2^shift` block. */
  function Frame(t: Translator, entry: nat, shift: nat): nat {
    if shift <= PhysicalBits(t) then Field(entry, shift, PhysicalBits(t)) else 0
  }

  ghost function EntryAddress(t: Translator, table: nat, va: nat, k: nat): nat {
    table + 8 * Index(t, va, k)
  }

  ghost function WalkFrom(t: Translator, m: Memory, table: nat, va: nat, k: nat): Result<Translation>
    decreases k
  {
    match ReadU64(m, EntryAddress(t, table, va, k))
    case Err(e) => Err(e)
    case Ok(entry) =>
      match Classify(t, entry, va, k)
      case Fault(e) => Err(e)
      case Leaf =>
        Ok(Translation(Frame(t, entry, Shift(t, k)) + Low(va, Shift(t, k)), Pow2(Shift(t, k))))
      case Table =>
        if k == 0 then Err(Backend("")) else WalkFrom(t, m, Frame(t, entry, PageShift(t)), va, k - 1)
  }

  ghost function Walk(t: Translator, m: Memory, root: u64, va: u64): Result<Translation>
    requires Accepted(t)
  {
    if !Canonical(va, AddressBits(t)) then Err(NonCanonicalAddress(va, AddressBits(t)))
    else WalkFrom(t, m, Frame(t, root, PageShift(t)), va, Levels(t) - 1)
  }

  // ---------- geometry ----------

  /** The sign bit lies above the shift of the top level, and every level shift
      lies below the physical width. */
  lemma LevelShiftBounds(t: Translator, k: nat)
    requires Accepted(t) && k < Levels(t)
    ensures 12 <= PageShift(t) <= Shift(t, k) < AddressBits(t)
    ensures Shift(t, k) <= PhysicalBits(t)
  {
    ShiftIsLinear(t, k);
  }

  lemma {:induction false} ShiftIsLinear(t: Translator, k: nat)
    ensures Shift(t, k) == PageShift(t) + k * IndexBits(t)
  {
    if k > 0 { ShiftIsLinear(t, k - 1); }
  }

  lemma {:induction false} ShiftMonotone(t: Translator, j: nat, k: nat)
    requires j <= k
    ensures Shift(t, j) <= Shift(t, k)
  {
    if j < k { ShiftMonotone(t, j, k - 1); }
  }

  lemma CanonicalInBlock(va: u64, va': u64, s: nat, bits: nat)
    requires 1 <= bits < 64 && s < bits && Above(va, s) == Above(va', s)
    ensures Canonical(va, bits) <==> Canonical(va', bits)
  {
    SameBlockAbove(va, va', s, bits - 1);
    SameBlockAbove(va, va', s, bits);
  }

  // ---------- uniformity over a block ----------

  /** The number of levels left where a walk ends, by a leaf or by a failure. */
  ghost function StopsAt(t: Translator, m: Memory, table: nat, va: nat, k: nat): (j: nat)
    ensures j <= k
    decreases k
  {
    var entry := ReadU64(m, EntryAddress(t, table, va, k));
    if k > 0 && entry.Ok? && Classify(t, entry.value, va, k).Table?
    then StopsAt(t, m, Frame(t, entry.value, PageShift(t)), va, k - 1)
    else k
  }

  /** The error a walk of `va` reports, with the address it names replaced. */
  function AtAddress(e: VmiError, va: nat): VmiError {
    match e
    case NonCanonicalAddress(_, bits) => NonCanonicalAddress(va, bits)
    case PageNotPresent(_, level) => PageNotPresent(va, level)
    case _ => e
  }

  predicate Relocated(r: Result<Translation>, va: nat, r': Result<Translation>, va': nat) {
    match r
    case Ok(x) =>
      && r'.Ok?
      && r'.value.pageSize == x.pageSize
      && r'.value.physicalAddress + va == x.physicalAddress + va'
    case Err(e) => r' == Err(AtAddress(e, va'))
  }

  lemma SameEntry(t: Translator, table: nat, va: nat, va': nat, s: nat, k: nat)
    requires Above(va, s) == Above(va', s) && s <= Shift(t, k)
    ensures EntryAddress(t, table, va, k) == EntryAddress(t, table, va', k)
    ensures Low(va, Shift(t, k)) + va' == Low(va', Shift(t, k)) + va
  {
    SameBlockAbove(va, va', s, Shift(t, k));
  }

  lemma ClassifyNamesVa(t: Translator, entry: u64, va: nat, va': nat, k: nat)
    ensures match Classify(t, entry, va, k)
      case Fault(e) => Classify(t, entry, va', k) == Fault(AtAddress(e, va'))
      case d => Classify(t, entry, va', k) == d
  {
  }

  /** Everything a walk says, failures included, holds for the whole block at
      whose level it stopped. */
  lemma {:induction false} WalkFromUniform(t: Translator, m: Memory, table: nat, va: nat, va': nat, s: nat, k: nat)
    requires Above(va, s) == Above(va', s)
    requires s <= Shift(t, StopsAt(t, m, table, va, k))
    ensures Relocated(WalkFrom(t, m, table, va, k), va, WalkFrom(t, m, table, va', k), va')
    ensures StopsAt(t, m, table, va', k) == StopsAt(t, m, table, va, k)
    decreases k
  {
    hide Low, Above, Pow2, Shift, Frame, Classify, EntryAddress;
    ShiftMonotone(t, StopsAt(t, m, table, va, k), k);
    SameEntry(t, table, va, va', s, k);
    var r := ReadU64(m, EntryAddress(t, table, va, k));
    if r.Ok? {
      ClassifyNamesVa(t, r.value, va, va', k);
      if k > 0 && Classify(t, r.value, va, k).Table? {
        WalkFromUniform(t, m, Frame(t, r.value, PageShift(t)), va, va', s, k - 1);
      }
    }
  }

  lemma LeafValue(t: Translator, entry: nat, va: nat, s: nat)
    requires s <= PhysicalBits(t)
    ensures var pa := Frame(t, entry, s) + Low(va, s);
      && Low(pa, s) == Low(va, s)
      && pa < Pow2(PhysicalBits(t))
  {
    FieldAligned(entry, s, PhysicalBits(t));
    Rebuild(va, s);
    AlignedPlusOffset(Frame(t, entry, s), Low(va, s), s);
  }

  /** Where a successful walk ends: an entry whose block base is added to the
      untouched low bits of the address. */
  lemma {:induction false} LeafShape(t: Translator, m: Memory, table: nat, va: nat, k: nat)
    requires Accepted(t) && k < Levels(t)
    ensures var r := WalkFrom(t, m, table, va, k);
      var s := Shift(t, StopsAt(t, m, table, va, k));
      r.Ok? ==>
        && r.value.pageSize == Pow2(s)
        && Low(r.value.physicalAddress, s) == Low(va, s)
        && r.value.physicalAddress < Pow2(PhysicalBits(t))
    decreases k
  {
    hide Low, Above, Pow2, Shift, Frame, Classify, ReadU64, EntryAddress;
    var r := ReadU64(m, EntryAddress(t, table, va, k));
    if r.Ok? {
      match Classify(t, r.value, va, k)
      case Fault(_) =>
      case Leaf =>
        LevelShiftBounds(t, k);
        LeafValue(t, r.value, va, Shift(t, k));
      case Table =>
        if k > 0 { LeafShape(t, m, Frame(t, r.value, PageShift(t)), va, k - 1); }
    }
  }

  ghost function StopShift(t: Translator, m: Memory, root: u64, va: u64): nat
    requires Accepted(t)
  {
    Shift(t, StopsAt(t, m, Frame(t, root, PageShift(t)), va, Levels(t) - 1))
  }

  lemma WalkUniform(t: Translator, m: Memory, root: u64, va: u64, va': u64, s: nat)
    requires Accepted(t)
    requires Above(va, s) == Above(va', s) && s <= StopShift(t, m, root, va)
    ensures Relocated(Walk(t, m, root, va), va, Walk(t, m, root, va'), va')
  {
    var n := Levels(t) - 1;
    WalkFromUniform(t, m, Frame(t, root, PageShift(t)), va, va', s, n);
    ShiftMonotone(t, StopsAt(t, m, Frame(t, root, PageShift(t)), va, n), n);
    LevelShiftBounds(t, n);
    CanonicalInBlock(va, va', s, AddressBits(t));
  }

  /** A mapped block is mapped as a whole: every address of the size-aligned
      block walks to the same distance from the block's frame, and the frame is
      aligned like the block. */
  lemma MappedBlockIsUniform(t: Translator, m: Memory, root: u64, va: u64, va': u64)
    requires Accepted(t)
    requires Walk(t, m, root, va).Ok?
    ensures var tr := Walk(t, m, root, va).value;
      && tr.pageSize > 0
      && tr.physicalAddress % tr.pageSize == va % tr.pageSize
      && tr.physicalAddress < U64_LIMIT
      && (va / tr.pageSize == va' / tr.pageSize ==>
           && Walk(t, m, root, va').Ok?
           && Walk(t, m, root, va').value.pageSize == tr.pageSize
           && Walk(t, m, root, va').value.physicalAddress + va == tr.physicalAddress + va')
  {
    var tr, s := Walk(t, m, root, va).value, StopShift(t, m, root, va);
    LeafShape(t, m, Frame(t, root, PageShift(t)), va, Levels(t) - 1);
    ShiftIsDivision(tr.physicalAddress, s);
    ShiftIsDivision(va, s);
    ShiftIsDivision(va', s);
    Pow2Value(PhysicalBits(t));
    if va / tr.pageSize == va' / tr.pageSize { WalkUniform(t, m, root, va, va', s); }
  }

  function PageOf(va: u64): (page: u64)
    ensures page <= va < page + 0x1000 && page % 0x1000 == 0
  {
    va - va % 0x1000
  }

  lemma PageOfSharesBlock(va: u64)
    ensures Above(PageOf(va), 12) == Above(va, 12)
  {
    LowIsMod4096(va);
    LowIsMod4096(PageOf(va));
  }

  /** Walking a page and adding the offset is walking the address: what the
      session's cache relies on.  Errors differ only in the address they name. */
  lemma WalkOfPage(t: Translator, m: Memory, root: u64, va: u64)
    requires Accepted(t)
    ensures Relocated(Walk(t, m, root, va), va, Walk(t, m, root, PageOf(va)), PageOf(va))
    ensures Relocated(Walk(t, m, root, PageOf(va)), PageOf(va), Walk(t, m, root, va), va)
    ensures Walk(t, m, root, va).Ok? ==>
      && Walk(t, m, root, va).value.physicalAddress < 0x10_0000_0000_0000
      && Walk(t, m, root, va).value.physicalAddress % 0x1000 == va % 0x1000
  {
    PageOfSharesBlock(va);
    LevelShiftBounds(t, 0);
    var table, n := Frame(t, root, PageShift(t)), Levels(t) - 1;
    ShiftMonotone(t, 0, StopsAt(t, m, table, va, n));
    ShiftMonotone(t, 0, StopsAt(t, m, table, PageOf(va), n));
    WalkUniform(t, m, root, va, PageOf(va), 12);
    WalkUniform(t, m, root, PageOf(va), va, 12);
    if Walk(t, m, root, va).Ok? {
      LeafShape(t, m, table, va, n);
      var pa, s := Walk(t, m, root, va).value.physicalAddress, StopShift(t, m, root, va);
      Pow2Value(PhysicalBits(t));
      LowAgreesBelow(pa, va, 12, s);
      LowIsMod4096(pa);
      LowIsMod4096(va);
    }
  }

  lemma {:induction false} LowAgreesBelow(x: nat, y: nat, a: nat, s: nat)
    requires a <= s && Low(x, s) == Low(y, s)
    ensures Low(x, a) == Low(y, a)
  {
    if a > 0 { LowAgreesBelow(x / 2, y / 2, a - 1, s - 1); }
  }

  // ---------- the bytes a walk depends on ----------

  ghost function FootprintFrom(t: Translator, m: Memory, table: nat, va: nat, k: nat): set<nat>
    decreases k
  {
    var a := EntryAddress(t, table, va, k);
    var r := ReadU64(m, a);
    Span(a, a + 8) +
    if r.Ok? && Classify(t, r.value, va, k).Table? && k > 0
    then FootprintFrom(t, m, Frame(t, r.value, PageShift(t)), va, k - 1)
    else {}
  }

  /** The bytes of the page-table entries that the walk of `va` reads. */
  ghost function Footprint(t: Translator, m: Memory, root: u64, va: u64): set<nat>
    requires Accepted(t)
  {
    FootprintFrom(t, m, Frame(t, root, PageShift(t)), va, Levels(t) - 1)
  }

  lemma {:induction false} FootprintFrameFrom(
    t: Translator, m: Memory, m': Memory, touched: set<nat>, table: nat, va: nat, k: nat)
    requires SameExcept(m, m', touched)
    requires touched !! FootprintFrom(t, m, table, va, k)
    ensures WalkFrom(t, m', table, va, k) == WalkFrom(t, m, table, va, k)
    ensures FootprintFrom(t, m', table, va, k) == FootprintFrom(t, m, table, va, k)
    decreases k
  {
    hide Low, Above, Pow2, Shift, Frame, Classify, ReadU64, EntryAddress, SameExcept;
    var a := EntryAddress(t, table, va, k);
    ReadU64Frame(m, m', touched, a);
    var r := ReadU64(m, a);
    if r.Ok? && Classify(t, r.value, va, k).Table? && k > 0 {
      FootprintFrameFrom(t, m, m', touched, Frame(t, r.value, PageShift(t)), va, k - 1);
    }
  }

  /** A walk is unaffected by changes outside its footprint. */
  lemma WalkFrame(t: Translator, m: Memory, m': Memory, touched: set<nat>, root: u64, va: u64)
    requires Accepted(t) && SameExcept(m, m', touched)
    requires touched !! Footprint(t, m, root, va)
    ensures Walk(t, m', root, va) == Walk(t, m, root, va)
    ensures Footprint(t, m', root, va) == Footprint(t, m, root, va)
  {
    FootprintFrameFrom(t, m, m', touched, Frame(t, root, PageShift(t)), va, Levels(t) - 1);
  }

  lemma {:induction false} FootprintUniform(t: Translator, m: Memory, table: nat, va: nat, va': nat, s: nat, k: nat)
    requires Above(va, s) == Above(va', s) && s <= PageShift(t)
    ensures FootprintFrom(t, m, table, va, k) == FootprintFrom(t, m, table, va', k)
    decreases k
  {
    ShiftMonotone(t, 0, k);
    SameEntry(t, table, va, va', s, k);
    var r := ReadU64(m, EntryAddress(t, table, va, k));
    if r.Ok? {
      ClassifyNamesVa(t, r.value, va, va', k);
      if k > 0 && Classify(t, r.value, va, k).Table? {
        FootprintUniform(t, m, Frame(t, r.value, PageShift(t)), va, va', s, k - 1);
      }
    }
  }

  lemma FootprintOfPage(t: Translator, m: Memory, root: u64, va: u64)
    requires Accepted(t)
    ensures Footprint(t, m, root, PageOf(va)) == Footprint(t, m, root, va)
  {
    PageOfSharesBlock(va);
    LevelShiftBounds(t, 0);
    FootprintUniform(t, m, Frame(t, root, PageShift(t)), PageOf(va), va, 12, Levels(t) - 1);
  }
}
