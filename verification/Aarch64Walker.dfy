/** The AArch64 translator (vmi-arch-aarch64): granule and width are run-time
    parameters, so every shift is computed. */
module Aarch64Walker {
  import opened Words
  import opened VmiTypes
  import opened PhysicalMemory
  import opened PageWalk
  import opened Backend

  /** `Aarch64Translator::new`.  The granule's own maximum never fails to be
      representable, so the source's overflow branch is not reachable. */
  function New(granule: Granule, addressBits: nat): (r: Result<Translator>)
    ensures r.Ok? <==> Accepted(Aarch64(granule, addressBits))
    ensures r.Ok? ==> r.value == Aarch64(granule, addressBits)
  {
    var maximumBits := granule.PageShift() + granule.IndexBits() * granule.MaximumLevels();
    if addressBits <= granule.PageShift() || addressBits > maximumBits || addressBits > 48
    then Err(Backend("invalid AArch64 address size"))
    else Ok(Aarch64(granule, addressBits))
  }

  /** What one entry decides at a level, as the loop body spells it out. */
  ghost function Decide(t: Translator, m: Memory, entry: u64, va: u64, level: nat, last: bool, shift: nat, k: nat):
    Result<Translation>
    requires PageShift(t) <= 48 && shift <= 48
  {
    if !Bit(entry, 0) then Err(PageNotPresent(va, level))
    else if last then
      if !Bit(entry, 1) then Err(InvalidPageTableEntry(entry, level))
      else Ok(Translation(Field(entry, PageShift(t), 48) + Low(va, PageShift(t)), Pow2(PageShift(t))))
    else if Bit(entry, 1) && k > 0 then WalkFrom(t, m, Field(entry, PageShift(t), 48), va, k - 1)
    else if level == 0 then Err(InvalidPageTableEntry(entry, level))
    else Ok(Translation(Field(entry, shift, 48) + Low(va, shift), Pow2(shift)))
  }

  /** What the checked operations of the loop compute, for an accepted width, with
      `k` levels below the one at hand: no 8-bit product, sum or difference and no
      64-bit address leaves its range. */
  lemma LoopInRange(t: Translator, k: nat, table: nat, va: u64)
    requires t.Aarch64? && Accepted(t) && k < Levels(t) && table < 0x1_0000_0000_0000
    ensures var (g, levels) := (t.granule, Levels(t));
      && g.PageShift() + g.IndexBits() * g.MaximumLevels() < 0x100
      && t.bits - g.PageShift() + g.IndexBits() - 1 < 0x100
      && 1 <= levels <= 4 && 0 <= 4 - levels && 4 - levels + (levels - 1 - k) == 3 - k <= 3
      && k * g.IndexBits() < 0x100 && g.PageShift() + k * g.IndexBits() < t.bits <= 48
      && Pow2(g.PageShift() + k * g.IndexBits()) <= 0x1_0000_0000_0000
      && 8 * Low(Above(va, g.PageShift() + k * g.IndexBits()), g.IndexBits()) < 0x1_0000
      && table + 8 * Low(Above(va, g.PageShift() + k * g.IndexBits()), g.IndexBits()) < U64_LIMIT
  {
    hide Pow2, Above, Low;
    var shift, width := t.granule.PageShift() + k * t.granule.IndexBits(), 48;
    LevelShiftBounds(t, k);
    ShiftIsLinear(t, k);
    Pow2Monotone(shift, width);
    Pow2Value(width);
    IndexInRange(t.granule, va, shift);
  }

  lemma DecideIsWalk(t: Translator, m: Memory, table: nat, va: u64, k: nat, level: nat, shift: nat)
    requires t.Aarch64? && Accepted(t) && k < Levels(t) && level == 3 - k
    requires shift == t.granule.PageShift() + k * t.granule.IndexBits()
    ensures shift < t.bits <= 48
    ensures var entry := ReadU64(m, table + 8 * Low(Above(va, shift), t.granule.IndexBits()));
      WalkFrom(t, m, table, va, k)
      == if entry.Ok? then Decide(t, m, entry.value, va, level, k == 0, shift, k) else Err(entry.error)
  {
    hide Pow2, Above, Low, ReadU64;
    ShiftIsLinear(t, k);
    LevelShiftBounds(t, k);
    var r := ReadU64(m, EntryAddress(t, table, va, k));
    if r.Ok? {
      var c, d := Classify(t, r.value, va, k), Decide(t, m, r.value, va, level, k == 0, shift, k);
      if c.Leaf? { assert d == Ok(Translation(Frame(t, r.value, shift) + Low(va, shift), Pow2(shift))); }
    }
  }

  lemma TableInRange(x: u64, pageShift: nat)
    requires pageShift <= 48
    ensures 0 <= Field(x, pageShift, 48) < 0x1_0000_0000_0000
  {
    hide Above, Low;
    var n := 48;
    FieldAligned(x, pageShift, n);
    Pow2Value(n);
  }

  lemma IndexInRange(g: Granule, va: u64, shift: nat)
    ensures Low(Above(va, shift), g.IndexBits()) < 0x2000
  {
    hide Above, Low;
    var n := 13;
    Rebuild(Above(va, shift), g.IndexBits());
    Pow2Monotone(g.IndexBits(), n);
    Pow2Value(n);
  }

  method Translate(memory: Backend, t: Translator, root: u64, va: u64) returns (r: Result<Translation>)
    requires memory.Valid() && t.Aarch64? && Accepted(t)
    ensures r == Walk(t, memory.View(), root, va)
  {
    LevelShiftBounds(t, 0);
    r := TranslateLevels(memory, t, root, va, Walk(t, memory.View(), root, va));
  }

  /** Every checked operation of the source's loop stays in range for an accepted
      width: no overflow or underflow branch, nor the error after the loop, is
      ever taken. */
  method TranslateLevels(memory: Backend, t: Translator, root: u64, va: u64, ghost walk: Result<Translation>)
    returns (r: Result<Translation>)
    requires memory.Valid() && t.Aarch64? && Accepted(t)
    requires PageShift(t) == t.granule.PageShift() <= 48 && 1 <= t.bits < 64
    requires walk ==
      if Canonical(va, t.bits) then WalkFrom(t, memory.View(), Field(root, t.granule.PageShift(), 48), va, Levels(t) - 1)
      else Err(NonCanonicalAddress(va, t.bits))
    ensures r == walk
  {
    hide Pow2, Above, Low, WalkFrom, ReadU64, Frame;
    if !Canonical(va, t.bits) { return Err(NonCanonicalAddress(va, t.bits)); }
    ghost var m := memory.View();
    var pageShift, indexBits := t.granule.PageShift(), t.granule.IndexBits();
    var levelCount := Levels(t);
    var firstLevel := 4 - levelCount;
    TableInRange(root, pageShift);
    var table: nat := Field(root, pageShift, 48);
    var ordinal := 0;
    while ordinal < levelCount
      invariant ordinal < levelCount && 0 <= table < 0x1_0000_0000_0000
      invariant walk == WalkFrom(t, m, table, va, levelCount - 1 - ordinal)
    {
      var level := firstLevel + ordinal;
      var remainingLevels := levelCount - ordinal - 1;
      var entryShift := pageShift + remainingLevels * indexBits;
      DecideIsWalk(t, m, table, va, remainingLevels, level, entryShift);
      IndexInRange(t.granule, va, entryShift);
      var index := Low(Above(va, entryShift), indexBits);
      var entry :- memory.ReadScalarU64(table + 8 * index);
      if !Bit(entry, 0) { return Err(PageNotPresent(va, level)); }
      var tableOrPage := Bit(entry, 1);
      var last := ordinal + 1 == levelCount;
      if last {
        if !tableOrPage { return Err(InvalidPageTableEntry(entry, level)); }
        return Ok(Translation(Field(entry, pageShift, 48) + Low(va, pageShift), Pow2(pageShift)));
      }
      if tableOrPage {
        TableInRange(entry, pageShift);
        table := Field(entry, pageShift, 48);
        ordinal := ordinal + 1;
        continue;
      }
      if level == 0 { return Err(InvalidPageTableEntry(entry, level)); }
      return Ok(Translation(Field(entry, entryShift, 48) + Low(va, entryShift), Pow2(entryShift)));
    }
    assert false;
  }
}
