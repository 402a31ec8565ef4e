/** What a page walk is, entry by entry: where each entry is, which of its bits let
    the walk pass, and which end it at which level.  Stated with words of memory and
    bits of entries alone, and proved of `Walk` in both directions. */
module WalkMeaning {
  import opened Words
  import opened VmiTypes
  import opened PhysicalMemory
  import opened PageWalk

  /** Pages of `2^page` bytes, `index` address bits a level, and entries that hold
      the bits from `page` up to `width` of a physical address. */
  datatype Format = Format(page: nat, index: nat, width: nat)

  function FormatOf(t: Translator): (f: Format)
    ensures f.page <= f.width
  {
    match t
    case Aarch64(KiB4, _) => Format(12, 9, 48)
    case Aarch64(KiB16, _) => Format(14, 11, 48)
    case Aarch64(KiB64, _) => Format(16, 13, 48)
    case _ => Format(12, 9, 52)
  }

  /** A table fills one page, which for AArch64 is one granule. */
  lemma TableFillsPage(t: Translator)
    ensures 8 * Pow2(FormatOf(t).index) == Pow2(FormatOf(t).page)
    ensures Pow2(FormatOf(t).page) == if t.Aarch64? then 0x400 * t.granule.Kilobytes() else 0x1000
    ensures FormatOf(t) == Format(PageShift(t), IndexBits(t), PhysicalBits(t))
  {
    var index := FormatOf(t).index;
    assert Pow2(index + 3) == 8 * Pow2(index);
    var n := 12;
    Pow2Value(n);
    assert Pow2(n + 2) == 4 * Pow2(n) && Pow2(n + 4) == 4 * Pow2(n + 2);
  }

  /** How many levels there are: four, five, or the least number whose indices and
      page offset cover the address. */
  predicate Deep(t: Translator, levels: nat) {
    match t
    case Amd64 => levels == 4
    case Amd64La57 => levels == 5
    case Aarch64(_, bits) =>
      var f := FormatOf(t);
      levels > 0 && f.page + (levels - 1) * f.index < bits <= f.page + levels * f.index
  }

  lemma DeepIsLevels(t: Translator, levels: nat)
    requires Accepted(t)
    ensures Deep(t, levels) <==> levels == Levels(t)
  {
    if t.Aarch64? {
      var f, bits := FormatOf(t), t.bits;
      var n := Levels(t);
      assert f.index == t.granule.IndexBits() && f.page == t.granule.PageShift();
      assert Deep(t, n);
      if Deep(t, levels) && levels != n {
        if levels < n { LessTimes(levels, n - 1, f.index); } else { LessTimes(n, levels - 1, f.index); }
        assert false;
      }
    }
  }

  lemma LessTimes(a: nat, b: nat, k: nat)
    requires a <= b
    ensures a * k <= b * k
  {
  }

  /** Which AArch64 widths are accepted: those above the page offset, up to 48; the most
      that the levels of a granule can index never decides. */
  lemma AcceptedExactly(granule: Granule, bits: nat)
    ensures Accepted(Aarch64(granule, bits)) <==> FormatOf(Aarch64(granule, bits)).page < bits <= 48
  {
  }

  // ---------- where an entry is ----------

  /** The table that entry `i` is in: the root's, or the one its predecessor names. */
  function TableAt(f: Format, root: u64, passed: seq<u64>, i: nat): nat
    requires f.page <= f.width && i <= |passed|
  {
    Field(if i == 0 then root else passed[i - 1], f.page, f.width)
  }

  /** Lowest address bit of the index of a level that has `below` levels below it. */
  function Lowest(f: Format, below: nat): nat { f.page + below * f.index }

  ghost function EntryOf(f: Format, m: Memory, root: u64, va: u64, levels: nat, passed: seq<u64>, i: nat): Result<u64>
    requires f.page <= f.width && i <= |passed| && i < levels
  {
    ReadU64(m, TableAt(f, root, passed, i) + 8 * Low(Above(va, Lowest(f, levels - 1 - i)), f.index))
  }

  /** A walk passes a present entry that names a table: bit 7 clear on AMD64, bit 1
      set on AArch64. */
  predicate Passable(t: Translator, entry: u64) {
    Bit(entry, 0) && if t.Aarch64? then Bit(entry, 1) else !Bit(entry, 7)
  }

  ghost predicate Descends(t: Translator, m: Memory, root: u64, va: u64, levels: nat, passed: seq<u64>) {
    |passed| < levels &&
    forall i | 0 <= i < |passed| ::
      EntryOf(FormatOf(t), m, root, va, levels, passed, i) == Ok(passed[i]) && Passable(t, passed[i])
  }

  // ---------- what ends a walk ----------

  /** AMD64: bit 7 is an error at levels 1, 4 and 5, and ends the walk at 2 and 3. */
  predicate EndsAmd64(va: u64, level: nat, entry: Result<u64>, r: Result<Translation>) {
    match entry
    case Err(e) => r == Err(e)
    case Ok(e) =>
      if !Bit(e, 0) then r == Err(PageNotPresent(va, level))
      else if Bit(e, 7) then
        r == if level == 2 then Ok(Translation(Field(e, 21, 52) + Low(va, 21), 0x20_0000))
             else if level == 3 then Ok(Translation(Field(e, 30, 52) + Low(va, 30), 0x4000_0000))
             else Err(InvalidPageTableEntry(e, level))
      else level == 1 && r == Ok(Translation(Field(e, 12, 52) + Low(va, 12), 0x1000))
  }

  /** AArch64: at level 3 bit 1 makes a page and its absence is an error; above, an
      entry without bit 1 is a block, except at level 0. */
  predicate EndsAarch64(f: Format, va: u64, level: nat, below: nat, entry: Result<u64>, r: Result<Translation>)
    requires Lowest(f, below) <= f.width
  {
    match entry
    case Err(e) => r == Err(e)
    case Ok(e) =>
      var shift := Lowest(f, below);
      var block := Translation(Field(e, shift, f.width) + Low(va, shift), Pow2(shift));
      if !Bit(e, 0) then r == Err(PageNotPresent(va, level))
      else if level == 3 then r == if Bit(e, 1) then Ok(block) else Err(InvalidPageTableEntry(e, level))
      else !Bit(e, 1) && r == if level == 0 then Err(InvalidPageTableEntry(e, level)) else Ok(block)
  }

  // ---------- the walk follows the entries ----------

  lemma SameEntryAddress(t: Translator, m: Memory, root: u64, va: u64, passed: seq<u64>, i: nat)
    requires Accepted(t) && i <= |passed| && i < Levels(t)
    ensures EntryOf(FormatOf(t), m, root, va, Levels(t), passed, i)
      == ReadU64(m, EntryAddress(t, TableAt(FormatOf(t), root, passed, i), va, Levels(t) - 1 - i))
  {
    hide Pow2, Low, Above, ReadU64, TableAt;
    ShiftIsLinear(t, Levels(t) - 1 - i);
  }

  lemma FrameOfTable(t: Translator, entry: u64)
    ensures Frame(t, entry, PageShift(t)) == Field(entry, FormatOf(t).page, FormatOf(t).width)
  {
  }

  lemma PassableIsTable(t: Translator, entry: u64, va: u64, k: nat)
    requires Accepted(t) && k < Levels(t)
    ensures k > 0 ==> (Passable(t, entry) <==> Classify(t, entry, va, k).Table?)
    ensures k == 0 ==> !Classify(t, entry, va, k).Table?
  {
  }

  /** Having passed the entries, the walk goes on at the table of the next. */
  lemma {:induction false} WalkAfter(t: Translator, m: Memory, root: u64, va: u64, passed: seq<u64>, i: nat)
    requires Accepted(t) && Descends(t, m, root, va, Levels(t), passed) && i <= |passed|
    ensures WalkFrom(t, m, Frame(t, root, PageShift(t)), va, Levels(t) - 1)
      == WalkFrom(t, m, TableAt(FormatOf(t), root, passed, i), va, Levels(t) - 1 - i)
  {
    hide Pow2, Low, Above, ReadU64, EntryOf, Classify, Passable;
    if i == 0 {
      FrameOfTable(t, root);
    } else {
      var k := Levels(t) - i;
      WalkAfter(t, m, root, va, passed, i - 1);
      SameEntryAddress(t, m, root, va, passed, i - 1);
      PassableIsTable(t, passed[i - 1], va, k);
      FrameOfTable(t, passed[i - 1]);
    }
  }

  /** Passing entries as long as there is one to pass. */
  lemma {:induction false} PassAll(t: Translator, m: Memory, root: u64, va: u64, before: seq<u64>) returns (passed: seq<u64>)
    requires Accepted(t) && Descends(t, m, root, va, Levels(t), before)
    ensures Descends(t, m, root, va, Levels(t), passed)
    ensures var next := EntryOf(FormatOf(t), m, root, va, Levels(t), passed, |passed|);
      next.Ok? && Passable(t, next.value) ==> |passed| == Levels(t) - 1
    decreases Levels(t) - |before|
  {
    hide Pow2, Low, Above, ReadU64, Passable;
    var f := FormatOf(t);
    var next := EntryOf(f, m, root, va, Levels(t), before, |before|);
    if next.Ok? && Passable(t, next.value) && |before| < Levels(t) - 1 {
      var more := before + [next.value];
      forall i | 0 <= i < |more|
        ensures EntryOf(f, m, root, va, Levels(t), more, i) == Ok(more[i]) && Passable(t, more[i])
      {
        assert TableAt(f, root, more, i) == TableAt(f, root, before, i);
        if i < |before| { assert EntryOf(f, m, root, va, Levels(t), before, i) == Ok(before[i]); }
      }
      passed := PassAll(t, m, root, va, more);
    } else {
      passed := before;
    }
  }

  // ---------- AMD64 ----------

  ghost predicate WalksAmd64(t: Translator, m: Memory, root: u64, va: u64, passed: seq<u64>, r: Result<Translation>)
    requires !t.Aarch64?
  {
    var levels := if t.Amd64? then 4 else 5;
    Descends(t, m, root, va, levels, passed) &&
    EndsAmd64(va, levels - |passed|, EntryOf(FormatOf(t), m, root, va, levels, passed, |passed|), r)
  }

  lemma LastStepAmd64(t: Translator, m: Memory, table: nat, va: u64, k: nat, r: Result<Translation>)
    requires !t.Aarch64? && k < Levels(t)
    ensures var entry := ReadU64(m, EntryAddress(t, table, va, k));
      && (EndsAmd64(va, k + 1, entry, r) ==> r == WalkFrom(t, m, table, va, k))
      && ((entry.Ok? && Passable(t, entry.value) ==> k == 0) ==> EndsAmd64(va, k + 1, entry, WalkFrom(t, m, table, va, k)))
  {
    hide Pow2, Low, Above, ReadU64;
    var shift := Shift(t, k);
    ShiftIsLinear(t, k);
    Pow2Value(shift);
  }

  /** The AMD64 walk, for both widths, errors included: the address is canonical,
      present entries with bit 7 clear are passed from the root's table down, and the
      first other entry, or the one at level 1, decides. */
  lemma Amd64WalkExact(t: Translator, m: Memory, root: u64, va: u64, r: Result<Translation>)
    requires !t.Aarch64?
    ensures var bits := if t.Amd64? then 48 else 57;
      Walk(t, m, root, va) == r <==>
        if !Canonical(va, bits) then r == Err(NonCanonicalAddress(va, bits))
        else exists passed :: WalksAmd64(t, m, root, va, passed, r)
  {
    hide Pow2, Low, Above, ReadU64, Canonical, Passable, Descends, EndsAmd64, EntryOf, TableAt, WalkFrom, Frame;
    forall passed: seq<u64> | WalksAmd64(t, m, root, va, passed, r) && Canonical(va, AddressBits(t))
      ensures Walk(t, m, root, va) == r
    {
      PassedAmd64(t, m, root, va, passed, r);
    }
    if Canonical(va, AddressBits(t)) && Walk(t, m, root, va) == r {
      var none: seq<u64> := [];
      assert Descends(t, m, root, va, Levels(t), none) by { DescendsNothing(t, m, root, va); }
      var passed := PassAll(t, m, root, va, none);
      PassedAmd64(t, m, root, va, passed, r);
      assert WalksAmd64(t, m, root, va, passed, r);
    }
  }

  lemma DescendsNothing(t: Translator, m: Memory, root: u64, va: u64)
    requires Accepted(t)
    ensures Descends(t, m, root, va, Levels(t), [])
  {
  }

  lemma DescendsWithin(t: Translator, m: Memory, root: u64, va: u64, levels: nat, passed: seq<u64>)
    requires Descends(t, m, root, va, levels, passed)
    ensures |passed| < levels
  {
  }

  lemma PassedAmd64(t: Translator, m: Memory, root: u64, va: u64, passed: seq<u64>, r: Result<Translation>)
    requires !t.Aarch64? && Descends(t, m, root, va, Levels(t), passed)
    ensures |passed| < Levels(t)
    ensures var entry := EntryOf(FormatOf(t), m, root, va, Levels(t), passed, |passed|);
      var walk := WalkFrom(t, m, Frame(t, root, PageShift(t)), va, Levels(t) - 1);
      && (EndsAmd64(va, Levels(t) - |passed|, entry, r) ==> r == walk)
      && ((entry.Ok? && Passable(t, entry.value) ==> |passed| == Levels(t) - 1) ==>
           EndsAmd64(va, Levels(t) - |passed|, entry, walk))
  {
    hide Pow2, Low, Above, ReadU64, Passable, Descends, EndsAmd64, EntryOf, TableAt, WalkFrom, Frame;
    var n := |passed|;
    DescendsWithin(t, m, root, va, Levels(t), passed);
    WalkAfter(t, m, root, va, passed, n);
    SameEntryAddress(t, m, root, va, passed, n);
    LastStepAmd64(t, m, TableAt(FormatOf(t), root, passed, n), va, Levels(t) - 1 - n, r);
  }

  // ---------- AArch64 ----------

  ghost predicate WalksAarch64(
    t: Translator, m: Memory, root: u64, va: u64, levels: nat, passed: seq<u64>, r: Result<Translation>)
    requires t.Aarch64? && Accepted(t) && Deep(t, levels)
  {
    DeepIsLevels(t, levels);
    && Descends(t, m, root, va, levels, passed)
    && var below := levels - 1 - |passed|;
       BlockFits(t, below);
       EndsAarch64(FormatOf(t), va, 3 - below, below, EntryOf(FormatOf(t), m, root, va, levels, passed, |passed|), r)
  }

  lemma BlockFits(t: Translator, below: nat)
    requires t.Aarch64? && Accepted(t) && below < Levels(t)
    ensures below <= 3 && Lowest(FormatOf(t), below) <= FormatOf(t).width
  {
    LevelShiftBounds(t, below);
    ShiftIsLinear(t, below);
  }

  lemma LastStepAarch64(t: Translator, m: Memory, table: nat, va: u64, k: nat, r: Result<Translation>)
    requires t.Aarch64? && Accepted(t) && k < Levels(t)
    ensures k <= 3 && Lowest(FormatOf(t), k) <= FormatOf(t).width
    ensures var entry := ReadU64(m, EntryAddress(t, table, va, k));
      && (EndsAarch64(FormatOf(t), va, 3 - k, k, entry, r) ==> r == WalkFrom(t, m, table, va, k))
      && ((entry.Ok? && Passable(t, entry.value) ==> k == 0) ==>
           EndsAarch64(FormatOf(t), va, 3 - k, k, entry, WalkFrom(t, m, table, va, k)))
  {
    hide Pow2, Low, Above, ReadU64;
    BlockFits(t, k);
    ShiftIsLinear(t, k);
  }

  lemma PassedAarch64(t: Translator, m: Memory, root: u64, va: u64, passed: seq<u64>, r: Result<Translation>)
    requires t.Aarch64? && Accepted(t) && Descends(t, m, root, va, Levels(t), passed)
    ensures |passed| < Levels(t)
    ensures var below := Levels(t) - 1 - |passed|;
      && below <= 3 && Lowest(FormatOf(t), below) <= FormatOf(t).width
      && var entry := EntryOf(FormatOf(t), m, root, va, Levels(t), passed, |passed|);
         var walk := WalkFrom(t, m, Frame(t, root, PageShift(t)), va, Levels(t) - 1);
         && (EndsAarch64(FormatOf(t), va, 3 - below, below, entry, r) ==> r == walk)
         && ((entry.Ok? && Passable(t, entry.value) ==> below == 0) ==>
              EndsAarch64(FormatOf(t), va, 3 - below, below, entry, walk))
  {
    hide Pow2, Low, Above, ReadU64, Passable, Descends, EndsAarch64, EntryOf, TableAt, WalkFrom, Frame;
    var n := |passed|;
    DescendsWithin(t, m, root, va, Levels(t), passed);
    WalkAfter(t, m, root, va, passed, n);
    SameEntryAddress(t, m, root, va, passed, n);
    LastStepAarch64(t, m, TableAt(FormatOf(t), root, passed, n), va, Levels(t) - 1 - n, r);
  }

  /** The AArch64 walk of every accepted granule and width, errors included: valid
      entries with bit 1 set are passed from the root's table down, each table filling
      one granule, and the first other entry, or the one at level 3, decides. */
  lemma Aarch64WalkExact(t: Translator, m: Memory, root: u64, va: u64, levels: nat, r: Result<Translation>)
    requires t.Aarch64? && Accepted(t) && Deep(t, levels)
    ensures Walk(t, m, root, va) == r <==>
      if !Canonical(va, t.bits) then r == Err(NonCanonicalAddress(va, t.bits))
      else exists passed :: WalksAarch64(t, m, root, va, levels, passed, r)
  {
    hide Pow2, Low, Above, ReadU64, Canonical, Passable, Descends, EndsAarch64, EntryOf, TableAt, WalkFrom, Frame, Deep;
    DeepIsLevels(t, levels);
    forall passed: seq<u64> | WalksAarch64(t, m, root, va, levels, passed, r) && Canonical(va, t.bits)
      ensures Walk(t, m, root, va) == r
    {
      PassedAarch64(t, m, root, va, passed, r);
    }
    if Canonical(va, t.bits) && Walk(t, m, root, va) == r {
      var none: seq<u64> := [];
      assert Descends(t, m, root, va, Levels(t), none) by { DescendsNothing(t, m, root, va); }
      var passed := PassAll(t, m, root, va, none);
      PassedAarch64(t, m, root, va, passed, r);
      assert WalksAarch64(t, m, root, va, levels, passed, r);
    }
  }
}
