/** The AMD64 translators (vmi-arch-amd64) in the form the source gives them: a
    loop over a list of shifts. */
module Amd64Walker {
  import opened Words
  import opened VmiTypes
  import opened PhysicalMemory
  import opened PageWalk
  import opened Backend

  const CACHE_TAG_48: u64 := 0x414d_4436_345f_3438
  const CACHE_TAG_57: u64 := 0x414d_4436_345f_3537

  /** Zero and 64 or more bits are never canonical, as the checked shifts decide. */
  predicate IsCanonical(address: u64, bits: nat) {
    1 <= bits < 64 && Canonical(address, bits)
  }

  function Width(t: Translator): nat
    requires !t.Aarch64?
  {
    if t.Amd64? then 48 else 57
  }

  function Shifts(t: Translator): seq<nat>
    requires !t.Aarch64?
  {
    if t.Amd64? then [39, 30, 21, 12] else [48, 39, 30, 21, 12]
  }

  lemma ShiftsAreLevels(t: Translator, position: nat)
    requires !t.Aarch64? && position < |Shifts(t)|
    ensures |Shifts(t)| == Levels(t)
    ensures Shifts(t)[position] == 12 + 9 * (Levels(t) - 1 - position)
  {
  }

  /** What one entry decides, level by level, as the loop body spells it out. */
  ghost function Decide(t: Translator, m: Memory, entry: u64, va: u64, level: nat): Result<Translation>
    requires 1 <= level
  {
    if !Bit(entry, 0) then Err(PageNotPresent(va, level))
    else if Bit(entry, 7) && level > 3 then Err(InvalidPageTableEntry(entry, level))
    else if level == 3 && Bit(entry, 7) then Ok(Translation(Field(entry, 30, 52) + Low(va, 30), 0x4000_0000))
    else if level == 2 && Bit(entry, 7) then Ok(Translation(Field(entry, 21, 52) + Low(va, 21), 0x20_0000))
    else if level == 1 then
      if Bit(entry, 7) then Err(InvalidPageTableEntry(entry, level))
      else Ok(Translation(Field(entry, 12, 52) + Low(va, 12), 0x1000))
    else WalkFrom(t, m, Field(entry, 12, 52), va, level - 2)
  }

  lemma DecideIsWalk(t: Translator, m: Memory, table: nat, va: u64, level: nat, shift: nat)
    requires !t.Aarch64? && 1 <= level && shift == 12 + 9 * (level - 1)
    ensures var entry := ReadU64(m, table + 8 * Low(Above(va, shift), 9));
      WalkFrom(t, m, table, va, level - 1)
      == if entry.Ok? then Decide(t, m, entry.value, va, level) else Err(entry.error)
  {
    hide Pow2, Above, Low, ReadU64;
    ShiftIsLinear(t, level - 1);
    Pow2Value(shift);
    var k := level - 1;
    assert Shift(t, k) == shift;
    var r := ReadU64(m, EntryAddress(t, table, va, k));
    if r.Ok? {
      var c, d := Classify(t, r.value, va, k), Decide(t, m, r.value, va, level);
      if c.Leaf? {
        assert level == 1 || level == 2 || level == 3;
        assert d == Ok(Translation(Frame(t, r.value, shift) + Low(va, shift), Pow2(shift)));
      }
    }
  }

  lemma EntryInRange(va: u64, shift: nat)
    ensures Low(Above(va, shift), 9) < 0x200
  {
    Rebuild(Above(va, shift), 9);
    var n := 9;
    Pow2Value(n);
  }

  lemma FieldInRange(x: u64)
    ensures 0 <= Field(x, 12, 52) < 0x10_0000_0000_0000
  {
    var n := 52;
    FieldAligned(x, 12, n);
    Pow2Value(n);
  }

  method Translate(memory: Backend, t: Translator, root: u64, va: u64) returns (r: Result<Translation>)
    requires memory.Valid() && !t.Aarch64?
    ensures r == Walk(t, memory.View(), root, va)
  {
    r := TranslateLevels(memory, root, va, Width(t), Shifts(t), t, Walk(t, memory.View(), root, va));
  }

  /** The loop over the list of shifts.  Its checked arithmetic never fails and
      its final error, for an empty list, is never reached. */
  method TranslateLevels(memory: Backend, root: u64, va: u64, addressBits: nat, shifts: seq<nat>,
                         ghost t: Translator, ghost walk: Result<Translation>)
    returns (r: Result<Translation>)
    requires memory.Valid() && !t.Aarch64?
    requires shifts == Shifts(t) && addressBits == Width(t)
    requires walk ==
      if IsCanonical(va, addressBits) then WalkFrom(t, memory.View(), Field(root, 12, 52), va, |shifts| - 1)
      else Err(NonCanonicalAddress(va, addressBits))
    ensures r == walk
  {
    hide Pow2, Above, Low, WalkFrom, ReadU64, Frame;
    if !IsCanonical(va, addressBits) { return Err(NonCanonicalAddress(va, addressBits)); }
    ghost var m, n := memory.View(), |shifts|;
    FieldInRange(root);
    ShiftsAreLevels(t, 0);
    var table: nat := Field(root, 12, 52);
    var position := 0;
    while position < |shifts|
      invariant position < |shifts| && table < 0x10_0000_0000_0000
      invariant walk == WalkFrom(t, m, table, va, n - 1 - position)
    {
      ShiftsAreLevels(t, position);
      var level := |shifts| - position;
      var shift := shifts[position];
      DecideIsWalk(t, m, table, va, level, shift);
      EntryInRange(va, shift);
      var index := Low(Above(va, shift), 9);
      var entry :- memory.ReadScalarU64(table + 8 * index);
      if !Bit(entry, 0) { return Err(PageNotPresent(va, level)); }
      if Bit(entry, 7) && level > 3 { return Err(InvalidPageTableEntry(entry, level)); }
      if level == 3 && Bit(entry, 7) {
        return Ok(Translation(Field(entry, 30, 52) + Low(va, 30), 0x4000_0000));
      }
      if level == 2 && Bit(entry, 7) {
        return Ok(Translation(Field(entry, 21, 52) + Low(va, 21), 0x20_0000));
      }
      if level == 1 {
        if Bit(entry, 7) { return Err(InvalidPageTableEntry(entry, level)); }
        return Ok(Translation(Field(entry, 12, 52) + Low(va, 12), 0x1000));
      }
      FieldInRange(entry);
      table := Field(entry, 12, 52);
      position := position + 1;
    }
    assert false;
  }
}
