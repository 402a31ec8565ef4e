/** The `AddressTranslator` interface over the three translators: dispatch, the
    cache tag, and two laws that hold across their page-table formats. */
module Translators {
  import opened Words
  import opened VmiTypes
  import opened PhysicalMemory
  import opened PageWalk
  import opened Backend
  import opened BitMasks
  import Amd64Walker
  import Aarch64Walker

  method Translate(t: Translator, memory: Backend, root: u64, va: u64) returns (r: Result<Translation>)
    requires memory.Valid() && Accepted(t)
    ensures r == Walk(t, memory.View(), root, va)
  {
    if t.Aarch64? {
      r := Aarch64Walker.Translate(memory, t, root, va);
    } else {
      r := Amd64Walker.Translate(memory, t, root, va);
    }
  }

  function CacheTag(t: Translator): u64
    requires Accepted(t)
  {
    match t
    case Amd64 => Amd64Walker.CACHE_TAG_48
    case Amd64La57 => Amd64Walker.CACHE_TAG_57
    case Aarch64(granule, bits) => 0x4136_3400_0000_0000 + granule.Kilobytes() * 0x100 + bits
  }

  /** Translators of different kinds or configurations never share cache entries. */
  lemma CacheTagInjective(t: Translator, t': Translator)
    requires Accepted(t) && Accepted(t')
    ensures CacheTag(t) == CacheTag(t') <==> t == t'
  {
  }

  /** The AArch64 tag is the granule and the width joined to a fixed prefix. */
  lemma CacheTagIsJoined(granule: Granule, bits: nat)
    requires Accepted(Aarch64(granule, bits))
    ensures CacheTag(Aarch64(granule, bits)) ==
      Or(Or(0x4136_3400_0000_0000, Shl(match granule case KiB4 => 4 case KiB16 => 16 case KiB64 => 64, 8)), bits)
  {
    hide Or, Shl;
    var kilobytes, n := granule.Kilobytes(), 8;
    ShlIsTimes(kilobytes, n);
    Pow2Plus4(n - 4);
    Pow2Plus4(n - 8);
    TagIsSum(kilobytes, bits);
  }

  // ---------- an address is its digits ----------

  /** The table indices of `va`, last level first. */
  function Digits(t: Translator, va: u64): seq<nat>
    requires Accepted(t)
  {
    seq(Levels(t), k requires 0 <= k < Levels(t) => Index(t, va, k))
  }

  lemma DigitsAreIndices(t: Translator, va: u64)
    requires Accepted(t)
    ensures |Digits(t, va)| == Levels(t)
    ensures forall k | 0 <= k < |Digits(t, va)| :: Digits(t, va)[k] == Index(t, va, k)
  {
  }

  function Assemble(t: Translator, digits: seq<nat>, offset: nat): nat
    decreases |digits|
  {
    var k := |digits| - 1;
    if k < 0 then offset else Assemble(t, digits[..k], offset) + Shl(digits[k], Shift(t, k))
  }

  lemma {:induction false} AssembleDigits(t: Translator, va: u64, digits: seq<nat>)
    requires forall k | 0 <= k < |digits| :: digits[k] == Index(t, va, k)
    ensures Assemble(t, digits, Low(va, PageShift(t))) == Low(va, Shift(t, |digits|))
    decreases |digits|
  {
    var k := |digits| - 1;
    if k >= 0 {
      AssembleDigits(t, va, digits[..k]);
      LowSplit(va, Shift(t, k), IndexBits(t));
    }
  }

  lemma DigitsReach(t: Translator)
    requires Accepted(t)
    ensures AddressBits(t) <= Shift(t, Levels(t))
  {
    ShiftIsLinear(t, Levels(t));
  }

  /** A canonical address is recovered from its table indices and page offset by
      assembling and sign-extending them, so no two canonical addresses take the
      same path through the tables to the same byte. */
  lemma CanonicalAddressIsItsDigits(t: Translator, va: u64)
    requires Accepted(t)
    ensures Canonical(va, AddressBits(t)) <==>
      SignExtend(Assemble(t, Digits(t, va), Low(va, PageShift(t))), AddressBits(t)) == va
  {
    hide Assemble, Digits, Low, Above, Pow2, Shift;
    var bits, n := AddressBits(t), Shift(t, Levels(t));
    DigitsAreIndices(t, va);
    AssembleDigits(t, va, Digits(t, va));
    DigitsReach(t);
    LowOfLow(va, n, bits);
  }

  // ---------- five levels over four ----------

  lemma {:induction false} SameWalkBelow(m: Memory, table: nat, va: nat, k: nat)
    ensures WalkFrom(Amd64La57, m, table, va, k) == WalkFrom(Amd64, m, table, va, k)
    decreases k
  {
    hide Pow2, Above, Low, ReadU64;
    ShiftIsLinear(Amd64, k);
    ShiftIsLinear(Amd64La57, k);
    var r := ReadU64(m, EntryAddress(Amd64, table, va, k));
    if k > 0 && r.Ok? && Classify(Amd64, r.value, va, k).Table? {
      SameWalkBelow(m, Frame(Amd64, r.value, 12), va, k - 1);
    }
  }

  /** A 48-bit canonical address is 57-bit canonical and selects the first or the
      last entry of the top table. */
  lemma ExtendedTopIndex(va: u64, n: nat)
    requires n == 48 && Canonical(va, n)
    ensures Canonical(va, n + 9)
    ensures Low(Above(va, n), 9) == if Bit(va, n - 1) then 511 else 0
  {
    Rebuild(va, n);
    Pow2Value(n);
    if Bit(va, n - 1) {
      ShlIsTimes(0xffff, n);
      RebuildUnique(va, n, 0xffff, Low(va, n));
      AboveTwice(va, n, 8);
      assert Above(0xffff, 8) == 0xff && Low(0xffff, 9) == 0x1ff;
      ShlIsTimes(0x1ff, n);
    } else {
      ShlIsTimes(0, n);
      RebuildUnique(va, n, 0, va);
      AboveTwice(va, n, 8);
      assert Above(0, 8) == 0 && Low(0, 9) == 0;
      ShlIsTimes(0, n);
    }
    LowSplit(va, n, 9);
    var w := n + 9;
    assert Pow2(w) == 0x200 * Pow2(n) by { Pow2Plus4(n); Pow2Plus4(n + 4); }
  }

  /** Where both end slots of the five-level root point at the four-level root,
      the two translators agree on every 48-bit canonical address. */
  lemma La57ExtendsAmd64(m: Memory, root5: u64, root4: u64, va: u64)
    requires Canonical(va, 48)
    requires forall slot | slot == 0 || slot == 511 ::
      var entry := ReadU64(m, Frame(Amd64La57, root5, 12) + 8 * slot);
      && entry.Ok? && Bit(entry.value, 0) && !Bit(entry.value, 7)
      && Frame(Amd64La57, entry.value, 12) == Frame(Amd64, root4, 12)
    ensures Walk(Amd64La57, m, root5, va) == Walk(Amd64, m, root4, va)
  {
    hide Pow2, Above, Low, ReadU64, Canonical;
    ShiftIsLinear(Amd64La57, 4);
    ExtendedTopIndex(va, 48);
    SameWalkBelow(m, Frame(Amd64, root4, 12), va, 3);
  }
}
