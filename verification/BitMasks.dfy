/** The bitwise operators of the source, defined bit by bit, and the arithmetic that
    stands for them elsewhere in this project: a mask of the low bits is `Low`, a
    mask of the bits `lo..hi` is `Field`, and joining disjoint fields is a sum. */
module BitMasks {
  import opened Words
  import PageWalk

  /** `x & y` */
  function And(x: nat, y: nat): (r: nat)
    ensures r <= x
  {
    if x == 0 then 0 else (if x % 2 == 1 && y % 2 == 1 then 1 else 0) + 2 * And(x / 2, y / 2)
  }

  /** `x | y` */
  function Or(x: nat, y: nat): nat
    decreases x + y
  {
    if x == 0 then y else if y == 0 then x
    else (if x % 2 == 1 || y % 2 == 1 then 1 else 0) + 2 * Or(x / 2, y / 2)
  }

  /** `!x` in 64 bits */
  function Not(x: u64): u64 { U64_LIMIT - 1 - x }

  // ---------- they are the operators ----------

  lemma {:induction false} AndBits(x: nat, y: nat, k: nat)
    ensures Bit(And(x, y), k) <==> Bit(x, k) && Bit(y, k)
  {
    if x == 0 {
      NoBits(k);
    } else {
      HalfOfAnd(x, y);
      if k > 0 { AndBits(x / 2, y / 2, k - 1); }
    }
  }

  lemma {:induction false} OrBits(x: nat, y: nat, k: nat)
    ensures Bit(Or(x, y), k) <==> Bit(x, k) || Bit(y, k)
    decreases x + y
  {
    if x == 0 || y == 0 {
      NoBits(k);
    } else {
      HalfOfOr(x, y);
      if k > 0 { OrBits(x / 2, y / 2, k - 1); }
    }
  }

  lemma NotBits(x: u64, k: nat)
    requires k < 64
    ensures Bit(Not(x), k) <==> !Bit(x, k)
  {
    var n := 64;
    Pow2Value(n);
    ComplementBits(x, n, k);
  }

  lemma {:induction false} ComplementBits(x: nat, n: nat, k: nat)
    requires x < Pow2(n) && k < n
    ensures Bit(Pow2(n) - 1 - x, k) <==> !Bit(x, k)
  {
    var y := Pow2(n) - 1 - x;
    assert Pow2(n) == 2 * Pow2(n - 1);
    assert y % 2 == 1 - x % 2 && y / 2 == Pow2(n - 1) - 1 - x / 2;
    if k > 0 { ComplementBits(x / 2, n - 1, k - 1); }
  }

  lemma {:induction false} NoBits(k: nat)
    ensures !Bit(0, k)
  {
    if k > 0 { NoBits(k - 1); }
  }

  lemma {:induction false} SingleBit(n: nat, k: nat)
    ensures Bit(Pow2(n), k) <==> k == n
  {
    if n > 0 && k > 0 {
      SingleBit(n - 1, k - 1);
    } else if k > 0 {
      NoBits(k - 1);
    }
  }

  lemma {:induction false} OrFits(x: nat, y: nat, width: nat)
    requires x < Pow2(width) && y < Pow2(width)
    ensures Or(x, y) < Pow2(width)
    decreases x + y
  {
    if x > 0 && y > 0 { OrFits(x / 2, y / 2, width - 1); }
  }

  lemma HalfOfAnd(x: nat, y: nat)
    requires x > 0
    ensures And(x, y) / 2 == And(x / 2, y / 2)
    ensures And(x, y) % 2 == if x % 2 == 1 && y % 2 == 1 then 1 else 0
  {
  }

  lemma HalfOfOr(x: nat, y: nat)
    requires x > 0 && y > 0
    ensures Or(x, y) / 2 == Or(x / 2, y / 2)
    ensures Or(x, y) % 2 == if x % 2 == 1 || y % 2 == 1 then 1 else 0
  {
  }

  // ---------- masks ----------

  /** `x & ((1 << n) - 1)` */
  lemma {:induction false} AndLow(x: nat, n: nat)
    ensures And(x, Pow2(n) - 1) == Low(x, n)
  {
    if x == 0 {
      LowOfZero(n);
    } else if n > 0 {
      AndLow(x / 2, n - 1);
      assert (Pow2(n) - 1) % 2 == 1 && (Pow2(n) - 1) / 2 == Pow2(n - 1) - 1;
    } else {
      AndZero(x);
    }
  }

  lemma {:induction false} AndZero(x: nat)
    ensures And(x, 0) == 0
  {
    if x > 0 { AndZero(x / 2); }
  }

  lemma {:induction false} LowOfZero(n: nat)
    ensures Low(0, n) == 0
  {
    if n > 0 { LowOfZero(n - 1); }
  }

  /** A contiguous mask selects a field. */
  lemma {:induction false} AndField(x: nat, lo: nat, hi: nat)
    requires lo <= hi
    ensures Pow2(lo) <= Pow2(hi)
    ensures And(x, Pow2(hi) - Pow2(lo)) == Field(x, lo, hi)
  {
    Pow2Monotone(lo, hi);
    if lo == 0 {
      AndLow(x, hi);
    } else if x == 0 {
      LowOfZero(lo);
      LowOfZero(hi);
    } else {
      AndField(x / 2, lo - 1, hi - 1);
      var mask := Pow2(hi) - Pow2(lo);
      assert mask == 2 * (Pow2(hi - 1) - Pow2(lo - 1));
      FieldHalves(x, lo, hi);
    }
  }

  lemma FieldHalves(x: nat, lo: nat, hi: nat)
    requires 0 < lo <= hi
    ensures Field(x, lo, hi) == 2 * Field(x / 2, lo - 1, hi - 1)
  {
  }

  /** `x & (1 << n)` */
  lemma {:induction false} AndSingle(x: nat, n: nat)
    ensures And(x, Pow2(n)) == if Bit(x, n) then Pow2(n) else 0
  {
    if x == 0 {
      NoBits(n);
    } else if n > 0 {
      AndSingle(x / 2, n - 1);
    } else {
      AndZero(x / 2);
    }
  }

  lemma LowOfWord(x: u64, n: nat)
    requires n == 64
    ensures Low(x, n) == x
  {
    Pow2Value(n);
    ShiftIsDivision(x, n);
  }

  /** `x & !((1 << n) - 1)` */
  lemma AndNotLow(x: u64, n: nat)
    requires n <= 64
    ensures Pow2(n) <= U64_LIMIT && And(x, Not(Pow2(n) - 1)) == x - Low(x, n)
  {
    hide Low, Pow2, And;
    var top := 64;
    Pow2Value(top);
    AndField(x, n, top);
    LowOfWord(x, top);
  }

  lemma {:induction false} LowTwice(x: nat, a: nat, b: nat)
    ensures Low(Low(x, a), b) == Low(x, if a < b then a else b)
  {
    if a > 0 && b > 0 {
      LowTwice(x / 2, a - 1, b - 1);
    } else if a == 0 {
      LowOfZero(b);
    }
  }

  /** `base | offset`, when they do not meet */
  lemma {:induction false} OrIsSum(base: nat, offset: nat, n: nat)
    requires Low(base, n) == 0 && offset < Pow2(n)
    ensures Or(base, offset) == base + offset
  {
    if base > 0 && offset > 0 {
      OrIsSum(base / 2, offset / 2, n - 1);
    }
  }

  /** The address a leaf gives: the frame of the entry joined with the offset. */
  lemma LeafIsSum(entry: nat, va: nat, shift: nat, width: nat)
    requires shift <= width
    ensures Or(Field(entry, shift, width), Low(va, shift)) == Field(entry, shift, width) + Low(va, shift)
  {
    FieldAligned(entry, shift, width);
    Rebuild(va, shift);
    OrIsSum(Field(entry, shift, width), Low(va, shift), shift);
  }

  // ---------- the masks that occur ----------

  lemma Amd64Masks(x: u64)
    ensures And(x, 0x000f_ffff_ffff_f000) == Field(x, 12, 52)
    ensures And(x, 0x000f_ffff_ffe0_0000) == Field(x, 21, 52)
    ensures And(x, 0x000f_ffff_c000_0000) == Field(x, 30, 52)
    ensures And(x, 0xfff) == Low(x, 12) && And(x, 0x1f_ffff) == Low(x, 21) && And(x, 0x3fff_ffff) == Low(x, 30)
    ensures And(x, 0x1ff) == Low(x, 9)
  {
    var a, b, c, d, e := 9, 12, 21, 30, 52;
    MaskValues(a, b, c, d, e);
    MasksAt(x, a, b, c, d, e);
  }

  lemma MaskValues(a: nat, b: nat, c: nat, d: nat, e: nat)
    requires a == 9 && b == 12 && c == 21 && d == 30 && e == 52
    ensures Pow2(a) == 0x200 && Pow2(b) == 0x1000 && Pow2(c) == 0x20_0000 && Pow2(d) == 0x4000_0000
    ensures Pow2(e) == 0x10_0000_0000_0000
  {
    Pow2Value(a);
    Pow2Value(b);
    Pow2Value(c);
    Pow2Value(d);
    Pow2Value(e);
  }

  lemma MasksAt(x: u64, a: nat, b: nat, c: nat, d: nat, e: nat)
    requires b <= c <= d <= e
    ensures Pow2(b) <= Pow2(c) <= Pow2(d) <= Pow2(e)
    ensures And(x, Pow2(e) - Pow2(b)) == Field(x, b, e)
    ensures And(x, Pow2(e) - Pow2(c)) == Field(x, c, e)
    ensures And(x, Pow2(e) - Pow2(d)) == Field(x, d, e)
    ensures And(x, Pow2(b) - 1) == Low(x, b) && And(x, Pow2(c) - 1) == Low(x, c) && And(x, Pow2(d) - 1) == Low(x, d)
    ensures And(x, Pow2(a) - 1) == Low(x, a)
  {
    hide And, Low, Pow2;
    Pow2Monotone(b, c);
    Pow2Monotone(c, d);
    AndField(x, b, e);
    AndField(x, c, e);
    AndField(x, d, e);
    AndLow(x, a);
    AndLow(x, b);
    AndLow(x, c);
    AndLow(x, d);
  }

  /** The physical mask of AArch64 narrowed to a page or block of `2^n` bytes. */
  lemma Aarch64Masks(x: u64, n: nat)
    requires n <= 48
    ensures Pow2(n) <= U64_LIMIT
    ensures And(And(x, 0x0000_ffff_ffff_ffff), Not(Pow2(n) - 1)) == Field(x, n, 48)
  {
    hide And, Low, Pow2;
    var hi, top := 48, 64;
    Pow2Value(hi);
    Pow2Value(top);
    AndLow(x, hi);
    var y: u64 := And(x, 0x0000_ffff_ffff_ffff);
    AndField(y, n, top);
    LowTwice(x, hi, n);
    LowTwice(x, hi, top);
  }

  /** A flag of an entry. */
  lemma FlagIsBit(entry: u64, n: nat)
    ensures And(entry, Pow2(n)) != 0 <==> Bit(entry, n)
  {
    AndSingle(entry, n);
  }

  /** Present and valid, table or page, and large. */
  lemma EntryFlags(entry: u64)
    ensures And(entry, 1) != 0 <==> Bit(entry, 0)
    ensures And(entry, 2) != 0 <==> Bit(entry, 1)
    ensures And(entry, 0x80) != 0 <==> Bit(entry, 7)
  {
    hide And, Bit;
    var a, b, c := 0, 1, 7;
    FlagPowers(a, b, c);
    FlagIsBit(entry, a);
    FlagIsBit(entry, b);
    FlagIsBit(entry, c);
  }

  lemma FlagPowers(a: nat, b: nat, c: nat)
    requires a == 0 && b == 1 && c == 7
    ensures Pow2(a) == 1 && Pow2(b) == 2 && Pow2(c) == 0x80
  {
    Pow2Plus4(c - 4);
    assert Pow2(c - 4) == 2 * Pow2(c - 5) && Pow2(c - 5) == 2 * Pow2(c - 6) && Pow2(c - 6) == 2 * Pow2(a);
  }

  /** The canonical check: the bits above the width are copies of the sign bit. */
  lemma CanonicalIsMasked(address: u64, bits: nat)
    requires 1 <= bits < 64
    ensures Pow2(bits) <= U64_LIMIT
    ensures PageWalk.Canonical(address, bits) <==>
      var above := Not(Pow2(bits) - 1);
      And(address, above) == if And(address, Pow2(bits - 1)) == 0 then 0 else above
  {
    hide And, Low, Above;
    AndNotLow(address, bits);
    FlagIsBit(address, bits - 1);
  }

  /** The masks of the session and of the Windows handle table. */
  lemma SmallMasks(x: u64)
    ensures And(x, Not(0xfff)) == x - x % 0x1000 && And(x, 0xfff) == x % 0x1000
    ensures And(x, Not(0xf)) == x - x % 16 && And(x, Not(3)) == x - x % 4 && And(x, 3) == x % 4
  {
    hide And, Low;
    var a, b, c := 2, 4, 12;
    Pow2Value(c);
    SmallPowers(a, b);
    AndNotLow(x, a);
    AndNotLow(x, b);
    AndNotLow(x, c);
    AndLow(x, a);
    AndLow(x, c);
    ShiftIsDivision(x, a);
    ShiftIsDivision(x, b);
    ShiftIsDivision(x, c);
  }

  /** The AArch64 cache tag: three fields that do not meet. */
  lemma TagIsSum(granule: nat, bits: nat)
    requires granule <= 64 && bits <= 48
    ensures Or(Or(0x4136_3400_0000_0000, granule * 0x100), bits) == 0x4136_3400_0000_0000 + granule * 0x100 + bits
  {
    hide Or, Low, Pow2;
    var a, b := 8, 16;
    TagPowers(a, b);
    ShiftIsDivision(0x4136_3400_0000_0000, b);
    OrIsSum(0x4136_3400_0000_0000, granule * 0x100, b);
    ShiftIsDivision(0x4136_3400_0000_0000 + granule * 0x100, a);
    OrIsSum(0x4136_3400_0000_0000 + granule * 0x100, bits, a);
  }

  lemma TagPowers(a: nat, b: nat)
    requires a == 8 && b == 16
    ensures Pow2(a) == 0x100 && Pow2(b) == 0x1_0000
  {
    Pow2Plus4(a - 8);
    Pow2Plus4(a - 4);
    Pow2Plus16(b - 16);
  }

  lemma SmallPowers(a: nat, b: nat)
    requires a == 2 && b == 4
    ensures Pow2(a) == 4 && Pow2(b) == 16
  {
    Pow2Plus4(b - 4);
  }
}
