/** Machine words as bounded integers, and the arithmetic the page walkers and
    parsers need about them.

    A contiguous bit mask is written arithmetically: `x & ((1 << n) - 1)` is
    `Low(x, n)`, a mask of the bits `lo..hi` is `Field(x, lo, hi)`, a shift is a
    division by a power of two.  Module BitMasks defines the operators bit by bit
    and proves these identities. */
module Words {

  type byte = x: int | 0 <= x < 0x100

  type u64 = x: int | 0 <= x < 0x1_0000_0000_0000_0000

  const U64_LIMIT: nat := 0x1_0000_0000_0000_0000

  function Pow2(n: nat): (r: nat)
    ensures r >= 1
  {
    if n == 0 then 1 else 2 * Pow2(n - 1)
  }

  /** `x >> n` */
  function Above(x: nat, n: nat): nat {
    if n == 0 then x else Above(x / 2, n - 1)
  }

  /** `x & ((1 << n) - 1)` */
  function Low(x: nat, n: nat): nat {
    if n == 0 then 0 else x % 2 + 2 * Low(x / 2, n - 1)
  }

  /** The bits `lo..hi` of `x`, left where they are. */
  function Field(x: nat, lo: nat, hi: nat): nat
    requires lo <= hi
  {
    LowSplit(x, lo, hi - lo);
    Low(x, hi) - Low(x, lo)
  }

  /** `x & (1 << n) != 0` */
  predicate Bit(x: nat, n: nat) { Above(x, n) % 2 == 1 }

  /** `x << n`, without wrap-around */
  function Shl(x: nat, n: nat): nat {
    if n == 0 then x else 2 * Shl(x, n - 1)
  }

  // ---------- shifts and masks split a number in two ----------

  lemma {:induction false} Rebuild(x: nat, n: nat)
    ensures x == Shl(Above(x, n), n) + Low(x, n)
    ensures Low(x, n) < Pow2(n)
  {
    if n > 0 { Rebuild(x / 2, n - 1); }
  }

  lemma {:induction false} RebuildUnique(x: nat, n: nat, q: nat, r: nat)
    requires x == Shl(q, n) + r && r < Pow2(n)
    ensures Above(x, n) == q && Low(x, n) == r
  {
    if n > 0 { RebuildUnique(x / 2, n - 1, q, r / 2); }
  }

  lemma {:induction false} AboveTwice(x: nat, a: nat, b: nat)
    ensures Above(Above(x, a), b) == Above(x, a + b)
  {
    if a > 0 { AboveTwice(x / 2, a - 1, b); }
  }

  lemma {:induction false} LowSplit(x: nat, a: nat, b: nat)
    ensures Low(x, a + b) == Low(x, a) + Shl(Low(Above(x, a), b), a)
    ensures Low(x, a) <= Low(x, a + b)
  {
    if a > 0 { LowSplit(x / 2, a - 1, b); }
  }

  lemma {:induction false} ShlPow2(a: nat, b: nat)
    ensures Shl(Pow2(b), a) == Pow2(a + b)
  {
    if a > 0 { ShlPow2(a - 1, b); }
  }

  lemma {:induction false} ShlIsTimes(x: nat, n: nat)
    ensures Shl(x, n) == Pow2(n) * x
  {
    if n > 0 { ShlIsTimes(x, n - 1); }
  }

  lemma DivModUnique(x: int, d: int, q: int, r: int)
    requires d > 0 && 0 <= r < d && x == d * q + r
    ensures x / d == q && x % d == r
  {
    var e := x / d - q;
    assert x == d * (x / d) + x % d;
    assert d * e == r - x % d by { assert d * e == d * (x / d) - d * q; }
    assert e < 1 by { if e >= 1 { MulAtLeast(d, e); assert false; } }
    assert e > -1 by { if e <= -1 { MulAtLeast(d, -e); assert false; } }
  }

  lemma MulAtLeast(d: int, e: int)
    requires d > 0 && e >= 1
    ensures d * e >= d
  {
  }

  /** A shift and a mask are the quotient and remainder by the power of two. */
  lemma ShiftIsDivision(x: nat, n: nat)
    ensures Above(x, n) == x / Pow2(n) && Low(x, n) == x % Pow2(n)
  {
    Rebuild(x, n);
    ShlIsTimes(Above(x, n), n);
    DivModUnique(x, Pow2(n), Above(x, n), Low(x, n));
  }

  lemma {:induction false} Pow2Monotone(a: nat, b: nat)
    requires a <= b
    ensures Pow2(a) <= Pow2(b)
  {
    if a < b { Pow2Monotone(a, b - 1); }
  }

  /** Two numbers in the same `2^s` block agree on every bit from `s` up. */
  lemma {:induction false} SameBlockAbove(x: nat, y: nat, s: nat, n: nat)
    requires s <= n && Above(x, s) == Above(y, s)
    ensures Above(x, n) == Above(y, n)
    ensures x - Low(x, s) == y - Low(y, s)
    ensures Low(x, n) - Low(x, s) == Low(y, n) - Low(y, s)
  {
    if s > 0 { SameBlockAbove(x / 2, y / 2, s - 1, n - 1); }
  }

  /** A field is a multiple of its lowest place value, and below its highest. */
  lemma {:induction false} FieldAligned(x: nat, lo: nat, hi: nat)
    requires lo <= hi
    ensures Low(Field(x, lo, hi), lo) == 0
    ensures Field(x, lo, hi) + Pow2(lo) <= Pow2(hi)
  {
    if lo == 0 {
      Rebuild(x, hi);
    } else {
      FieldAligned(x / 2, lo - 1, hi - 1);
      assert Field(x, lo, hi) == 2 * Field(x / 2, lo - 1, hi - 1);
    }
  }

  /** An aligned base and an offset below the alignment do not disturb each other. */
  lemma AlignedPlusOffset(b: nat, o: nat, n: nat)
    requires Low(b, n) == 0 && o < Pow2(n)
    ensures Low(b + o, n) == o && Above(b + o, n) == Above(b, n)
  {
    Rebuild(b, n);
    RebuildUnique(b + o, n, Above(b, n), o);
  }

  lemma Pow2Plus4(n: nat)
    ensures Pow2(n + 4) == 0x10 * Pow2(n)
  {
    assert Pow2(n + 2) == 4 * Pow2(n);
    assert Pow2(n + 4) == 4 * Pow2(n + 2);
  }

  lemma Pow2Plus16(n: nat)
    ensures Pow2(n + 16) == 0x1_0000 * Pow2(n)
  {
    Pow2Plus4(n);
    Pow2Plus4(n + 4);
    Pow2Plus4(n + 8);
    Pow2Plus4(n + 12);
  }

  /** The powers that occur as constants.  The exponent is a parameter so that
      the verifier does not unfold a literal power wherever one is mentioned. */
  lemma Pow2Value(n: nat)
    ensures n == 9 ==> Pow2(n) == 0x200
    ensures n == 12 ==> Pow2(n) == 0x1000
    ensures n == 13 ==> Pow2(n) == 0x2000
    ensures n == 21 ==> Pow2(n) == 0x20_0000
    ensures n == 30 ==> Pow2(n) == 0x4000_0000
    ensures n == 48 ==> Pow2(n) == 0x1_0000_0000_0000
    ensures n == 52 ==> Pow2(n) == 0x10_0000_0000_0000
    ensures n == 64 ==> Pow2(n) == U64_LIMIT
  {
    if n >= 4 { Pow2Plus4(n - 4); }
    if n >= 8 { Pow2Plus4(n - 8); }
    if n >= 12 { Pow2Plus4(n - 12); }
    if n >= 28 { Pow2Plus16(n - 28); }
    if n >= 44 { Pow2Plus16(n - 44); }
    if n >= 60 { Pow2Plus16(n - 60); }
    if n >= 16 { Pow2Plus4(n - 16); }
    if n >= 20 { Pow2Plus4(n - 20); }
    assert Pow2(0) == 1 && Pow2(1) == 2 && Pow2(2) == 4;
  }

  /** The page offset, as the session computes it. */
  lemma LowIsMod4096(x: nat)
    ensures Low(x, 12) == x % 0x1000 && Above(x, 12) == x / 0x1000
  {
    var n := 12;
    Pow2Value(n);
    ShlIsTimes(x / 0x1000, n);
    RebuildUnique(x, n, x / 0x1000, x % 0x1000);
  }

  lemma {:induction false} LowOfLow(x: nat, n: nat, bits: nat)
    requires bits <= n
    ensures Low(Low(x, n), bits) == Low(x, bits)
    ensures 1 <= bits ==> (Bit(Low(x, n), bits - 1) <==> Bit(x, bits - 1))
  {
    if bits > 1 {
      LowOfLow(x / 2, n - 1, bits - 1);
    }
  }

  /** The low `bits` bits of `x`, extended upwards by the highest of them. */
  function SignExtend(x: nat, bits: nat): u64
    requires 1 <= bits <= 64
  {
    Rebuild(x, bits);
    Pow2Monotone(bits, 64);
    var top := 64;
    Pow2Value(top);
    Low(x, bits) + if Bit(x, bits - 1) then U64_LIMIT - Pow2(bits) else 0
  }

  // ---------- little-endian byte strings ----------

  function FromLe(b: seq<byte>): nat {
    if |b| == 0 then 0 else b[0] + 0x100 * FromLe(b[1..])
  }

  function ToLe(x: nat, width: nat): (b: seq<byte>)
    ensures |b| == width
  {
    if width == 0 then [] else [x % 0x100] + ToLe(x / 0x100, width - 1)
  }

  lemma {:induction false} FromLeBound(b: seq<byte>)
    ensures FromLe(b) < Pow2(8 * |b|)
  {
    if |b| > 0 {
      FromLeBound(b[1..]);
      Pow2Plus4(8 * (|b| - 1));
      Pow2Plus4(8 * (|b| - 1) + 4);
    }
  }

  /** Decoding what was encoded returns the number, when the width suffices. */
  lemma {:induction false} LeRoundTrip(x: nat, width: nat)
    requires x < Pow2(8 * width)
    ensures FromLe(ToLe(x, width)) == x
  {
    if width > 0 {
      Pow2Plus4(8 * (width - 1));
      Pow2Plus4(8 * (width - 1) + 4);
      LeRoundTrip(x / 0x100, width - 1);
      assert ToLe(x, width)[1..] == ToLe(x / 0x100, width - 1);
    }
  }

  lemma {:induction false} ToLeFromLe(b: seq<byte>)
    ensures ToLe(FromLe(b), |b|) == b
  {
    if |b| > 0 {
      ToLeFromLe(b[1..]);
      DivModUnique(FromLe(b), 0x100, FromLe(b[1..]), b[0]);
      assert b == [b[0]] + b[1..];
    }
  }

  /** Byte `i` of a little-endian word holds its bits from `8 * i` on. */
  lemma {:induction false} LeDigit(b: seq<byte>, i: nat)
    requires i < |b|
    ensures b[i] == Above(FromLe(b), 8 * i) % 0x100
  {
    if i > 0 {
      var rest := FromLe(b[1..]);
      LeDigit(b[1..], i - 1);
      Above8(b[0], rest);
      AboveTwice(FromLe(b), 8, 8 * (i - 1));
    }
  }

  lemma Above8(b: byte, rest: nat)
    ensures Above(b + 0x100 * rest, 8) == rest
  {
    var n := 8;
    Pow2Plus4(n - 4);
    Pow2Plus4(n - 8);
    ShlIsTimes(rest, n);
    RebuildUnique(b + 0x100 * rest, n, rest, b);
  }

  /** A number that fits is denoted by one string of the width. */
  lemma LeExact(b: seq<byte>, x: nat)
    requires x < Pow2(8 * |b|)
    ensures FromLe(b) == x <==> b == ToLe(x, |b|)
  {
    ToLeFromLe(b);
    LeRoundTrip(x, |b|);
  }

  lemma LeU64(b: seq<byte>, x: u64)
    requires |b| == 8
    ensures FromLe(b) == x <==> b == ToLe(x, 8)
  {
    var bits := 8 * |b|;
    Pow2Value(bits);
    LeExact(b, x);
  }

  function U64FromLe(b: seq<byte>): (x: u64)
    requires |b| == 8
    ensures x == FromLe(b)
  {
    FromLeBound(b);
    Pow2Value(8 * |b|);
    FromLe(b)
  }
}
