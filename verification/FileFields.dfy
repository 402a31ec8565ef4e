/** Fields of files as they are written: a number in little-endian bytes somewhere in
    a file, and what reading it there gives. */
module FileFields {
  import opened Words

  type u16 = x: int | 0 <= x < 0x1_0000

  type u32 = x: int | 0 <= x < 0x1_0000_0000

  /** What was written as part of `whole`, which is in the file at `at`. */
  lemma FieldAt(data: seq<byte>, at: nat, whole: seq<byte>, before: seq<byte>, x: nat, width: nat, after: seq<byte>)
    requires at + |whole| <= |data| && data[at..at + |whole|] == whole
    requires whole == before + ToLe(x, width) + after && x < Pow2(8 * width)
    ensures at + |before| + width <= |data|
    ensures FromLe(data[at + |before|..at + |before| + width]) == x
  {
    hide FromLe, ToLe, Pow2;
    LeRoundTrip(x, width);
    SlicePart(data, at, whole, |before|, |before| + width);
    assert whole[|before|..|before| + width] == ToLe(x, width);
  }

  lemma SlicePart(data: seq<byte>, at: nat, whole: seq<byte>, i: nat, j: nat)
    requires at + |whole| <= |data| && data[at..at + |whole|] == whole && i <= j <= |whole|
    ensures data[at + i..at + j] == whole[i..j]
  {
    forall k | 0 <= k < j - i ensures data[at + i..at + j][k] == whole[i..j][k] {
      assert whole[i + k] == data[at..at + |whole|][i + k];
    }
  }

  lemma WidthOf(width: nat)
    ensures width == 2 ==> Pow2(8 * width) == 0x1_0000
    ensures width == 4 ==> Pow2(8 * width) == 0x1_0000_0000
    ensures width == 8 ==> Pow2(8 * width) == U64_LIMIT
  {
    var bits := 8 * width;
    Pow2Value(bits);
    if bits >= 16 { Pow2Plus16(bits - 16); }
    if bits >= 32 { Pow2Plus16(bits - 32); }
  }
}
