/** Bitmap crash dumps as they are written, and what `from_bitmap_kdmp` makes of one:
    the bitmap is a number, whose bit `pfn` tells whether page `pfn` is stored. */
module KdmpBitmapFile {
  import opened Words
  import opened VmiTypes
  import opened PhysicalMemory
  import opened Segments
  import opened Snapshot
  import opened FileFields
  import opened Kdmp
  import opened KdmpBitmap

  /** `front` and `gap` are not looked at; `rest` holds the pages. */
  datatype BitmapFile = BitmapFile(
    front: seq<byte>, gap: seq<byte>, firstPage: u64, present: u64, pages: u64, bitmap: seq<byte>, rest: seq<byte>)
  {
    predicate WellFormed() { |front| == 0x2004 && |gap| == 0x18 && |bitmap| == (pages + 7) / 8 }

    /** The bitmap as a number, its first byte least significant. */
    function Number(): nat { FromLe(bitmap) }

    function Bytes(): seq<byte> {
      front + [0x44, 0x55, 0x4d, 0x50] + gap + ToLe(firstPage, 8) + ToLe(present, 8) + ToLe(pages, 8) + bitmap + rest
    }
  }

  /** How many of the bits of `x` below `n` are set. */
  function BitsBelow(x: nat, n: nat): nat {
    if n == 0 then 0 else BitsBelow(x, n - 1) + if Bit(x, n - 1) then 1 else 0
  }

  // ---------- one bit ----------

  lemma PowerOfBit(k: nat)
    requires k < 8
    ensures Pow2(k) == BitValue(k)
  {
    assert k >= 1 ==> Pow2(k) == 2 * Pow2(k - 1);
    if k >= 1 { PowerOfBit(k - 1); }
  }

  lemma BitOfByte(y: nat, r: nat)
    requires r < 8
    ensures Bit(y, r) <==> y % 0x100 / BitValue(r) % 2 == 1
  {
    var n := 8;
    Pow2Plus4(n - 4);
    Pow2Plus4(n - 8);
    ShiftIsDivision(y, n);
    LowOfLow(y, n, r + 1);
    ShiftIsDivision(y % 0x100, r);
    PowerOfBit(r);
  }

  /** A bit of a byte of a string is a bit of the number the string denotes. */
  lemma BitOfBytes(b: seq<byte>, k: nat)
    requires k < 8 * |b|
    ensures Bit(FromLe(b), k) <==> b[k / 8] / BitValue(k % 8) % 2 == 1
  {
    hide FromLe, BitValue;
    var q, r := k / 8, k % 8;
    LeDigit(b, q);
    AboveTwice(FromLe(b), 8 * q, r);
    BitOfByte(Above(FromLe(b), 8 * q), r);
  }

  // ---------- the fields ----------

  lemma HeaderIs(f: BitmapFile)
    requires f.WellFormed()
    ensures var bitmapEnd := 0x2038 + |f.bitmap|;
      if f.pages == 0 || f.present > f.pages || f.firstPage < bitmapEnd then HeaderOf(f.Bytes()).Err?
      else HeaderOf(f.Bytes()) == Ok(Header(f.firstPage, f.present, f.pages))
  {
    hide FromLe, ToLe, Pow2;
    var data := f.Bytes();
    WidthOf(8);
    assert data[0..0 + |data|] == data;
    assert data[0x2004..0x2008] == DUMP;
    FieldAt(data, 0, data, data[..0x2020], f.firstPage, 8, data[0x2028..]);
    FieldAt(data, 0, data, data[..0x2028], f.present, 8, data[0x2030..]);
    FieldAt(data, 0, data, data[..0x2030], f.pages, 8, data[0x2038..]);
  }

  lemma PageBitIs(f: BitmapFile, pfn: nat)
    requires f.WellFormed() && pfn < f.pages
    ensures PageBit(f.Bytes(), pfn) <==> Bit(f.Number(), pfn)
  {
    hide FromLe, ToLe, BitValue, Bit;
    BitOfBytes(f.bitmap, pfn);
    assert f.Bytes()[0x2038..0x2038 + |f.bitmap|] == f.bitmap;
    assert f.Bytes()[0x2038 + pfn / 8] == f.bitmap[pfn / 8];
  }

  lemma {:induction false} RankIs(f: BitmapFile, n: nat)
    requires f.WellFormed() && n <= f.pages
    ensures Rank(f.Bytes(), n) == BitsBelow(f.Number(), n)
  {
    hide PageBit, Bit, BitmapFile.WellFormed, BitmapFile.Bytes, BitmapFile.Number;
    if n > 0 {
      RankIs(f, n - 1);
      PageBitIs(f, n - 1);
    }
  }

  // ---------- what a file holds ----------

  /** Page `pfn`, after the pages of all lower set bits, lies inside the file. */
  predicate Holds(f: BitmapFile, pfn: nat) {
    f.firstPage + 0x1000 * BitsBelow(f.Number(), pfn) + 0x1000 <= |f.Bytes()| && pfn * 0x1000 < U64_LIMIT
  }

  ghost predicate Acceptable(f: BitmapFile) {
    && f.pages != 0 && f.present <= f.pages && f.firstPage >= 0x2038 + |f.bitmap|
    && BitsBelow(f.Number(), f.pages) == f.present
    && forall pfn: nat | pfn < f.pages && Bit(f.Number(), pfn) :: Holds(f, pfn)
  }

  /** Address `a` is readable exactly when the bit of its page is set, and its byte is
      found after the pages of all lower set bits. */
  ghost predicate Shows(f: BitmapFile, m: Memory, a: nat) {
    var pfn := a / 0x1000;
    var at := f.firstPage + 0x1000 * BitsBelow(f.Number(), pfn) + a % 0x1000;
    && (Readable(m, a) <==> a < U64_LIMIT && pfn < f.pages && Bit(f.Number(), pfn))
    && (Readable(m, a) ==> at < |f.Bytes()| && m.bytes[a] == f.Bytes()[at])
  }

  lemma HoldsIs(f: BitmapFile, h: Header, pfn: nat)
    requires f.WellFormed() && pfn < f.pages && h == Header(f.firstPage, f.present, f.pages)
    ensures PageStored(f.Bytes(), h, pfn) <==> Holds(f, pfn)
    ensures PayloadOf(f.Bytes(), h, pfn) == f.firstPage + 0x1000 * BitsBelow(f.Number(), pfn)
  {
    hide Rank, BitsBelow, BitmapFile.WellFormed, BitmapFile.Bytes, BitmapFile.Number;
    RankIs(f, pfn);
  }

  /** A dump that is laid out like this is accepted exactly when its counts are right
      and every stored page is inside the file; then it reads as the bits of its bitmap
      tell.  `r` is what FromBitmap returns. */
  lemma BitmapFileReads(f: BitmapFile, r: Result<SnapshotBundle>)
    requires f.WellFormed()
    requires IsBitmapResult(f.Bytes(), r)
    ensures r.Ok? <==> Acceptable(f)
    ensures r.Ok? ==> forall a: nat :: Shows(f, r.value.View(), a)
  {
    hide PageBit, Bit, Rank, BitsBelow, PageStored, Holds, Shows, PagesBelow, HeaderOf;
    hide BitmapFile.WellFormed, BitmapFile.Bytes, BitmapFile.Number;
    HeaderIs(f);
    BitmapLength(f);
    if HeaderOf(f.Bytes()).Ok? {
      var h := HeaderOf(f.Bytes()).value;
      RankIs(f, f.pages);
      forall pfn: nat | pfn < f.pages
        ensures PageBit(f.Bytes(), pfn) <==> Bit(f.Number(), pfn)
        ensures PageStored(f.Bytes(), h, pfn) <==> Holds(f, pfn)
      {
        PageBitIs(f, pfn);
        HoldsIs(f, h, pfn);
      }
      if r.Ok? {
        forall a: nat ensures Shows(f, r.value.View(), a) { AddressShows(f, h, r.value.segments, a); }
      }
    }
  }

  lemma WrittenField(data: seq<byte>, at: nat)
    requires at + 8 <= |data|
    ensures data[at..at + 8] == ToLe(U64FromLe(data[at..at + 8]), 8)
  {
    hide FromLe, ToLe;
    ToLeFromLe(data[at..at + 8]);
  }

  /** Every dump that is accepted is laid out like this. */
  lemma AcceptedIsWritten(data: seq<byte>, r: Result<SnapshotBundle>) returns (f: BitmapFile)
    requires IsBitmapResult(data, r) && r.Ok?
    ensures f.WellFormed() && f.Bytes() == data
  {
    hide FromLe, ToLe, Rank, PageBit, PagesBelow, PageStored;
    var h := HeaderOf(data).value;
    var bitmapEnd := 0x2038 + (h.pages + 7) / 8;
    f := BitmapFile(
      data[..0x2004], data[0x2008..0x2020], h.firstPage, h.present, h.pages, data[0x2038..bitmapEnd], data[bitmapEnd..]);
    WrittenField(data, 0x2020);
    WrittenField(data, 0x2028);
    WrittenField(data, 0x2030);
    assert data[0x2004..0x2008] == [0x44, 0x55, 0x4d, 0x50];
    assert data == data[..0x2004] + data[0x2004..0x2008] + data[0x2008..0x2020] + data[0x2020..0x2028]
      + data[0x2028..0x2030] + data[0x2030..0x2038] + data[0x2038..bitmapEnd] + data[bitmapEnd..];
  }

  lemma BitmapLength(f: BitmapFile)
    requires f.WellFormed()
    ensures |f.bitmap| == (f.pages + 7) / 8
  {
  }

  lemma AddressShows(f: BitmapFile, h: Header, segments: seq<Segment>, a: nat)
    requires f.WellFormed() && h == Header(f.firstPage, f.present, f.pages)
    requires PagesBelow(f.Bytes(), h, h.pages, segments)
    ensures Shows(f, SnapshotBundle(segments).View(), a)
  {
    hide PageBit, Bit, Rank, BitsBelow, PageStored, PagesBelow, PayloadOf;
    hide BitmapFile.WellFormed, BitmapFile.Bytes, BitmapFile.Number;
    var pfn := a / 0x1000;
    BitmapReads(f.Bytes(), h, segments, a);
    if pfn < f.pages {
      PageBitIs(f, pfn);
      HoldsIs(f, h, pfn);
    }
  }
}
