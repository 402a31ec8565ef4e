/** `from_kdmp`: which of the three layouts a crash dump has. */
module KdmpFile {
  import opened Words
  import opened VmiTypes
  import opened Snapshot
  import opened FileFields
  import opened Kdmp
  import opened KdmpBitmap

  datatype Layout = LegacyRunTable | Bitmap | RangeTable

  function LayoutOf(data: seq<byte>): Result<Layout> {
    if |data| < HEADER_SIZE || !Marked(data, 0, PAGE_DU64) then Err(Backend("not a legacy AMD64 PAGE/DU64 crash dump"))
    else if Marked(data, HEADER_SIZE, SDMP) || Marked(data, HEADER_SIZE, FDMP) then Ok(Bitmap)
    else
      var size :- U32Field(data, HEADER_SIZE);
      Ok(if size == 0x40 && Marked(data, HEADER_SIZE + 4, RDMP) then RangeTable else LegacyRunTable)
  }

  /** A file starts with PAGEDU64 and is a page long twice over. */
  predicate Headed(data: seq<byte>) {
    |data| >= 0x2000 && data[..8] == [0x50, 0x41, 0x47, 0x45, 0x44, 0x55, 0x36, 0x34]
  }

  /** The bytes after the header decide the layout: SDMP or FDMP makes a bitmap dump;
      the number 0x40 and RDMP make a range table; any other four bytes a run table. */
  lemma LayoutIsMarked(data: seq<byte>)
    ensures LayoutOf(data).Ok? <==> Headed(data) && |data| >= 0x2004
    ensures LayoutOf(data).Ok? ==>
      var mark := data[0x2000..0x2004];
      LayoutOf(data).value ==
        if mark == [0x53, 0x44, 0x4d, 0x50] || mark == [0x46, 0x44, 0x4d, 0x50] then Bitmap
        else if mark == [0x40, 0, 0, 0] && |data| >= 0x2008 && data[0x2004..0x2008] == [0x52, 0x44, 0x4d, 0x50]
        then RangeTable
        else LegacyRunTable
  {
    if Headed(data) && |data| >= 0x2004 { SizeIsBytes(data[0x2000..0x2004]); }
  }

  lemma SizeIsBytes(b: seq<byte>)
    requires |b| == 4
    ensures FromLe(b) == 0x40 <==> b == [0x40, 0, 0, 0]
  {
    var width := 4;
    WidthOf(width);
    LeRoundTrip(0x40, width);
    ToLeFromLe(b);
    assert ToLe(0, 1) == [0] && ToLe(0, 2) == [0, 0] && ToLe(0, 3) == [0, 0, 0];
    assert ToLe(0x40, width) == [0x40] + ToLe(0, 3);
  }

  method FromKdmp(data: seq<byte>) returns (r: Result<SnapshotBundle>)
    ensures r.Ok? ==> r.value.Valid()
    ensures match LayoutOf(data)
      case Err(e) => r == Err(e)
      case Ok(LegacyRunTable) => r == LegacyParsed(data)
      case Ok(RangeTable) => r == RdmpParsed(data)
      case Ok(Bitmap) => IsBitmapResult(data, r)
  {
    var layout :- LayoutOf(data);
    match layout
    case LegacyRunTable => r := FromLegacy(data);
    case RangeTable => r := FromRdmp(data);
    case Bitmap => r := FromBitmap(data);
  }
}
