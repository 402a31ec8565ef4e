/** Bitmap crash dumps (`from_bitmap_kdmp`): page `pfn` is stored if its bit is
    set, after the pages of all lower set bits. */
module KdmpBitmap {
  import opened Words
  import opened VmiTypes
  import opened PhysicalMemory
  import opened Segments
  import opened Snapshot
  import opened Kdmp

  const BITMAP_START: nat := 0x2038

  function BitValue(k: nat): nat
    requires k < 8
  {
    [1, 2, 4, 8, 16, 32, 64, 128][k]
  }

  predicate PageBit(data: seq<byte>, pfn: nat) {
    BITMAP_START + pfn / 8 < |data| && data[BITMAP_START + pfn / 8] / BitValue(pfn % 8) % 2 == 1
  }

  /** The number of set bits below `pfn`. */
  function Rank(data: seq<byte>, pfn: nat): (r: nat)
    ensures r <= pfn
  {
    if pfn == 0 then 0 else Rank(data, pfn - 1) + if PageBit(data, pfn - 1) then 1 else 0
  }

  lemma {:induction false} RankMonotone(data: seq<byte>, p: nat, q: nat)
    requires p <= q
    ensures Rank(data, p) <= Rank(data, q)
    ensures p < q && PageBit(data, p) ==> Rank(data, p) < Rank(data, q)
  {
    hide PageBit;
    if p < q { RankMonotone(data, p, q - 1); }
  }

  datatype Header = Header(firstPage: u64, present: u64, pages: u64)

  /** The header fields, after the checks made before the bitmap is scanned. */
  function HeaderOf(data: seq<byte>): (h: Result<Header>) {
    if !Marked(data, HEADER_SIZE + 4, DUMP) then Err(Backend("invalid bitmap KDMP marker"))
    else
      var firstPage :- U64Field(data, HEADER_SIZE + 0x20);
      var present :- U64Field(data, HEADER_SIZE + 0x28);
      var pages :- U64Field(data, HEADER_SIZE + 0x30);
      var bitmapEnd := BITMAP_START + (pages + 7) / 8;
      if pages == 0 || present > pages then Err(Backend("invalid bitmap KDMP page counts"))
      else if bitmapEnd > |data| then Err(Backend("truncated bitmap KDMP bitmap"))
      else if firstPage < bitmapEnd then Err(Backend("bitmap KDMP payload overlaps its bitmap"))
      else Ok(Header(firstPage, present, pages))
  }

  function PayloadOf(data: seq<byte>, h: Header, pfn: nat): nat {
    h.firstPage + PAGE_SIZE * Rank(data, pfn)
  }

  /** Page `pfn`, if set, can be addressed and lies inside the file. */
  predicate PageStored(data: seq<byte>, h: Header, pfn: nat) {
    PayloadOf(data, h, pfn) + PAGE_SIZE <= |data| && pfn * PAGE_SIZE < U64_LIMIT
  }

  function PageSegment(data: seq<byte>, h: Header, pfn: nat): Segment
    requires PageStored(data, h, pfn)
  {
    Segment(pfn * PAGE_SIZE, data[PayloadOf(data, h, pfn)..PayloadOf(data, h, pfn) + PAGE_SIZE])
  }

  /** The segments of the set pages below `pfn`, in order. */
  ghost predicate PagesBelow(data: seq<byte>, h: Header, pfn: nat, segments: seq<Segment>) {
    && |segments| == Rank(data, pfn)
    && forall q | 0 <= q < pfn && PageBit(data, q) ::
         PageStored(data, h, q) && Rank(data, q) < |segments| && segments[Rank(data, q)] == PageSegment(data, h, q)
  }

  /** When the dump is accepted: the declared count is the number of set bits, and
      every set page is stored. */
  ghost predicate Accepts(data: seq<byte>) {
    && HeaderOf(data).Ok?
    && var h := HeaderOf(data).value;
       && Rank(data, h.pages) == h.present
       && forall q | 0 <= q < h.pages && PageBit(data, q) :: PageStored(data, h, q)
  }

  /** What `from_bitmap_kdmp` answers. */
  ghost predicate IsBitmapResult(data: seq<byte>, r: Result<SnapshotBundle>) {
    && (r.Ok? <==> Accepts(data))
    && (r.Ok? ==> PagesBelow(data, HeaderOf(data).value, HeaderOf(data).value.pages, r.value.segments))
  }

  lemma PagesStep(data: seq<byte>, h: Header, pfn: nat, segments: seq<Segment>)
    requires PagesBelow(data, h, pfn, segments)
    ensures !PageBit(data, pfn) ==> PagesBelow(data, h, pfn + 1, segments)
    ensures PageBit(data, pfn) && PageStored(data, h, pfn) ==>
      PagesBelow(data, h, pfn + 1, segments + [PageSegment(data, h, pfn)])
  {
    hide PageBit, PageStored, PageSegment;
    if PageBit(data, pfn) && PageStored(data, h, pfn) {
      var all := segments + [PageSegment(data, h, pfn)];
      forall q | 0 <= q < pfn + 1 && PageBit(data, q)
        ensures PageStored(data, h, q) && Rank(data, q) < |all| && all[Rank(data, q)] == PageSegment(data, h, q)
      {
        RankMonotone(data, q, pfn);
      }
    }
  }

  method FromBitmap(data: seq<byte>) returns (r: Result<SnapshotBundle>)
    ensures IsBitmapResult(data, r)
    ensures r.Ok? ==> r.value.Valid() && PairwiseDisjoint(r.value.segments)
  {
    hide PageBit, PageSegment, HeaderOf;
    var h :- HeaderOf(data);
    var payload: nat, found: nat, segments: seq<Segment> := h.firstPage, 0, [];
    for pfn := 0 to h.pages
      invariant found == |segments| && payload == PayloadOf(data, h, pfn)
      invariant PagesBelow(data, h, pfn, segments)
    {
      PagesStep(data, h, pfn, segments);
      if !PageBit(data, pfn) { continue; }
      if payload + PAGE_SIZE > |data| { return Err(Backend("bitmap KDMP page exceeds artifact")); }
      if pfn * PAGE_SIZE >= U64_LIMIT { return Err(Backend("bitmap KDMP physical address overflow")); }
      segments := segments + [PageSegment(data, h, pfn)];
      payload := payload + PAGE_SIZE;
      found := found + 1;
    }
    if found != h.present { return Err(Backend("bitmap KDMP declares another number of pages")); }
    PagesInOrder(data, h, segments);
    return Ok(SnapshotBundle(segments));
  }

  /** Every index is the rank of one set page. */
  lemma {:induction false} PageOfRank(data: seq<byte>, pfn: nat, i: nat) returns (q: nat)
    requires i < Rank(data, pfn)
    ensures q < pfn && PageBit(data, q) && Rank(data, q) == i
  {
    hide PageBit;
    if PageBit(data, pfn - 1) && Rank(data, pfn - 1) == i {
      q := pfn - 1;
    } else {
      q := PageOfRank(data, pfn - 1, i);
    }
  }

  lemma SegmentOfIndex(data: seq<byte>, h: Header, segments: seq<Segment>, i: nat) returns (q: nat)
    requires PagesBelow(data, h, h.pages, segments) && i < |segments|
    ensures q < h.pages && PageBit(data, q) && Rank(data, q) == i && PageStored(data, h, q)
    ensures segments[i] == PageSegment(data, h, q)
    ensures segments[i].start == q * PAGE_SIZE && segments[i].End() == (q + 1) * PAGE_SIZE
  {
    hide PageBit;
    q := PageOfRank(data, h.pages, i);
  }

  /** Ascending page numbers: sorted and disjoint with no sort and no check. */
  lemma PagesInOrder(data: seq<byte>, h: Header, segments: seq<Segment>)
    requires PagesBelow(data, h, h.pages, segments)
    ensures SortedByStart(segments) && PairwiseDisjoint(segments)
  {
    hide PageBit, PageStored, PageSegment, PagesBelow;
    forall i, j | 0 <= i < j < |segments|
      ensures segments[i].End() <= segments[j].start
      ensures segments[i].start <= segments[j].start
    {
      var p := SegmentOfIndex(data, h, segments, i);
      var q := SegmentOfIndex(data, h, segments, j);
      if q <= p { RankMonotone(data, q, p); }
    }
  }

  /** The bitmap as a rank dictionary: an address is readable exactly when the bit
      of its page is set, and its byte is found after the pages of all lower set
      bits. */
  lemma BitmapReads(data: seq<byte>, h: Header, segments: seq<Segment>, a: nat)
    requires PagesBelow(data, h, h.pages, segments)
    ensures var pfn := a / PAGE_SIZE;
      && (Readable(SnapshotBundle(segments).View(), a) <==>
           a < U64_LIMIT && pfn < h.pages && PageBit(data, pfn))
      && (Readable(SnapshotBundle(segments).View(), a) ==>
           && PayloadOf(data, h, pfn) + a % PAGE_SIZE < |data|
           && SnapshotBundle(segments).View().bytes[a] == data[PayloadOf(data, h, pfn) + a % PAGE_SIZE])
  {
    hide PageBit, Rank, FirstByte;
    var pfn := a / PAGE_SIZE;
    if pfn < h.pages && PageBit(data, pfn) {
      var i := Rank(data, pfn);
      assert PageStored(data, h, pfn) && segments[i] == PageSegment(data, h, pfn);
      PagesInOrder(data, h, segments);
      forall j | 0 <= j < i ensures !segments[j].Covers(a) {
        assert !segments[j].Overlaps(segments[i]);
      }
      FirstByteAt(segments, a, i);
    } else if Covered(segments, a) {
      var j :| 0 <= j < |segments| && segments[j].Covers(a);
      var q := SegmentOfIndex(data, h, segments, j);
      assert false;
    }
  }
}
