/** Crash dumps with a run table or a range table as they are written, byte by byte, and
    what the two parsers make of them. */
module KdmpRunFiles {
  import opened Words
  import opened VmiTypes
  import opened Segments
  import opened FileFields
  import opened Kdmp

  /** Whole pages, at least one. */
  predicate Runs(segments: seq<Segment>) {
    forall s | s in segments :: s.start % 0x1000 == 0 && |s.data| % 0x1000 == 0 && 0 < |s.data| < U64_LIMIT
  }

  /** The table: first page and number of pages of each run. */
  function Table(segments: seq<Segment>): (e: seq<byte>)
    ensures |e| == 16 * |segments|
  {
    if segments == [] then []
    else
      var n := |segments| - 1;
      Table(segments[..n]) + ToLe(segments[n].start / 0x1000, 8) + ToLe(|segments[n].data| / 0x1000, 8)
  }

  /** The bytes of the runs, one after another. */
  function Payload(segments: seq<Segment>): (e: seq<byte>)
    ensures |e| == Total(segments)
  {
    if segments == [] then [] else Payload(segments[..|segments| - 1]) + segments[|segments| - 1].data
  }

  lemma {:induction false} PrefixOfTable(segments: seq<Segment>, i: nat)
    requires i <= |segments|
    ensures Table(segments[..i]) <= Table(segments) && Payload(segments[..i]) <= Payload(segments)
    decreases |segments|
  {
    var n := |segments|;
    if i == n {
      assert segments[..i] == segments;
    } else {
      PrefixOfTable(segments[..n - 1], i);
      assert segments[..n - 1][..i] == segments[..i];
    }
  }

  /** Entry `i` of a table in a file. */
  lemma OneEntry(data: seq<byte>, table: nat, segments: seq<Segment>, i: nat)
    requires i < |segments| && segments[i].start / 0x1000 < U64_LIMIT && |segments[i].data| / 0x1000 < U64_LIMIT
    requires table + |Table(segments)| <= |data| && data[table..table + |Table(segments)|] == Table(segments)
    ensures U64Field(data, table + 16 * i) == Ok(segments[i].start / 0x1000)
    ensures U64Field(data, table + 16 * i + 8) == Ok(|segments[i].data| / 0x1000)
  {
    hide FromLe, ToLe, Pow2, Table;
    var before, upTo := Table(segments[..i]), Table(segments[..i + 1]);
    PrefixOfTable(segments, i + 1);
    LastEntry(segments, i);
    SlicePart(data, table, Table(segments), 0, |upTo|);
    TwoFields(data, table, upTo, before, segments[i].start / 0x1000, |segments[i].data| / 0x1000);
  }

  lemma LastEntry(segments: seq<Segment>, i: nat)
    requires i < |segments|
    ensures Table(segments[..i + 1]) ==
      Table(segments[..i]) + ToLe(segments[i].start / 0x1000, 8) + ToLe(|segments[i].data| / 0x1000, 8)
  {
    hide ToLe;
    assert segments[..i + 1][..i] == segments[..i];
  }

  lemma TwoFields(data: seq<byte>, at: nat, whole: seq<byte>, before: seq<byte>, x: u64, y: u64)
    requires at + |whole| <= |data| && data[at..at + |whole|] == whole
    requires whole == before + ToLe(x, 8) + ToLe(y, 8)
    ensures U64Field(data, at + |before|) == Ok(x) && U64Field(data, at + |before| + 8) == Ok(y)
  {
    hide FromLe, ToLe, Pow2;
    WidthOf(8);
    FieldAt(data, at, whole, before, x, 8, ToLe(y, 8));
    FieldAt(data, at, whole, before + ToLe(x, 8), y, 8, []);
  }

  /** The payload of run `i` in a file. */
  lemma OnePayload(data: seq<byte>, payload: nat, segments: seq<Segment>, i: nat)
    requires i < |segments|
    requires payload + |Payload(segments)| <= |data| && data[payload..payload + |Payload(segments)|] == Payload(segments)
    ensures Marked(data, payload + Total(segments[..i]), segments[i].data)
  {
    hide Total, Payload, Table;
    var before, upTo := Payload(segments[..i]), Payload(segments[..i + 1]);
    PrefixOfTable(segments, i + 1);
    LastPayload(segments, i);
    SlicePart(data, payload, Payload(segments), 0, |upTo|);
    SlicePart(data, payload, upTo, |before|, |upTo|);
  }

  lemma LastPayload(segments: seq<Segment>, i: nat)
    requires i < |segments|
    ensures Payload(segments[..i + 1]) == Payload(segments[..i]) + segments[i].data
  {
    assert segments[..i + 1][..i] == segments[..i];
  }

  lemma OneRun(data: seq<byte>, table: nat, payload: nat, segments: seq<Segment>, i: nat)
    requires Runs(segments) && i < |segments|
    requires table + |Table(segments)| <= |data| && data[table..table + |Table(segments)|] == Table(segments)
    requires payload + |Payload(segments)| <= |data| && data[payload..payload + |Payload(segments)|] == Payload(segments)
    ensures RunAt(data, table, i, payload + Total(segments[..i]), segments[i])
  {
    hide Total, U64Field, Table, Payload, Marked;
    assert segments[i] in segments;
    OneEntry(data, table, segments, i);
    OnePayload(data, payload, segments, i);
  }

  lemma TableIsLaidOut(data: seq<byte>, table: nat, payload: nat, segments: seq<Segment>)
    requires Runs(segments)
    requires table + |Table(segments)| <= |data| && data[table..table + |Table(segments)|] == Table(segments)
    requires payload + |Payload(segments)| <= |data| && data[payload..payload + |Payload(segments)|] == Payload(segments)
    ensures RunTable(data, table, payload, segments)
  {
    hide RunAt, Runs;
    forall i | 0 <= i < |segments| ensures RunAt(data, table, i, payload + Total(segments[..i]), segments[i]) {
      OneRun(data, table, payload, segments, i);
    }
  }

  // ---------- the legacy dump ----------

  /** The fields named `free` are not looked at. */
  datatype LegacyDump = LegacyDump(
    free0: seq<byte>, free1: seq<byte>, free2: seq<byte>, free3: seq<byte>, segments: seq<Segment>, rest: seq<byte>)
  {
    ghost predicate WellFormed() {
      && |free0| == 0x30 && |free1| == 0x54 && |free2| == 4
      && 1 <= |segments| <= 502 && |free3| == 0x2000 - 0x98 - 16 * |segments|
      && Runs(segments) && Total(segments) < U64_LIMIT
    }

    function Bytes(): seq<byte> {
      free0 + ToLe(0x8664, 4) + free1 + ToLe(|segments|, 4) + free2 + ToLe(Total(segments) / 0x1000, 8)
      + Table(segments) + free3 + Payload(segments) + rest
    }
  }

  lemma {:induction false} WholePages(segments: seq<Segment>)
    requires Runs(segments)
    ensures Total(segments) % 0x1000 == 0
  {
    if segments != [] {
      var n := |segments| - 1;
      assert segments[n] in segments && forall s | s in segments[..n] :: s in segments;
      WholePages(segments[..n]);
      SumOfPages(Total(segments[..n]), |segments[n].data|);
    }
  }

  lemma SumOfPages(a: nat, b: nat)
    requires a % 0x1000 == 0 && b % 0x1000 == 0
    ensures (a + b) % 0x1000 == 0
  {
  }

  lemma LegacyFields(d: LegacyDump)
    requires d.WellFormed()
    ensures LegacyFile(d.Bytes(), d.segments)
  {
    hide FromLe, ToLe, Pow2, Total, RunAt, Runs, Table, Payload;
    var data, n := d.Bytes(), 16 * |d.segments|;
    assert data[0..0 + |data|] == data;
    WholePages(d.segments);
    WidthOf(4);
    WidthOf(8);
    FieldAt(data, 0, data, data[..0x30], 0x8664, 4, data[0x34..]);
    FieldAt(data, 0, data, data[..0x88], |d.segments|, 4, data[0x8c..]);
    FieldAt(data, 0, data, data[..0x90], Total(d.segments) / 0x1000, 8, data[0x98..]);
    assert data[0x98..0x98 + n] == Table(d.segments);
    assert data[0x2000..0x2000 + |Payload(d.segments)|] == Payload(d.segments);
    TableIsLaidOut(data, 0x98, 0x2000, d.segments);
  }

  /** A legacy dump that is laid out like this is accepted exactly when its runs are
      disjoint, and reads back every byte of each at its first page. */
  lemma LegacyDumpReads(d: LegacyDump)
    requires d.WellFormed()
    ensures LegacyParsed(d.Bytes()).Ok? <==> PairwiseDisjoint(d.segments)
    ensures LegacyParsed(d.Bytes()).Ok? ==> LegacyParsed(d.Bytes()).value.View().bytes == Contents(d.segments)
  {
    hide LegacyDump.WellFormed, LegacyDump.Bytes, LegacyFile, PairwiseDisjoint, Contents;
    LegacyFields(d);
    LegacyReadsBack(d.Bytes(), d.segments);
  }

  // ---------- the range table ----------

  /** The table ends by a zero first page inside the metadata of `size` bytes. */
  datatype RangeDump = RangeDump(
    free0: seq<byte>, free1: seq<byte>, free2: seq<byte>, size: u64, segments: seq<Segment>, free3: seq<byte>,
    rest: seq<byte>)
  {
    ghost predicate WellFormed() {
      && |free0| == 0x2008 && |free1| == 4 && |free2| == 0x10
      && size % 16 == 0 && size + 0x2020 < U64_LIMIT
      && |segments| > 0 && |free3| + 16 * |segments| + 0x18 == size
      && Runs(segments) && (forall s | s in segments :: s.start != 0)
    }

    function Bytes(): seq<byte> {
      free0 + [0x44, 0x55, 0x4d, 0x50] + free1 + ToLe(size, 8) + ToLe(size + 0x2020, 8) + free2
      + Table(segments) + ToLe(0, 8) + free3 + Payload(segments) + rest
    }
  }

  lemma RangeFields(d: RangeDump)
    requires d.WellFormed()
    ensures RdmpFile(d.Bytes(), d.segments)
  {
    hide FromLe, ToLe, Pow2, Total, RunAt, Runs, Table, Payload;
    var data, n, payload := d.Bytes(), 16 * |d.segments|, d.size + 0x2020;
    RangeLayout(d);
    RangeTableEnds(d);
    assert data[0x2030..0x2030 + n] == Table(d.segments);
    assert data[payload..payload + |Payload(d.segments)|] == Payload(d.segments);
    TableIsLaidOut(data, 0x2030, payload, d.segments);
  }

  lemma RangeLayout(d: RangeDump)
    requires d.WellFormed()
    ensures RdmpLayout(d.Bytes()) && U64Field(d.Bytes(), 0x2010) == Ok(d.size)
    ensures U64Field(d.Bytes(), 0x2018) == Ok(d.size + 0x2020)
  {
    hide FromLe, ToLe, Pow2, Total, Runs, Table, Payload;
    var data := d.Bytes();
    assert data[0..0 + |data|] == data;
    WidthOf(8);
    assert data[0x2008..0x200c] == DUMP;
    FieldAt(data, 0, data, data[..0x2010], d.size, 8, data[0x2018..]);
    FieldAt(data, 0, data, data[..0x2018], d.size + 0x2020, 8, data[0x2020..]);
  }

  lemma RangeTableEnds(d: RangeDump)
    requires d.WellFormed()
    ensures U64Field(d.Bytes(), 0x2030 + 16 * |d.segments|) == Ok(0)
    ensures U64Field(d.Bytes(), 0x2038 + 16 * |d.segments|).Ok?
  {
    hide FromLe, ToLe, Pow2, Total, Runs, Table, Payload;
    var data, n := d.Bytes(), 16 * |d.segments|;
    assert data[0..0 + |data|] == data;
    WidthOf(8);
    FieldAt(data, 0, data, data[..0x2030 + n], 0, 8, data[0x2038 + n..]);
  }

  /** Nothing else is accepted as a range table: the mark DUMP at 0x2008, a metadata size
      that is a multiple of 16 from 0x20 on, and the first payload byte 0x2020 after it. */
  lemma RangesAreMarked(data: seq<byte>)
    requires RdmpParsed(data).Ok?
    ensures |data| >= 0x2020 && data[0x2008..0x200c] == [0x44, 0x55, 0x4d, 0x50]
    ensures var size := FromLe(data[0x2010..0x2018]);
      size >= 0x20 && size % 16 == 0 && FromLe(data[0x2018..0x2020]) == size + 0x2020 <= |data|
  {
    hide RangesFrom, FromLe;
  }

  /** So is a dump with a range table. */
  lemma RangeDumpReads(d: RangeDump)
    requires d.WellFormed()
    ensures RdmpParsed(d.Bytes()).Ok? <==> PairwiseDisjoint(d.segments)
    ensures RdmpParsed(d.Bytes()).Ok? ==> RdmpParsed(d.Bytes()).value.View().bytes == Contents(d.segments)
  {
    hide RangeDump.WellFormed, RangeDump.Bytes, RdmpFile, PairwiseDisjoint, Contents;
    RangeFields(d);
    RdmpReadsBack(d.Bytes(), d.segments);
  }
}
