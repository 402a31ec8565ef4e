/** Windows crash dumps (`SnapshotBundle::from_kdmp`): legacy run tables and RDMP
    range tables, whose payloads follow one another in table order. */
module Kdmp {
  import opened Words
  import opened VmiTypes
  import opened Segments
  import opened SegmentOrder
  import opened Snapshot

  const PAGE_SIZE: nat := 0x1000
  const HEADER_SIZE: nat := 0x2000
  const DESCRIPTOR_OFFSET: nat := 0x88
  const RUNS_OFFSET: nat := 0x98
  const MAXIMUM_RUNS: nat := 502
  const RDMP_RANGES: nat := 0x2030

  function U64Field(data: seq<byte>, offset: nat): (r: Result<u64>)
    ensures r.Ok? <==> offset + 8 <= |data|
  {
    if offset + 8 <= |data| then Ok(U64FromLe(data[offset..offset + 8])) else Err(Backend("truncated artifact field"))
  }

  function U32Field(data: seq<byte>, offset: nat): (r: Result<nat>)
    ensures r.Ok? <==> offset + 4 <= |data|
  {
    if offset + 4 <= |data| then Ok(FromLe(data[offset..offset + 4])) else Err(Backend("truncated artifact field"))
  }

  predicate Marked(data: seq<byte>, offset: nat, text: seq<byte>) {
    offset + |text| <= |data| && data[offset..offset + |text|] == text
  }

  const PAGE_DU64: seq<byte> := [0x50, 0x41, 0x47, 0x45, 0x44, 0x55, 0x36, 0x34]
  const SDMP: seq<byte> := [0x53, 0x44, 0x4d, 0x50]
  const FDMP: seq<byte> := [0x46, 0x44, 0x4d, 0x50]
  const RDMP: seq<byte> := [0x52, 0x44, 0x4d, 0x50]
  const DUMP: seq<byte> := [0x44, 0x55, 0x4d, 0x50]

  // ---------- one entry of a run table ----------

  /** Entry `i` of the table describes `s`, whose bytes start at `payload`. */
  ghost predicate RunAt(data: seq<byte>, table: nat, i: nat, payload: nat, s: Segment) {
    && U64Field(data, table + 16 * i).Ok? && U64Field(data, table + 16 * i + 8).Ok?
    && s.start == U64Field(data, table + 16 * i).value * PAGE_SIZE
    && |s.data| == U64Field(data, table + 16 * i + 8).value * PAGE_SIZE
    && 0 < |s.data| < U64_LIMIT
    && Marked(data, payload, s.data)
  }

  function ReadRun(data: seq<byte>, table: nat, i: nat, payload: nat): (r: Result<Segment>)
    ensures r.Ok? <==> exists s :: RunAt(data, table, i, payload, s)
    ensures r.Ok? ==> RunAt(data, table, i, payload, r.value)
  {
    var basePage :- U64Field(data, table + 16 * i);
    var pageCount :- U64Field(data, table + 16 * i + 8);
    if pageCount == 0 then Err(Backend("KDMP physical run is empty"))
    else if basePage * PAGE_SIZE >= U64_LIMIT then Err(Backend("KDMP physical address overflow"))
    else if pageCount * PAGE_SIZE >= U64_LIMIT then Err(Backend("KDMP run length overflow"))
    else if payload + pageCount * PAGE_SIZE > |data| then Err(Backend("KDMP physical run exceeds artifact"))
    else
      var s := Segment(basePage * PAGE_SIZE, data[payload..payload + pageCount * PAGE_SIZE]);
      assert RunAt(data, table, i, payload, s);
      Ok(s)
  }

  lemma RunAtFacts(data: seq<byte>, table: nat, i: nat, payload: nat, s: Segment)
    requires RunAt(data, table, i, payload, s)
    ensures ReadRun(data, table, i, payload) == Ok(s)
    ensures 0 < |s.data| < U64_LIMIT && |s.data| % PAGE_SIZE == 0 && payload + |s.data| <= |data|
  {
  }

  function Total(segments: seq<Segment>): nat {
    if segments == [] then 0 else Total(segments[..|segments| - 1]) + |segments[|segments| - 1].data|
  }

  /** The payloads of a run table sit one after another from `payload`. */
  ghost predicate RunTable(data: seq<byte>, table: nat, payload: nat, segments: seq<Segment>) {
    forall i | 0 <= i < |segments| :: RunAt(data, table, i, payload + Total(segments[..i]), segments[i])
  }

  lemma ExtendRunTable(data: seq<byte>, table: nat, payload: nat, done: seq<Segment>, s: Segment)
    requires RunTable(data, table, payload, done)
    requires RunAt(data, table, |done|, payload + Total(done), s)
    ensures RunTable(data, table, payload, done + [s])
    ensures Total(done + [s]) == Total(done) + |s.data|
  {
    hide RunAt, Total;
    var all := done + [s];
    TotalPush(done, s);
    forall i | 0 <= i < |all| ensures RunAt(data, table, i, payload + Total(all[..i]), all[i]) {
      if i < |done| {
        assert all[..i] == done[..i] && all[i] == done[i];
      } else {
        assert all[..i] == done && all[i] == s;
      }
    }
  }

  lemma TotalPush(done: seq<Segment>, s: Segment)
    ensures Total(done + [s]) == Total(done) + |s.data|
  {
    assert (done + [s])[..|done|] == done;
  }

  // ---------- the legacy run table ----------

  /** Reads the entries from `|done|` on; `actual` counts their pages. */
  function RunsFrom(data: seq<byte>, count: nat, payload: nat, actual: nat, done: seq<Segment>):
    Result<(seq<Segment>, nat)>
    decreases count - |done|
  {
    if |done| >= count then Ok((done, actual))
    else
      var s :- ReadRun(data, RUNS_OFFSET, |done|, payload);
      var pages := |s.data| / PAGE_SIZE;
      if actual + pages >= U64_LIMIT then Err(Backend("KDMP page count overflow"))
      else RunsFrom(data, count, payload + |s.data|, actual + pages, done + [s])
  }

  function LegacyRuns(data: seq<byte>): Result<seq<Segment>> {
    var machine :- U32Field(data, 0x30);
    if machine != 0x8664 then Err(Backend("unsupported KDMP machine type"))
    else
      var runCount :- U32Field(data, DESCRIPTOR_OFFSET);
      var declaredPages :- U64Field(data, DESCRIPTOR_OFFSET + 8);
      if runCount == 0 || runCount > MAXIMUM_RUNS then Err(Backend("invalid KDMP physical run count"))
      else
        var (segments, actualPages) :- RunsFrom(data, runCount, HEADER_SIZE, 0, []);
        if actualPages != declaredPages then Err(Backend("KDMP declares another number of pages"))
        else Ok(segments)
  }

  ghost function LegacyParsed(data: seq<byte>): Result<SnapshotBundle> {
    match LegacyRuns(data)
    case Err(e) => Err(e)
    case Ok(segments) => Assembled(segments, "KDMP physical memory runs overlap")
  }

  method FromLegacy(data: seq<byte>) returns (r: Result<SnapshotBundle>)
    ensures r == LegacyParsed(data)
    ensures r.Ok? ==> r.value.Valid()
  {
    hide RunAt, ReadRun;
    var machine :- U32Field(data, 0x30);
    if machine != 0x8664 { return Err(Backend("unsupported KDMP machine type")); }
    var runCount :- U32Field(data, DESCRIPTOR_OFFSET);
    var declaredPages :- U64Field(data, DESCRIPTOR_OFFSET + 8);
    if runCount == 0 || runCount > MAXIMUM_RUNS { return Err(Backend("invalid KDMP physical run count")); }
    var payloadOffset: nat, actualPages: nat, segments: seq<Segment> := HEADER_SIZE, 0, [];
    while |segments| < runCount
      invariant |segments| <= runCount
      invariant RunsFrom(data, runCount, payloadOffset, actualPages, segments)
        == RunsFrom(data, runCount, HEADER_SIZE, 0, [])
    {
      var segment :- ReadRun(data, RUNS_OFFSET, |segments|, payloadOffset);
      if actualPages + |segment.data| / PAGE_SIZE >= U64_LIMIT { return Err(Backend("KDMP page count overflow")); }
      actualPages := actualPages + |segment.data| / PAGE_SIZE;
      payloadOffset := payloadOffset + |segment.data|;
      segments := segments + [segment];
    }
    if actualPages != declaredPages { return Err(Backend("KDMP declares another number of pages")); }
    r := Assemble(segments, "KDMP physical memory runs overlap");
  }

  /** What a legacy dump of `segments` looks like. */
  ghost predicate LegacyFile(data: seq<byte>, segments: seq<Segment>) {
    && U32Field(data, 0x30) == Ok(0x8664)
    && U32Field(data, DESCRIPTOR_OFFSET) == Ok(|segments|)
    && 1 <= |segments| <= MAXIMUM_RUNS
    && U64Field(data, DESCRIPTOR_OFFSET + 8).Ok?
    && U64Field(data, DESCRIPTOR_OFFSET + 8).value * PAGE_SIZE == Total(segments)
    && RunTable(data, RUNS_OFFSET, HEADER_SIZE, segments)
  }

  lemma {:induction false} RunsFromIsTable(data: seq<byte>, count: nat, done: seq<Segment>)
    requires |done| <= count && RunTable(data, RUNS_OFFSET, HEADER_SIZE, done) && Total(done) % PAGE_SIZE == 0
    ensures var r := RunsFrom(data, count, HEADER_SIZE + Total(done), Total(done) / PAGE_SIZE, done);
      r.Ok? ==>
        && |r.value.0| == count && r.value.1 * PAGE_SIZE == Total(r.value.0)
        && RunTable(data, RUNS_OFFSET, HEADER_SIZE, r.value.0)
    decreases count - |done|
  {
    hide RunAt, ReadRun, RunTable, Total;
    if |done| < count {
      var s := ReadRun(data, RUNS_OFFSET, |done|, HEADER_SIZE + Total(done));
      if s.Ok? {
        RunAtFacts(data, RUNS_OFFSET, |done|, HEADER_SIZE + Total(done), s.value);
        ExtendRunTable(data, RUNS_OFFSET, HEADER_SIZE, done, s.value);
        RunsFromIsTable(data, count, done + [s.value]);
      }
    }
  }

  lemma {:induction false} TotalWithin(data: seq<byte>, table: nat, payload: nat, segments: seq<Segment>, i: nat)
    requires RunTable(data, table, payload, segments) && i <= |segments|
    ensures Total(segments[..i]) % PAGE_SIZE == 0
    ensures i > 0 ==> payload + Total(segments[..i]) <= |data|
  {
    hide RunAt, ReadRun;
    if i > 0 {
      TotalWithin(data, table, payload, segments, i - 1);
      assert segments[..i][..i - 1] == segments[..i - 1];
      RunAtFacts(data, table, i - 1, payload + Total(segments[..i - 1]), segments[i - 1]);
    }
  }

  lemma {:induction false} TableIsRunsFrom(data: seq<byte>, segments: seq<Segment>, i: nat)
    requires RunTable(data, RUNS_OFFSET, HEADER_SIZE, segments) && i <= |segments|
    requires Total(segments) < U64_LIMIT * PAGE_SIZE
    ensures RunsFrom(data, |segments|, HEADER_SIZE + Total(segments[..i]), Total(segments[..i]) / PAGE_SIZE, segments[..i])
      == Ok((segments, Total(segments) / PAGE_SIZE))
    decreases |segments| - i
  {
    hide RunAt, ReadRun, Total;
    if i == |segments| {
      assert segments[..i] == segments;
    } else {
      var payload := HEADER_SIZE + Total(segments[..i]);
      RunAtFacts(data, RUNS_OFFSET, i, payload, segments[i]);
      assert segments[..i] + [segments[i]] == segments[..i + 1];
      TotalPush(segments[..i], segments[i]);
      TotalWithin(data, RUNS_OFFSET, HEADER_SIZE, segments, i);
      TotalMonotone(segments, i + 1);
      TableIsRunsFrom(data, segments, i + 1);
    }
  }

  lemma {:induction false} TotalMonotone(segments: seq<Segment>, i: nat)
    requires i <= |segments|
    ensures Total(segments[..i]) <= Total(segments)
    decreases |segments| - i
  {
    if i == |segments| {
      assert segments[..i] == segments;
    } else {
      assert segments[..i + 1][..i] == segments[..i];
      TotalMonotone(segments, i + 1);
    }
  }

  /** The run table is read exactly: parsing yields `segments` if and only if the
      file lays them out at prefix-sum offsets that add up to the declared pages. */
  lemma LegacyExact(data: seq<byte>, segments: seq<Segment>)
    ensures LegacyRuns(data) == Ok(segments) <==> LegacyFile(data, segments)
  {
    hide RunAt, ReadRun, RunsFrom, U32Field, U64Field;
    if LegacyRuns(data) == Ok(segments) {
      RunsFromIsTable(data, U32Field(data, DESCRIPTOR_OFFSET).value, []);
    }
    if LegacyFile(data, segments) {
      assert segments[..0] == [];
      TableIsRunsFrom(data, segments, 0);
    }
  }

  /** The bundle: accepted exactly when the runs are pairwise disjoint, in any
      table order, and then every byte reads back from its run. */
  lemma LegacyReadsBack(data: seq<byte>, segments: seq<Segment>)
    requires LegacyFile(data, segments)
    ensures LegacyParsed(data).Ok? <==> PairwiseDisjoint(segments)
    ensures LegacyParsed(data).Ok? ==> LegacyParsed(data).value.View().bytes == Contents(segments)
  {
    LegacyExact(data, segments);
    forall i | 0 <= i < |segments| ensures |segments[i].data| > 0 {
      assert RunAt(data, RUNS_OFFSET, i, HEADER_SIZE + Total(segments[..i]), segments[i]);
    }
    AssembledMeaning(segments, "KDMP physical memory runs overlap");
  }

  // ---------- the RDMP range table ----------

  /** Reads ranges until a zero base page or the end of the table.  The table has
      one slot more than the metadata that precedes the first payload byte. */
  function RangesFrom(data: seq<byte>, count: nat, payload: nat, done: seq<Segment>): Result<seq<Segment>>
    decreases count - |done|
  {
    if |done| >= count then Ok(done)
    else
      var basePage :- U64Field(data, RDMP_RANGES + 16 * |done|);
      var pageCount :- U64Field(data, RDMP_RANGES + 16 * |done| + 8);
      if basePage == 0 then Ok(done)
      else
        var s :- ReadRun(data, RDMP_RANGES, |done|, payload);
        RangesFrom(data, count, payload + |s.data|, done + [s])
  }

  predicate RdmpLayout(data: seq<byte>) {
    && Marked(data, HEADER_SIZE + 8, DUMP)
    && U64Field(data, HEADER_SIZE + 0x10).Ok? && U64Field(data, HEADER_SIZE + 0x18).Ok?
    && var metadataSize, firstPage := U64Field(data, HEADER_SIZE + 0x10).value, U64Field(data, HEADER_SIZE + 0x18).value;
       && metadataSize >= 0x20 && metadataSize % 16 == 0
       && firstPage == metadataSize + 0x2020 <= |data|
  }

  function RdmpRanges(data: seq<byte>): Result<seq<Segment>> {
    if !RdmpLayout(data) then Err(Backend("invalid RDMP KDMP metadata layout"))
    else
      var metadataSize, firstPage := U64Field(data, HEADER_SIZE + 0x10).value, U64Field(data, HEADER_SIZE + 0x18).value;
      var segments :- RangesFrom(data, metadataSize / 16, firstPage, []);
      if segments == [] then Err(Backend("RDMP KDMP contains no physical ranges")) else Ok(segments)
  }

  ghost function RdmpParsed(data: seq<byte>): Result<SnapshotBundle> {
    match RdmpRanges(data)
    case Err(e) => Err(e)
    case Ok(segments) => Assembled(segments, "RDMP KDMP physical ranges overlap")
  }

  method FromRdmp(data: seq<byte>) returns (r: Result<SnapshotBundle>)
    ensures r == RdmpParsed(data)
    ensures r.Ok? ==> r.value.Valid()
  {
    hide RunAt, ReadRun;
    if !RdmpLayout(data) { return Err(Backend("invalid RDMP KDMP metadata layout")); }
    var metadataSize := U64Field(data, HEADER_SIZE + 0x10).value;
    var firstPage := U64Field(data, HEADER_SIZE + 0x18).value;
    var rangeCount := metadataSize / 16;
    var payload: nat, segments: seq<Segment> := firstPage, [];
    while |segments| < rangeCount
      invariant |segments| <= rangeCount
      invariant RangesFrom(data, rangeCount, payload, segments) == RangesFrom(data, rangeCount, firstPage, [])
      decreases rangeCount - |segments|
    {
      var basePage :- U64Field(data, RDMP_RANGES + 16 * |segments|);
      var pageCount :- U64Field(data, RDMP_RANGES + 16 * |segments| + 8);
      if basePage == 0 { break; }
      var segment :- ReadRun(data, RDMP_RANGES, |segments|, payload);
      payload := payload + |segment.data|;
      segments := segments + [segment];
    }
    assert RangesFrom(data, rangeCount, payload, segments) == Ok(segments);
    if segments == [] { return Err(Backend("RDMP KDMP contains no physical ranges")); }
    r := Assemble(segments, "RDMP KDMP physical ranges overlap");
  }

  /** What an RDMP dump of `segments` looks like: none starts at page zero, and
      the table ends after them, by a zero base or by its size. */
  ghost predicate RdmpFile(data: seq<byte>, segments: seq<Segment>) {
    && RdmpLayout(data) && segments != []
    && RdmpTable(data, U64Field(data, HEADER_SIZE + 0x10).value / 16, U64Field(data, HEADER_SIZE + 0x18).value, segments)
  }

  ghost predicate RdmpTable(data: seq<byte>, count: nat, payload: nat, segments: seq<Segment>) {
    && |segments| <= count
    && RunTable(data, RDMP_RANGES, payload, segments)
    && (forall i | 0 <= i < |segments| :: segments[i].start != 0)
    && (|segments| < count ==>
         && U64Field(data, RDMP_RANGES + 16 * |segments|) == Ok(0)
         && U64Field(data, RDMP_RANGES + 16 * |segments| + 8).Ok?)
  }

  lemma RunBaseZero(data: seq<byte>, i: nat, payload: nat, s: Segment)
    requires RunAt(data, RDMP_RANGES, i, payload, s)
    ensures U64Field(data, RDMP_RANGES + 16 * i).Ok? && U64Field(data, RDMP_RANGES + 16 * i + 8).Ok?
    ensures U64Field(data, RDMP_RANGES + 16 * i).value == 0 <==> s.start == 0
  {
  }

  lemma {:induction false} RangesFromIsTable(data: seq<byte>, count: nat, payload: nat, done: seq<Segment>)
    requires |done| <= count && RunTable(data, RDMP_RANGES, payload, done)
    requires forall i | 0 <= i < |done| :: done[i].start != 0
    ensures var r := RangesFrom(data, count, payload + Total(done), done);
      r.Ok? ==> RdmpTable(data, count, payload, r.value)
    decreases count - |done|
  {
    hide RunAt, ReadRun, RunTable, Total, U64Field;
    if |done| < count {
      var base, pages := U64Field(data, RDMP_RANGES + 16 * |done|), U64Field(data, RDMP_RANGES + 16 * |done| + 8);
      if base.Ok? && pages.Ok? && base.value != 0 {
        var s := ReadRun(data, RDMP_RANGES, |done|, payload + Total(done));
        if s.Ok? {
          RunBaseZero(data, |done|, payload + Total(done), s.value);
          ExtendRunTable(data, RDMP_RANGES, payload, done, s.value);
          RangesFromIsTable(data, count, payload, done + [s.value]);
        }
      } else if base.Ok? && pages.Ok? {
        assert base == Ok(base.value);
      }
    }
  }

  lemma {:induction false} TableIsRangesFrom(data: seq<byte>, count: nat, payload: nat, segments: seq<Segment>, i: nat)
    requires RdmpTable(data, count, payload, segments) && i <= |segments|
    ensures RangesFrom(data, count, payload + Total(segments[..i]), segments[..i]) == Ok(segments)
    decreases |segments| - i
  {
    hide RunAt, ReadRun, U64Field, Total;
    if i == |segments| {
      assert segments[..i] == segments;
    } else {
      RunAtFacts(data, RDMP_RANGES, i, payload + Total(segments[..i]), segments[i]);
      RunBaseZero(data, i, payload + Total(segments[..i]), segments[i]);
      assert segments[..i] + [segments[i]] == segments[..i + 1];
      TotalPush(segments[..i], segments[i]);
      TableIsRangesFrom(data, count, payload, segments, i + 1);
    }
  }

  /** The range table, too, is read exactly. */
  lemma RdmpExact(data: seq<byte>, segments: seq<Segment>)
    ensures RdmpRanges(data) == Ok(segments) <==> RdmpFile(data, segments)
  {
    hide RunAt, ReadRun, RangesFrom, U64Field, RdmpTable, Marked;
    if RdmpLayout(data) {
      var count, payload := U64Field(data, HEADER_SIZE + 0x10).value / 16, U64Field(data, HEADER_SIZE + 0x18).value;
      if RdmpRanges(data) == Ok(segments) { RangesFromIsTable(data, count, payload, []); }
      if RdmpFile(data, segments) {
        assert segments[..0] == [];
        TableIsRangesFrom(data, count, payload, segments, 0);
      }
    }
  }

  lemma RdmpReadsBack(data: seq<byte>, segments: seq<Segment>)
    requires RdmpFile(data, segments)
    ensures RdmpParsed(data).Ok? <==> PairwiseDisjoint(segments)
    ensures RdmpParsed(data).Ok? ==> RdmpParsed(data).value.View().bytes == Contents(segments)
  {
    hide RunAt, U64Field;
    RdmpExact(data, segments);
    var payload := U64Field(data, HEADER_SIZE + 0x18).value;
    forall i | 0 <= i < |segments| ensures |segments[i].data| > 0 {
      RunAtFacts(data, RDMP_RANGES, i, payload + Total(segments[..i]), segments[i]);
    }
    AssembledMeaning(segments, "RDMP KDMP physical ranges overlap");
  }
}
