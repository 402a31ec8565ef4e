/** `SnapshotBundle::from_lime`: a LiME file is a list of records, each a 32-byte
    header and the bytes of one physical range. */
module Lime {
  import opened Words
  import opened VmiTypes
  import opened Segments
  import opened SegmentOrder
  import opened Snapshot

  const HEADER_SIZE: nat := 32
  const LIME_MAGIC: nat := 0x4c69_4d45

  /** The last eight header bytes are not looked at. */
  datatype Record = Record(segment: Segment, reserved: seq<byte>)

  /** What a record can describe: a range that is not empty, ends below 2^64 and
      is not the whole address space. */
  predicate ValidRecord(r: Record) {
    && 0 < |r.segment.data| < U64_LIMIT
    && r.segment.End() <= U64_LIMIT
    && |r.reserved| == 8
  }

  function Encode(r: Record): (e: seq<byte>)
    requires ValidRecord(r)
    ensures |e| == 32 + |r.segment.data|
  {
    ToLe(0x4c69_4d45, 4) + ToLe(1, 4) + ToLe(r.segment.start, 8) + ToLe(r.segment.End() - 1, 8)
    + r.reserved + r.segment.data
  }

  function EncodeAll(records: seq<Record>): seq<byte>
    requires forall r | r in records :: ValidRecord(r)
  {
    if records == [] then [] else Encode(records[0]) + EncodeAll(records[1..])
  }

  function SegmentsOf(records: seq<Record>): (s: seq<Segment>)
    ensures |s| == |records|
    ensures forall i | 0 <= i < |s| :: s[i] == records[i].segment
  {
    seq(|records|, i requires 0 <= i < |records| => records[i].segment)
  }

  function U32At(data: seq<byte>, offset: nat): nat
    requires offset + 4 <= |data|
  {
    FromLe(data[offset..offset + 4])
  }

  function U64At(data: seq<byte>, offset: nat): u64
    requires offset + 8 <= |data|
  {
    U64FromLe(data[offset..offset + 8])
  }

  /** The record at `cursor`. */
  function RecordAt(data: seq<byte>, cursor: nat): (r: Result<Record>)
    requires cursor <= |data|
    ensures r.Ok? ==> ValidRecord(r.value) && cursor + HEADER_SIZE + |r.value.segment.data| <= |data|
  {
    if cursor + HEADER_SIZE > |data| then Err(Backend("truncated LiME range header"))
    else if U32At(data, cursor) != LIME_MAGIC then Err(Backend("invalid LiME magic"))
    else if U32At(data, cursor + 4) != 1 then Err(Backend("unsupported LiME version"))
    else
      var start, end := U64At(data, cursor + 8), U64At(data, cursor + 16);
      if end < start || end - start + 1 >= U64_LIMIT then Err(Backend("invalid LiME range"))
      else
        var length := end - start + 1;
        var body := cursor + HEADER_SIZE;
        if body + length > |data| then Err(Backend("LiME range extends beyond artifact"))
        else Ok(Record(Segment(start, data[body..body + length]), data[cursor + 24..body]))
  }

  function ParseFrom(data: seq<byte>, cursor: nat, done: seq<Record>): Result<seq<Record>>
    requires cursor <= |data|
    decreases |data| - cursor
  {
    if cursor == |data| then Ok(done)
    else
      match RecordAt(data, cursor)
      case Err(e) => Err(e)
      case Ok(r) => ParseFrom(data, cursor + HEADER_SIZE + |r.segment.data|, done + [r])
  }

  ghost function Parsed(data: seq<byte>): Result<SnapshotBundle> {
    match ParseFrom(data, 0, [])
    case Err(e) => Err(e)
    case Ok(records) =>
      if records == [] then Err(Backend("LiME artifact contains no ranges"))
      else Assembled(SegmentsOf(records), "LiME physical ranges overlap")
  }

  method FromLime(data: seq<byte>) returns (r: Result<SnapshotBundle>)
    ensures r == Parsed(data)
    ensures r.Ok? ==> r.value.Valid()
  {
    hide FromLe, Assembled;
    var cursor, segments := 0, [];
    ghost var records: seq<Record> := [];
    while cursor < |data|
      invariant cursor <= |data| && segments == SegmentsOf(records)
      invariant ParseFrom(data, cursor, records) == ParseFrom(data, 0, [])
    {
      ghost var record := RecordAt(data, cursor);
      var headerEnd := cursor + HEADER_SIZE;
      if headerEnd > |data| { return Err(Backend("truncated LiME range header")); }
      if U32At(data, cursor) != LIME_MAGIC { return Err(Backend("invalid LiME magic")); }
      if U32At(data, cursor + 4) != 1 { return Err(Backend("unsupported LiME version")); }
      var start, end := U64At(data, cursor + 8), U64At(data, cursor + 16);
      if end < start || end - start + 1 >= U64_LIMIT { return Err(Backend("invalid LiME range")); }
      var dataEnd := headerEnd + (end - start + 1);
      if dataEnd > |data| { return Err(Backend("LiME range extends beyond artifact")); }
      segments := segments + [Segment(start, data[headerEnd..dataEnd])];
      records := records + [record.value];
      cursor := dataEnd;
    }
    if segments == [] { return Err(Backend("LiME artifact contains no ranges")); }
    r := Assemble(segments, "LiME physical ranges overlap");
  }

  // ---------- parsing inverts writing ----------

  lemma RecordRoundTrip(r: Record, before: seq<byte>, after: seq<byte>)
    requires ValidRecord(r)
    ensures RecordAt(before + Encode(r) + after, |before|) == Ok(r)
  {
    hide FromLe, ToLe;
    var data, c := before + Encode(r) + after, |before|;
    assert data[c..c + 4] == ToLe(LIME_MAGIC, 4);
    assert data[c + 4..c + 8] == ToLe(1, 4);
    assert data[c + 8..c + 16] == ToLe(r.segment.start, 8);
    assert data[c + 16..c + 24] == ToLe(r.segment.End() - 1, 8);
    assert data[c + 24..c + 32] == r.reserved;
    assert data[c + 32..c + 32 + |r.segment.data|] == r.segment.data;
    HeaderFieldsFit(r);
  }

  lemma HalfWord(n: nat)
    requires n == 32
    ensures Pow2(n) == 0x1_0000_0000
  {
    Pow2Plus16(n - 32);
    Pow2Plus16(n - 16);
  }

  lemma HeaderFieldsFit(r: Record)
    requires ValidRecord(r)
    ensures FromLe(ToLe(LIME_MAGIC, 4)) == LIME_MAGIC && FromLe(ToLe(1, 4)) == 1
    ensures FromLe(ToLe(r.segment.start, 8)) == r.segment.start
    ensures FromLe(ToLe(r.segment.End() - 1, 8)) == r.segment.End() - 1
  {
    hide FromLe, ToLe, Pow2;
    var n, w := 32, 64;
    HalfWord(n);
    Pow2Value(w);
    LeRoundTrip(LIME_MAGIC, 4);
    LeRoundTrip(1, 4);
    LeRoundTrip(r.segment.start, 8);
    LeRoundTrip(r.segment.End() - 1, 8);
  }

  lemma RecordBytes(data: seq<byte>, cursor: nat)
    requires cursor <= |data| && RecordAt(data, cursor).Ok?
    ensures var r := RecordAt(data, cursor).value;
      data[cursor..cursor + HEADER_SIZE + |r.segment.data|] == Encode(r)
  {
    hide FromLe, ToLe;
    var r := RecordAt(data, cursor).value;
    ToLeFromLe(data[cursor..cursor + 4]);
    ToLeFromLe(data[cursor + 4..cursor + 8]);
    ToLeFromLe(data[cursor + 8..cursor + 16]);
    ToLeFromLe(data[cursor + 16..cursor + 24]);
    var e := Encode(r);
    assert data[cursor..cursor + HEADER_SIZE + |r.segment.data|]
      == data[cursor..cursor + 4] + data[cursor + 4..cursor + 8] + data[cursor + 8..cursor + 16]
       + data[cursor + 16..cursor + 24] + data[cursor + 24..cursor + 32]
       + data[cursor + 32..cursor + HEADER_SIZE + |r.segment.data|];
  }

  lemma {:induction false} ParseEncoded(before: seq<byte>, records: seq<Record>, done: seq<Record>)
    requires forall r | r in records :: ValidRecord(r)
    ensures ParseFrom(before + EncodeAll(records), |before|, done) == Ok(done + records)
    decreases |records|
  {
    hide Encode, RecordAt;
    if records == [] {
      assert done + records == done;
    } else {
      var r, rest := records[0], records[1..];
      var data := before + EncodeAll(records);
      assert data == before + Encode(r) + EncodeAll(rest);
      RecordRoundTrip(r, before, EncodeAll(rest));
      ParseEncoded(before + Encode(r), rest, done + [r]);
      assert data == (before + Encode(r)) + EncodeAll(rest);
      assert done + [r] + rest == done + records;
    }
  }

  lemma {:induction false} ParsedIsEncoded(data: seq<byte>, cursor: nat, done: seq<Record>)
    requires cursor <= |data| && ParseFrom(data, cursor, done).Ok?
    ensures var records := ParseFrom(data, cursor, done).value;
      && |done| <= |records| && records[..|done|] == done
      && (forall r | r in records[|done|..] :: ValidRecord(r))
      && data[cursor..] == EncodeAll(records[|done|..])
    decreases |data| - cursor
  {
    hide Encode, RecordAt, ValidRecord;
    var records := ParseFrom(data, cursor, done).value;
    if cursor == |data| {
      assert records[|done|..] == [];
    } else {
      var r := RecordAt(data, cursor).value;
      var next := cursor + HEADER_SIZE + |r.segment.data|;
      RecordBytes(data, cursor);
      ParsedIsEncoded(data, next, done + [r]);
      var tail := records[|done + [r]|..];
      assert records[|done|..] == [r] + tail by {
        assert records[..|done + [r]|][|done|] == r;
      }
      assert records[..|done|] == records[..|done + [r]|][..|done|];
      assert data[cursor..] == data[cursor..next] + data[next..];
    }
  }

  /** Files and record lists correspond one to one: parsing succeeds on exactly
      the files that some list of valid records writes, and returns that list. */
  lemma LimeRoundTrip(records: seq<Record>, data: seq<byte>)
    requires forall r | r in records :: ValidRecord(r)
    ensures ParseFrom(data, 0, []) == Ok(records) <==> data == EncodeAll(records)
  {
    if data == EncodeAll(records) {
      ParseEncoded([], records, []);
      assert [] + EncodeAll(records) == data && [] + records == records;
    }
    if ParseFrom(data, 0, []) == Ok(records) {
      ParsedIsEncoded(data, 0, []);
      assert records[0..] == records && data[0..] == data;
    }
  }

  /** The bundle of a file written from ranges in any order: accepted exactly when
      there is a range and no two overlap, and then it reads back every byte. */
  lemma LimeReadsBack(records: seq<Record>)
    requires forall r | r in records :: ValidRecord(r)
    ensures var r := Parsed(EncodeAll(records));
      && (r.Ok? <==> records != [] && PairwiseDisjoint(SegmentsOf(records)))
      && (r.Ok? ==> r.value.View().bytes == Contents(SegmentsOf(records)))
  {
    LimeRoundTrip(records, EncodeAll(records));
    if records != [] {
      assert forall i | 0 <= i < |records| :: ValidRecord(records[i]);
      AssembledMeaning(SegmentsOf(records), "LiME physical ranges overlap");
    }
  }
}
