/** ELF64 core files as they are written, byte by byte, and what `from_elf` makes of
    one: where each field is, and which of them counts. */
module ElfFile {
  import opened Words
  import opened VmiTypes
  import opened Segments
  import opened SegmentOrder
  import opened FileFields
  import opened Kdmp
  import opened Elf

  /** The fields of a file header, in order; `ident` follows the class and data bytes. */
  datatype FileHeader = FileHeader(
    ident: seq<byte>, kind: u16, machine: u16, version: u32, start: u64, tableOffset: u64, sections: u64, flags: u32,
    headerSize: u16, entrySize: u16, count: u16, sectionSize: u16, sectionCount: u16, names: u16)

  /** The fields of a program header, in order. */
  datatype ProgramHeader = ProgramHeader(
    kind: u32, flags: u32, fileOffset: u64, virtual: u64, physical: u64, fileSize: u64, memorySize: u64,
    alignment: u64, padding: seq<byte>)

  function EncodeFile(f: FileHeader): (e: seq<byte>)
    requires |f.ident| == 10
    ensures |e| == 64
  {
    [0x7f, 0x45, 0x4c, 0x46, 2, 1] + f.ident
    + ToLe(f.kind, 2) + ToLe(f.machine, 2) + ToLe(f.version, 4) + ToLe(f.start, 8)
    + ToLe(f.tableOffset, 8) + ToLe(f.sections, 8) + ToLe(f.flags, 4) + ToLe(f.headerSize, 2)
    + ToLe(f.entrySize, 2) + ToLe(f.count, 2) + ToLe(f.sectionSize, 2) + ToLe(f.sectionCount, 2) + ToLe(f.names, 2)
  }

  function Encode(h: ProgramHeader): (e: seq<byte>)
    ensures |e| == 56 + |h.padding|
  {
    ToLe(h.kind, 4) + ToLe(h.flags, 4) + ToLe(h.fileOffset, 8) + ToLe(h.virtual, 8) + ToLe(h.physical, 8)
    + ToLe(h.fileSize, 8) + ToLe(h.memorySize, 8) + ToLe(h.alignment, 8) + h.padding
  }

  function EncodeTable(headers: seq<ProgramHeader>): seq<byte> {
    if headers == [] then [] else Encode(headers[0]) + EncodeTable(headers[1..])
  }

  /** The file header comes first, and the table is where it says; everything else is
      free. */
  ghost predicate LaidOut(data: seq<byte>, f: FileHeader, headers: seq<ProgramHeader>) {
    && |f.ident| == 10 && f.count == |headers| && f.entrySize >= 56
    && (forall h | h in headers :: |h.padding| == f.entrySize - 56)
    && |data| < U64_LIMIT && EncodeFile(f) <= data
    && f.tableOffset + |EncodeTable(headers)| <= |data|
    && data[f.tableOffset..f.tableOffset + |EncodeTable(headers)|] == EncodeTable(headers)
  }

  /** The memory a loaded header describes. */
  predicate Fits(data: seq<byte>, h: ProgramHeader) {
    h.fileSize <= h.memorySize && h.fileOffset + h.fileSize <= |data|
  }

  function MemoryOf(data: seq<byte>, h: ProgramHeader): (s: Segment)
    requires Fits(data, h)
    ensures s.start == h.physical && |s.data| == h.memorySize
  {
    Segment(h.physical, data[h.fileOffset..h.fileOffset + h.fileSize] + Zeros(h.memorySize - h.fileSize))
  }

  /** The headers of type 1, in order. */
  function LoadsOf(headers: seq<ProgramHeader>): (r: seq<ProgramHeader>)
    ensures forall h :: h in r <==> h in headers && h.kind == 1
  {
    if headers == [] then []
    else
      assert headers == [headers[0]] + headers[1..];
      (if headers[0].kind == 1 then [headers[0]] else []) + LoadsOf(headers[1..])
  }

  function Memories(data: seq<byte>, headers: seq<ProgramHeader>): (r: seq<Segment>)
    requires forall h | h in headers :: Fits(data, h)
    ensures |r| == |headers| && forall i | 0 <= i < |r| :: r[i] == MemoryOf(data, headers[i])
  {
    seq(|headers|, i requires 0 <= i < |headers| => MemoryOf(data, headers[i]))
  }

  // ---------- the fields are where they were written ----------

  lemma EntryIsHeader(data: seq<byte>, at: nat, h: ProgramHeader)
    requires at + |Encode(h)| <= |data| && data[at..at + |Encode(h)|] == Encode(h)
    ensures EntryAt(data, at) ==
      Ok(if h.kind == 1 then Load(Header(h.fileOffset, h.physical, h.fileSize, h.memorySize)) else Skipped)
  {
    hide FromLe, ToLe, Pow2;
    var e := Encode(h);
    WidthOf(4);
    WidthOf(8);
    FieldAt(data, at, e, [], h.kind, 4, e[4..]);
    FieldAt(data, at, e, e[..8], h.fileOffset, 8, e[16..]);
    FieldAt(data, at, e, e[..24], h.physical, 8, e[32..]);
    FieldAt(data, at, e, e[..32], h.fileSize, 8, e[40..]);
    FieldAt(data, at, e, e[..40], h.memorySize, 8, e[48..]);
  }

  lemma TableIsHeader(data: seq<byte>, f: FileHeader)
    requires |f.ident| == 10 && f.entrySize >= 56 && EncodeFile(f) <= data
    ensures TableOf(data) == Ok(Table(f.tableOffset, f.entrySize, f.count))
  {
    hide FromLe, ToLe, Pow2;
    var e := EncodeFile(f);
    WidthOf(2);
    WidthOf(8);
    assert data[0..0 + |e|] == e && data[..6] == e[..6];
    FieldAt(data, 0, e, e[..32], f.tableOffset, 8, e[40..]);
    FieldAt(data, 0, e, e[..54], f.entrySize, 2, e[56..]);
    FieldAt(data, 0, e, e[..56], f.count, 2, e[58..]);
  }

  /** Where entry `i` of a table is. */
  function EntryStart(i: nat, size: nat): nat {
    if i == 0 then 0 else EntryStart(i - 1, size) + size
  }

  lemma {:induction false} EntryStartIs(i: nat, size: nat)
    ensures EntryStart(i, size) == i * size
  {
    if i > 0 {
      EntryStartIs(i - 1, size);
      assert i * size == (i - 1) * size + size;
    }
  }

  lemma {:induction false} EntryOfTable(headers: seq<ProgramHeader>, size: nat, i: nat)
    requires i < |headers| && size >= 56 && forall h | h in headers :: |h.padding| == size - 56
    ensures EntryStart(i, size) + size <= |EncodeTable(headers)|
    ensures EncodeTable(headers)[EntryStart(i, size)..EntryStart(i, size) + size] == Encode(headers[i])
  {
    hide Encode;
    var rest := EncodeTable(headers[1..]);
    assert |Encode(headers[0])| == size;
    if i > 0 {
      EntryOfTable(headers[1..], size, i - 1);
      var at := EntryStart(i - 1, size);
      assert EncodeTable(headers)[size + at..size + at + size] == rest[at..at + size];
    }
  }

  lemma EntryOfFile(data: seq<byte>, f: FileHeader, headers: seq<ProgramHeader>, i: nat)
    requires LaidOut(data, f, headers) && i < |headers|
    ensures var h := headers[i];
      TableEntry(data, Table(f.tableOffset, f.entrySize, f.count), i) ==
        Ok(if h.kind == 1 then Load(Header(h.fileOffset, h.physical, h.fileSize, h.memorySize)) else Skipped)
  {
    hide Encode, EncodeFile, EntryAt, EncodeTable;
    var size: nat, table := f.entrySize, EncodeTable(headers);
    EntryOfTable(headers, size, i);
    EntryStartIs(i, size);
    var from := EntryStart(i, size);
    SlicePart(data, f.tableOffset, table, from, from + size);
    EntryIsHeader(data, f.tableOffset + from, headers[i]);
  }

  // ---------- what a file loads ----------

  lemma DescribesMemory(data: seq<byte>, h: ProgramHeader, s: Segment)
    ensures Describes(data, Header(h.fileOffset, h.physical, h.fileSize, h.memorySize), s) <==>
      Fits(data, h) && s == MemoryOf(data, h)
  {
    if Describes(data, Header(h.fileOffset, h.physical, h.fileSize, h.memorySize), s) {
      assert s.data == MemoryOf(data, h).data;
    }
  }

  /** What is listed from header `i` on: what the type-1 headers from there describe. */
  lemma {:induction false} ListsLoads(
    data: seq<byte>, f: FileHeader, headers: seq<ProgramHeader>, i: nat, segments: seq<Segment>)
    requires LaidOut(data, f, headers) && i <= |headers|
    ensures var loads := LoadsOf(headers[i..]);
      Lists(data, Table(f.tableOffset, f.entrySize, f.count), i, segments) <==>
        (forall h | h in loads :: Fits(data, h)) && segments == Memories(data, loads)
    decreases |headers| - i
  {
    hide LaidOut, Fits, Describes, TableEntry, MemoryOf;
    var t := Table(f.tableOffset, f.entrySize, f.count);
    assert t.count == |headers| by { CountIsLength(data, f, headers); }
    if i < |headers| {
      var h, rest := headers[i], LoadsOf(headers[i + 1..]);
      EntryOfFile(data, f, headers, i);
      assert headers[i..][0] == h && headers[i..][1..] == headers[i + 1..];
      var loads := LoadsOf(headers[i..]);
      if h.kind == 1 {
        assert loads == [h] + rest;
        if segments != [] {
          DescribesMemory(data, h, segments[0]);
          ListsLoads(data, f, headers, i + 1, segments[1..]);
          if forall x | x in loads :: Fits(data, x) { MemoriesCons(data, h, rest, segments); }
        }
      } else {
        assert loads == rest;
        ListsLoads(data, f, headers, i + 1, segments);
      }
    }
  }

  lemma CountIsLength(data: seq<byte>, f: FileHeader, headers: seq<ProgramHeader>)
    requires LaidOut(data, f, headers)
    ensures f.count == |headers|
  {
  }

  lemma MemoriesCons(data: seq<byte>, h: ProgramHeader, rest: seq<ProgramHeader>, segments: seq<Segment>)
    requires forall x | x in [h] + rest :: Fits(data, x)
    requires segments != []
    ensures Fits(data, h) && forall x | x in rest :: Fits(data, x)
    ensures segments == Memories(data, [h] + rest) <==>
      segments[0] == MemoryOf(data, h) && segments[1..] == Memories(data, rest)
  {
    hide Fits, MemoryOf;
    assert h in [h] + rest && forall x | x in rest :: x in [h] + rest;
    var all := Memories(data, [h] + rest);
    assert all == [MemoryOf(data, h)] + Memories(data, rest);
    assert segments == [segments[0]] + segments[1..];
  }

  /** Where the loaded memories end up, when no address has two owners. */
  ghost predicate Stored(data: seq<byte>, loads: seq<ProgramHeader>, m: map<nat, byte>) {
    forall h, k: nat | h in loads && k < h.memorySize :: ByteStored(data, h, k, m)
  }

  /** Byte `k` of what `h` describes is in memory, a payload byte or a zero. */
  ghost predicate ByteStored(data: seq<byte>, h: ProgramHeader, k: nat, m: map<nat, byte>) {
    h.physical + k < U64_LIMIT ==>
      && h.physical + k in m
      && if k < h.fileSize then h.fileOffset + k < |data| && m[h.physical + k] == data[h.fileOffset + k]
         else m[h.physical + k] == 0
  }

  lemma OwnedByte(data: seq<byte>, loads: seq<ProgramHeader>, i: nat, k: nat)
    requires (forall h | h in loads :: Fits(data, h)) && OneOwner(Memories(data, loads))
    requires i < |loads| && k < loads[i].memorySize
    ensures ByteStored(data, loads[i], k, Contents(Memories(data, loads)))
  {
    var segments, a := Memories(data, loads), loads[i].physical + k;
    assert loads[i] in loads && Fits(data, loads[i]) && segments[i] == MemoryOf(data, loads[i]);
    assert segments[i].Covers(a);
    FirstByteAt(segments, a, i);
  }

  lemma OwnedBytes(data: seq<byte>, loads: seq<ProgramHeader>)
    requires (forall h | h in loads :: Fits(data, h)) && OneOwner(Memories(data, loads))
    ensures Stored(data, loads, Contents(Memories(data, loads)))
  {
    hide ByteStored, Memories, OneOwner, Contents, Fits;
    forall h, k: nat | h in loads && k < h.memorySize
      ensures ByteStored(data, h, k, Contents(Memories(data, loads)))
    {
      var i :| 0 <= i < |loads| && loads[i] == h;
      OwnedByte(data, loads, i, k);
    }
  }

  /** A file that is laid out like this, with any fields that do not matter, is
      accepted exactly when it has a header of type 1, all of those fit, together they
      stay within the limit, and no neighbours overlap in the list sorted by physical
      address.  Unless an address has two owners, each payload is then read at its
      physical address, followed by zeros, and nothing else is readable. */
  lemma ElfFileReadsBack(data: seq<byte>, f: FileHeader, headers: seq<ProgramHeader>, limit: u64)
    requires LaidOut(data, f, headers)
    ensures var loads, r := LoadsOf(headers), ElfParsed(data, limit);
      && (r.Ok? <==>
           && loads != [] && (forall h | h in loads :: Fits(data, h))
           && limit != 0 && Total(Memories(data, loads)) <= limit
           && NeighboursDisjoint(SortByStart(Memories(data, loads))))
      && (r.Ok? && OneOwner(Memories(data, loads)) ==>
           && r.value.View().bytes == Contents(Memories(data, loads))
           && Stored(data, loads, r.value.View().bytes))
  {
    hide LaidOut, Lists, LoadFrom, TableOf, NeighboursDisjoint, SortByStart, OneOwner, Contents, Stored, Memories, Fits;
    var loads, t := LoadsOf(headers), Table(f.tableOffset, f.entrySize, f.count);
    assert headers[0..] == headers;
    FileTable(data, f, headers);
    if limit != 0 {
      var r := LoadFrom(data, t, 0, 0, limit, []);
      if r.Ok? {
        LoadFromExact(data, t, 0, 0, limit, [], r.value);
        assert [] + r.value == r.value;
        ListsLoads(data, f, headers, 0, r.value);
        NoLoads(data, loads);
      }
      if (forall h | h in loads :: Fits(data, h)) && Total(Memories(data, loads)) <= limit && loads != [] {
        ListsLoads(data, f, headers, 0, Memories(data, loads));
        NoLoads(data, loads);
        ElfReadsBack(data, limit, t, Memories(data, loads));
        ElfBundle(data, limit, t, Memories(data, loads));
        if OneOwner(Memories(data, loads)) { OwnedBytes(data, loads); }
      }
    }
  }

  /** Nothing else is accepted: the file starts with the ELF mark, class 64 and
      little-endian data, and its entries have at least 56 bytes. */
  lemma AcceptedIsElf(data: seq<byte>, limit: u64)
    requires ElfParsed(data, limit).Ok?
    ensures |data| >= 64 && data[..6] == [0x7f, 0x45, 0x4c, 0x46, 2, 1]
    ensures FromLe(data[54..56]) >= 56
  {
    hide LoadFrom, Assembled, FromLe;
  }

  lemma FileTable(data: seq<byte>, f: FileHeader, headers: seq<ProgramHeader>)
    requires LaidOut(data, f, headers)
    ensures TableOf(data) == Ok(Table(f.tableOffset, f.entrySize, f.count))
  {
    hide EncodeFile, TableOf;
    TableIsHeader(data, f);
  }

  lemma NoLoads(data: seq<byte>, loads: seq<ProgramHeader>)
    requires forall h | h in loads :: Fits(data, h)
    ensures |Memories(data, loads)| == |loads|
    ensures Memories(data, loads) == [] <==> loads == []
  {
  }
}
