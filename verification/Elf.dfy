/** `SnapshotBundle::from_elf_with_limits`: physical memory from the PT_LOAD
    program headers of a little-endian ELF64 core. */
module Elf {
  import opened Words
  import opened VmiTypes
  import opened Segments
  import opened SegmentOrder
  import opened SegmentOwners
  import opened Snapshot
  import opened Kdmp

  const PT_LOAD: nat := 1
  const OVERLAP := "ELF PT_LOAD physical ranges overlap"

  datatype Header = Header(fileOffset: u64, physical: u64, fileSize: u64, memorySize: u64)

  datatype Entry = Skipped | Load(header: Header)

  function U16Field(data: seq<byte>, offset: nat): Result<nat> {
    if offset + 2 <= |data| then Ok(FromLe(data[offset..offset + 2])) else Err(Backend("truncated artifact field"))
  }

  predicate IsElf64(data: seq<byte>) {
    |data| >= 64 && data[..6] == [0x7f, 0x45, 0x4c, 0x46, 2, 1]
  }

  /** The program header at `offset`. */
  function EntryAt(data: seq<byte>, offset: nat): Result<Entry> {
    var kind :- U32Field(data, offset);
    if kind != PT_LOAD then Ok(Skipped)
    else
      var fileOffset :- U64Field(data, offset + 8);
      var physical :- U64Field(data, offset + 24);
      var fileSize :- U64Field(data, offset + 32);
      var memorySize :- U64Field(data, offset + 40);
      Ok(Load(Header(fileOffset, physical, fileSize, memorySize)))
  }

  /** Memory a header describes: bytes of the file, then zeros. */
  predicate Describes(data: seq<byte>, h: Header, s: Segment) {
    && s.start == h.physical && |s.data| == h.memorySize
    && h.fileSize <= h.memorySize && h.fileOffset + h.fileSize <= |data|
    && forall i | 0 <= i < h.memorySize ::
         s.data[i] == if i < h.fileSize then data[h.fileOffset + i] else 0
  }

  function Zeros(n: nat): (z: seq<byte>)
    ensures |z| == n && forall i | 0 <= i < n :: z[i] == 0
  {
    seq(n, _ => 0)
  }

  /** One PT_LOAD header, `total` bytes of memory having been described before. */
  function Loaded(data: seq<byte>, h: Header, total: nat, limit: nat): (r: Result<Segment>)
    ensures r.Ok? ==> Describes(data, h, r.value) && total + |r.value.data| <= limit
    ensures h.fileSize <= h.memorySize && total + h.memorySize <= limit && h.fileOffset + h.fileSize <= |data| ==> r.Ok?
  {
    if h.fileSize > h.memorySize then Err(Backend("ELF segment file size exceeds memory size"))
    else if total + h.memorySize > limit then Err(Backend("ELF decoded memory exceeds limit"))
    else if h.fileOffset + h.fileSize > |data| then Err(Backend("ELF segment extends beyond artifact"))
    else Ok(Segment(h.physical, data[h.fileOffset..h.fileOffset + h.fileSize] + Zeros(h.memorySize - h.fileSize)))
  }

  datatype Table = Table(offset: u64, entrySize: nat, count: nat)

  function TableOf(data: seq<byte>): Result<Table> {
    if !IsElf64(data) then Err(Backend("artifact is not little-endian ELF64"))
    else
      var offset :- U64Field(data, 32);
      var entrySize :- U16Field(data, 54);
      var count :- U16Field(data, 56);
      if entrySize < 56 then Err(Backend("ELF program header size is too small"))
      else Ok(Table(offset, entrySize, count))
  }

  function TableEntry(data: seq<byte>, t: Table, index: nat): Result<Entry> {
    var offset := t.offset + index * t.entrySize;
    if offset >= U64_LIMIT then Err(Backend("ELF program table overflow")) else EntryAt(data, offset)
  }

  // ---------- what the headers say ----------

  /** `segments` are what the PT_LOAD headers from `index` on describe, in order. */
  predicate Lists(data: seq<byte>, t: Table, index: nat, segments: seq<Segment>)
    requires index <= t.count
    decreases t.count - index
  {
    if index == t.count then segments == []
    else
      match TableEntry(data, t, index)
      case Err(_) => false
      case Ok(Skipped) => Lists(data, t, index + 1, segments)
      case Ok(Load(h)) => segments != [] && Describes(data, h, segments[0]) && Lists(data, t, index + 1, segments[1..])
  }

  function LoadFrom(data: seq<byte>, t: Table, index: nat, total: nat, limit: nat, done: seq<Segment>): Result<seq<Segment>>
    requires index <= t.count
    decreases t.count - index
  {
    if index == t.count then Ok(done)
    else
      match TableEntry(data, t, index)
      case Err(e) => Err(e)
      case Ok(Skipped) => LoadFrom(data, t, index + 1, total, limit, done)
      case Ok(Load(h)) =>
        match Loaded(data, h, total, limit)
        case Err(e) => Err(e)
        case Ok(s) => LoadFrom(data, t, index + 1, total + |s.data|, limit, done + [s])
  }

  lemma DescribesOnce(data: seq<byte>, h: Header, a: Segment, b: Segment)
    requires Describes(data, h, a) && Describes(data, h, b)
    ensures a == b
  {
    assert a.data == b.data;
  }

  /** Loading succeeds exactly when every PT_LOAD header can be met within the
      limit, and yields the memory they describe. */
  lemma {:induction false} LoadFromExact(
    data: seq<byte>, t: Table, index: nat, total: nat, limit: nat, done: seq<Segment>, segments: seq<Segment>)
    requires index <= t.count && total <= limit
    ensures LoadFrom(data, t, index, total, limit, done) == Ok(done + segments) <==>
      Lists(data, t, index, segments) && total + Total(segments) <= limit
    decreases t.count - index
  {
    hide TableEntry, Loaded, Describes;
    if index == t.count {
      assert done + segments == done <==> segments == [];
    } else {
      match TableEntry(data, t, index)
      case Err(_) =>
      case Ok(Skipped) => LoadFromExact(data, t, index + 1, total, limit, done, segments);
      case Ok(Load(h)) => LoadOne(data, t, index, total, limit, done, segments, h);
    }
  }

  lemma {:induction false} LoadOne(
    data: seq<byte>, t: Table, index: nat, total: nat, limit: nat, done: seq<Segment>, segments: seq<Segment>, h: Header)
    requires index < t.count && total <= limit && TableEntry(data, t, index) == Ok(Load(h))
    ensures LoadFrom(data, t, index, total, limit, done) == Ok(done + segments) <==>
      Lists(data, t, index, segments) && total + Total(segments) <= limit
    decreases t.count - index, 0
  {
    hide TableEntry, Loaded, Describes;
    var r := Loaded(data, h, total, limit);
    if segments == [] {
      if r.Ok? { LoadGrows(data, t, index + 1, total + |r.value.data|, limit, done + [r.value]); }
    } else {
      var first, rest := segments[0], segments[1..];
      assert done + segments == done + [first] + rest;
      TotalCons(segments);
      if r.Ok? {
        if first == r.value {
          LoadFromExact(data, t, index + 1, total + |first.data|, limit, done + [first], rest);
        } else {
          if Describes(data, h, first) { DescribesOnce(data, h, first, r.value); }
          LoadGrows(data, t, index + 1, total + |r.value.data|, limit, done + [r.value]);
          assert (done + segments)[..|done| + 1] != done + [r.value] by {
            assert (done + segments)[..|done| + 1][|done|] == first;
          }
        }
      } else {
        if Describes(data, h, first) { DescribedLoads(data, h, first, total, limit); }
      }
    }
  }

  lemma DescribedLoads(data: seq<byte>, h: Header, s: Segment, total: nat, limit: nat)
    requires Describes(data, h, s) && Loaded(data, h, total, limit).Err?
    ensures total + |s.data| > limit
  {
  }

  lemma {:induction false} TotalCons(segments: seq<Segment>)
    requires segments != []
    ensures Total(segments) == |segments[0].data| + Total(segments[1..])
  {
    var n := |segments|;
    if n > 1 {
      TotalCons(segments[..n - 1]);
      assert segments[..n - 1][1..] == segments[1..][..n - 2];
    } else {
      assert segments[..0] == [] && segments[1..] == [];
    }
  }

  lemma {:induction false} LoadGrows(data: seq<byte>, t: Table, index: nat, total: nat, limit: nat, done: seq<Segment>)
    requires index <= t.count
    ensures var r := LoadFrom(data, t, index, total, limit, done);
      r.Ok? ==> done <= r.value
    decreases t.count - index
  {
    hide TableEntry, Loaded;
    if index < t.count {
      match TableEntry(data, t, index)
      case Err(_) =>
      case Ok(Skipped) => LoadGrows(data, t, index + 1, total, limit, done);
      case Ok(Load(h)) =>
        var r := Loaded(data, h, total, limit);
        if r.Ok? { LoadGrows(data, t, index + 1, total + |r.value.data|, limit, done + [r.value]); }
    }
  }

  // ---------- the parser ----------

  ghost function ElfParsed(data: seq<byte>, limit: u64): Result<SnapshotBundle> {
    if limit == 0 then Err(Backend("maximum ELF decoded memory size must be non-zero"))
    else
      var t :- TableOf(data);
      var segments :- LoadFrom(data, t, 0, 0, limit, []);
      if segments == [] then Err(Backend("ELF artifact contains no PT_LOAD segments"))
      else Assembled(segments, OVERLAP)
  }

  method FromElf(data: seq<byte>, limit: u64) returns (r: Result<SnapshotBundle>)
    ensures r == ElfParsed(data, limit)
    ensures r.Ok? ==> r.value.Valid()
  {
    hide TableEntry, Loaded, TableOf, Assembled;
    if limit == 0 { return Err(Backend("maximum ELF decoded memory size must be non-zero")); }
    var t :- TableOf(data);
    var index, total: nat, segments: seq<Segment> := 0, 0, [];
    while index < t.count
      invariant index <= t.count
      invariant LoadFrom(data, t, index, total, limit, segments) == LoadFrom(data, t, 0, 0, limit, [])
    {
      var entry :- TableEntry(data, t, index);
      if entry.Load? {
        var s :- Loaded(data, entry.header, total, limit);
        total := total + |s.data|;
        segments := segments + [s];
      }
      index := index + 1;
    }
    if segments == [] { return Err(Backend("ELF artifact contains no PT_LOAD segments")); }
    r := Assemble(segments, OVERLAP);
  }

  /** Zero-sized headers included: a core is accepted exactly when no neighbours of
      the sorted list overlap; and when it is, and no address has two owners, each
      byte reads as its header describes it. */
  lemma ElfReadsBack(data: seq<byte>, limit: u64, t: Table, segments: seq<Segment>)
    requires limit > 0 && TableOf(data) == Ok(t) && Lists(data, t, 0, segments) && Total(segments) <= limit
    requires segments != []
    ensures var r := ElfParsed(data, limit);
      && (r.Ok? <==> NeighboursDisjoint(SortByStart(segments)))
      && (r.Ok? && OneOwner(segments) ==> r.value.View().bytes == Contents(segments))
  {
    hide Lists, LoadFrom, TableOf, NeighboursDisjoint, OneOwner, Contents, SortedByStart;
    ElfBundle(data, limit, t, segments);
    if OneOwner(segments) { OwnersContents(segments, SortByStart(segments)); }
  }

  lemma ElfBundle(data: seq<byte>, limit: u64, t: Table, segments: seq<Segment>)
    requires limit > 0 && TableOf(data) == Ok(t) && Lists(data, t, 0, segments) && Total(segments) <= limit
    requires segments != []
    ensures ElfParsed(data, limit) == Assembled(segments, OVERLAP)
  {
    hide Lists, LoadFrom, TableOf, Assembled;
    var none: seq<Segment> := [];
    LoadFromExact(data, t, 0, 0, limit, none, segments);
    assert none + segments == segments;
  }

  /** Without zero-sized headers it is accepted exactly when the ranges are disjoint,
      and no address has two owners. */
  lemma ElfWithoutEmpty(data: seq<byte>, limit: u64, t: Table, segments: seq<Segment>)
    requires limit > 0 && TableOf(data) == Ok(t) && Lists(data, t, 0, segments) && Total(segments) <= limit
    requires segments != [] && NonEmpty(segments)
    ensures ElfParsed(data, limit).Ok? <==> PairwiseDisjoint(segments)
    ensures PairwiseDisjoint(segments) <==> OneOwner(segments)
  {
    hide Lists, LoadFrom, TableOf, Assembled, PairwiseDisjoint, OneOwner, Contents;
    ElfBundle(data, limit, t, segments);
    AssembledMeaning(segments, OVERLAP);
    DisjointIsOneOwner(segments);
  }

  /** With them it can be accepted although an address has two owners: it has not
      exactly when the sorted list without them passes the same check. */
  lemma ElfOwners(data: seq<byte>, limit: u64, t: Table, segments: seq<Segment>)
    requires limit > 0 && TableOf(data) == Ok(t) && Lists(data, t, 0, segments) && Total(segments) <= limit
    requires segments != [] && ElfParsed(data, limit).Ok?
    ensures OneOwner(segments) <==> NeighboursDisjoint(WithoutEmpty(ElfParsed(data, limit).value.segments))
  {
    hide Lists, LoadFrom, TableOf, NeighboursDisjoint, WithoutEmpty, OneOwner, SortedByStart;
    ElfBundle(data, limit, t, segments);
    SortOwners(segments);
    NeighboursDecideOwnersWithoutEmpty(SortByStart(segments));
  }
}
