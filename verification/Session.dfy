/** `VmiSession` (vmi-core) over mutable state.  Every method is the step of the
    same name in SessionModel; what those steps promise is proved in SessionLaws
    and SessionRuns. */
module Session {
  import opened Words
  import opened VmiTypes
  import opened PhysicalMemory
  import opened Slices
  import Segments
  import opened Backend
  import opened PageWalk
  import opened Translators
  import opened SessionModel

  class TranslationCache {
    const capacity: nat
    var entries: map<Key, Translation>
    var order: seq<Key>

    constructor (capacity: nat)
      requires capacity > 0
      ensures Abs() == Cache(capacity, map[], []) && FifoCache(Abs())
    {
      this.capacity := capacity;
      entries := map[];
      order := [];
    }

    /** The checked constructor: a cache that could hold nothing is refused. */
    static method New(capacity: nat) returns (r: Result<TranslationCache>)
      ensures r.Ok? <==> 0 < capacity
      ensures r.Ok? ==> fresh(r.value) && r.value.Abs() == Cache(capacity, map[], []) && FifoCache(r.value.Abs())
    {
      if capacity == 0 { return Err(VmiError.Backend("translation cache capacity must be non-zero")); }
      var cache := new TranslationCache(capacity);
      return Ok(cache);
    }

    ghost function Abs(): Cache
      reads this
    {
      Cache(capacity, entries, order)
    }

    method Insert(key: Key, value: Translation)
      requires FifoCache(Abs())
      modifies this
      ensures Abs() == SessionModel.Insert(old(Abs()), key, value) && FifoCache(Abs())
    {
      InsertKeepsFifo(Abs(), key, value);
      var present := key in entries;
      entries := entries[key := value];
      if present { return; }
      order := order + [key];
      if |entries| > capacity {
        var oldest := order[0];
        order := order[1..];
        entries := entries - {oldest};
      }
    }

    method Clear()
      modifies this
      ensures Abs() == Cleared(old(Abs()))
    {
      entries := map[];
      order := [];
    }
  }

  class VmiSession {
    const memory: Backend
    const translations: TranslationCache

    constructor (memory: Backend)
      requires memory.Valid()
      ensures this.memory == memory && Valid() && fresh(translations)
      ensures State() == SessionModel.State(Cache(4096, map[], []), memory.View())
    {
      this.memory := memory;
      translations := new TranslationCache(CACHE_CAPACITY);
    }

    ghost predicate Valid()
      reads this, translations
    {
      memory.Valid() && FifoCache(translations.Abs())
    }

    ghost function State(): SessionModel.State
      reads this, translations, memory.Repr()
    {
      SessionModel.State(translations.Abs(), memory.View())
    }

    method ClearTranslationCache()
      modifies translations
      ensures translations.Abs() == Cleared(old(translations.Abs()))
    {
      translations.Clear();
    }

    method Translate(t: Translator, root: u64, va: u64) returns (r: Result<Translation>)
      requires Valid() && Accepted(t)
      modifies translations
      ensures Valid()
      ensures (State(), r) == TranslateStep(old(State()), t, root, va)
      ensures r.Ok? ==> 0 <= r.value.physicalAddress < U64_LIMIT
    {
      hide Walk, FifoCache, SessionModel.Insert, CacheTag, Segments.Contents;
      var pageAddress := va - va % 0x1000;
      var pageOffset := va - pageAddress;
      var key := Key(CacheTag(t), root, pageAddress);
      if key in translations.entries {
        return OffsetTranslation(translations.entries[key], pageOffset, va);
      }
      if !memory.CanRead() { return Err(CapabilityMissing); }
      var value :- Translators.Translate(t, memory, root, pageAddress);
      translations.Insert(key, value);
      return OffsetTranslation(value, pageOffset, va);
    }

    method ReadVirtual(t: Translator, root: u64, va: u64, length: nat) returns (r: Result<seq<byte>>)
      requires Valid() && Accepted(t)
      modifies translations
      ensures Valid()
      ensures (State(), r) == ReadVirtualStep(old(State()), t, root, va, length)
    {
      hide Walk, TranslateStep, Read, FifoCache, Segments.Contents;
      var output := new byte[length];
      if !memory.CanRead() { return Err(CapabilityMissing); }
      var completed := 0;
      while completed < length
        invariant Valid() && 0 <= completed <= length
        invariant ReadFrom(State(), t, root, va, length, output[..completed])
          == ReadFrom(old(State()), t, root, va, length, [])
      {
        if va + completed >= U64_LIMIT { return Err(ReadFailed(va, length)); }
        var current := va + completed;
        var chunkLength := ChunkLength(current, length - completed);
        var chunkEnd := completed + chunkLength;
        var translation :- Translate(t, root, current);
        ghost var was := output[..];
        var read := memory.ReadInto(translation.physicalAddress, output, completed, chunkEnd);
        if read.Err? { return Err(read.error); }
        SplicedExtends(output[..], was, completed, Read(memory.View(), translation.physicalAddress, chunkLength).value);
        completed := chunkEnd;
      }
      assert output[..completed] == output[..];
      return Ok(output[..]);
    }
  
    /** The loop of `write_virtual`, which may return early from any step. */
    method WriteChunks(t: Translator, root: u64, va: u64, data: seq<byte>) returns (r: Result<()>)
      requires Valid() && Accepted(t) && memory.CanWrite()
      modifies translations, memory.Repr()
      ensures Valid()
      ensures (State(), r) == WriteFromStep(old(State()), t, root, va, data, 0)
    {
      hide Walk, TranslateStep, Write, FifoCache, Segments.Contents;
      var completed := 0;
      while completed < |data|
        invariant Valid() && 0 <= completed <= |data|
        invariant WriteFromStep(State(), t, root, va, data, completed)
          == WriteFromStep(old(State()), t, root, va, data, 0)
      {
        if va + completed >= U64_LIMIT { return Err(ReadFailed(va, |data|)); }
        var current := va + completed;
        var chunkLength := ChunkLength(current, |data| - completed);
        var chunkEnd := completed + chunkLength;
        var translation :- Translate(t, root, current);
        var wrote := memory.Write(translation.physicalAddress, data[completed..chunkEnd]);
        if wrote.Err? { return wrote; }
        completed := chunkEnd;
      }
      return Ok(());
    }

    method WriteVirtual(t: Translator, root: u64, va: u64, data: seq<byte>) returns (r: Result<()>)
      requires Valid() && Accepted(t)
      modifies translations, memory.Repr()
      ensures Valid() && translations.entries == map[] && translations.order == []
      ensures (State(), r) == WriteVirtualStep(old(State()), t, root, va, data)
    {
      hide Walk, WriteFromStep, Segments.Contents;
      if memory.CanWrite() {
        r := WriteChunks(t, root, va, data);
      } else {
        r := Err(CapabilityMissing);
      }
      ClearTranslationCache();
    }

    method WriteBytes(a: u64, data: seq<byte>) returns (r: Result<()>)
      requires Valid()
      modifies translations, memory.Repr()
      ensures Valid()
      ensures (State(), r) == WriteBytesStep(old(State()), a, data)
    {
      hide Write, Segments.Contents;
      if !memory.CanWrite() { return Err(CapabilityMissing); }
      r := memory.Write(a, data);
      ClearTranslationCache();
    }

    method ReadBytes(a: u64, length: nat) returns (r: Result<seq<byte>>)
      requires Valid()
      ensures (State(), r) == ReadBytesStep(State(), a, length)
    {
      hide Read, Segments.Contents;
      if !memory.CanRead() { return Err(CapabilityMissing); }
      var buffer := new byte[length];
      ghost var was := buffer[..];
      var read := memory.ReadInto(a, buffer, 0, length);
      if read.Err? { return Err(read.error); }
      SplicedWhole(buffer[..], was, Read(memory.View(), a, length).value);
      return Ok(buffer[..]);
    }
  }
}
