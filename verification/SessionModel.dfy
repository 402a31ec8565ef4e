/** `VmiSession` as functions of its state: the translation cache in front of
    the page walk, virtual reads and writes in page-sized chunks.  The methods of
    module Session are proved equal to these steps. */
module SessionModel {
  import opened Words
  import opened VmiTypes
  import opened PhysicalMemory
  import opened PageWalk
  import opened Translators

  datatype Key = Key(tag: u64, root: u64, page: u64)

  datatype Cache = Cache(capacity: nat, entries: map<Key, Translation>, order: seq<Key>)

  const CACHE_CAPACITY: nat := 4096

  /** The queue lists exactly the cached keys, each once, within the capacity. */
  ghost predicate FifoCache(c: Cache) {
    0 < c.capacity && |c.order| <= c.capacity && Lists(c.order, c.entries)
  }

  ghost predicate Lists(order: seq<Key>, entries: map<Key, Translation>) {
    && |entries| == |order|
    && (forall i, j | 0 <= i < j < |order| :: order[i] != order[j])
    && (forall key :: key in entries <==> key in order)
  }

  function Insert(c: Cache, key: Key, value: Translation): Cache {
    if key in c.entries then c.(entries := c.entries[key := value])
    else
      var entries, order := c.entries[key := value], c.order + [key];
      if |entries| > c.capacity then c.(entries := entries - {order[0]}, order := order[1..])
      else c.(entries := entries, order := order)
  }

  function Cleared(c: Cache): Cache {
    c.(entries := map[], order := [])
  }

  lemma RemoveOne<K, V>(m: map<K, V>, k: K)
    requires k in m
    ensures |m - {k}| == |m| - 1
  {
    var rest := m - {k};
    assert rest[k := m[k]] == m;
  }

  /** Insertion keeps the FIFO discipline: the new entry is present, every
      surviving entry is unchanged, and only the oldest key can be dropped. */
  lemma InsertKeepsFifo(c: Cache, key: Key, value: Translation)
    requires FifoCache(c)
    ensures var c' := Insert(c, key, value);
      && FifoCache(c') && c'.capacity == c.capacity
      && key in c'.entries && c'.entries[key] == value
      && (forall k | k in c'.entries && k != key :: k in c.entries && c'.entries[k] == c.entries[k])
      && (forall k | k in c.entries && k !in c'.entries :: |c.order| == c.capacity && k == c.order[0])
  {
    if key !in c.entries {
      Enqueue(c.order, c.entries, key, value);
      if |c.entries| == c.capacity { Dequeue(c.order + [key], c.entries[key := value]); }
    }
  }

  /** A new key queues up last, an old one keeps its place: keys are dropped in the
      order in which they came. */
  lemma InsertQueues(c: Cache, key: Key, value: Translation)
    requires FifoCache(c)
    ensures Insert(c, key, value).order ==
      if key in c.entries then c.order
      else (if |c.order| == c.capacity then c.order[1..] else c.order) + [key]
  {
    if key !in c.entries { Enqueue(c.order, c.entries, key, value); }
  }

  lemma Enqueue(order: seq<Key>, entries: map<Key, Translation>, key: Key, value: Translation)
    requires Lists(order, entries) && key !in entries
    ensures Lists(order + [key], entries[key := value])
  {
    forall k ensures k in order + [key] <==> k in entries[key := value] {
      assert k in order + [key] <==> k in order || k == key;
    }
  }

  lemma Dequeue(order: seq<Key>, entries: map<Key, Translation>)
    requires Lists(order, entries) && |order| > 0
    ensures Lists(order[1..], entries - {order[0]})
  {
    RemoveOne(entries, order[0]);
    forall k ensures k in order[1..] <==> k in entries - {order[0]} {
      assert order == [order[0]] + order[1..];
    }
  }

  datatype State = State(cache: Cache, memory: Memory)

  /** Every cached entry is what its translator would compute from memory now. */
  ghost predicate Coherent(s: State) {
    && FifoCache(s.cache)
    && (!s.memory.canRead ==> s.cache.entries == map[])
    && forall t, root: u64, page: u64 | Accepted(t) && Key(CacheTag(t), root, page) in s.cache.entries ::
         Walk(t, s.memory, root, page) == Ok(s.cache.entries[Key(CacheTag(t), root, page)])
  }

  // ---------- the session's operations ----------

  function OffsetTranslation(tr: Translation, offset: nat, va: nat): Result<Translation> {
    if tr.physicalAddress + offset >= U64_LIMIT then Err(ReadFailed(va, 1))
    else Ok(Translation(tr.physicalAddress + offset, tr.pageSize))
  }

  ghost function TranslateStep(s: State, t: Translator, root: u64, va: u64): (State, Result<Translation>)
    requires Accepted(t)
  {
    var key := Key(CacheTag(t), root, PageOf(va));
    var offset := va - PageOf(va);
    if key in s.cache.entries then (s, OffsetTranslation(s.cache.entries[key], offset, va))
    else if !s.memory.canRead then (s, Err(CapabilityMissing))
    else
      match Walk(t, s.memory, root, PageOf(va))
      case Err(e) => (s, Err(e))
      case Ok(tr) => (s.(cache := Insert(s.cache, key, tr)), OffsetTranslation(tr, offset, va))
  }

  /** How much of a request fits in the page of `current`. */
  function ChunkLength(current: nat, remaining: nat): (n: nat)
    ensures n <= remaining && (remaining > 0 ==> n > 0)
    ensures current % 0x1000 + n <= 0x1000
    ensures n == remaining || current % 0x1000 + n == 0x1000
  {
    var pageRemaining := 0x1000 - current % 0x1000;
    if pageRemaining < remaining then pageRemaining else remaining
  }

  ghost function ReadFrom(s: State, t: Translator, root: u64, va: u64, length: nat, done: seq<byte>):
    (State, Result<seq<byte>>)
    requires Accepted(t)
    decreases length - |done|
  {
    if |done| >= length then (s, Ok(done))
    else if va + |done| >= U64_LIMIT then (s, Err(ReadFailed(va, length)))
    else
      var current := va + |done|;
      var n := ChunkLength(current, length - |done|);
      var (s', tr) := TranslateStep(s, t, root, current);
      match tr
      case Err(e) => (s', Err(e))
      case Ok(tr) =>
        match Read(s'.memory, tr.physicalAddress, n)
        case Err(e) => (s', Err(e))
        case Ok(b) => ReadFrom(s', t, root, va, length, done + b)
  }

  ghost function ReadVirtualStep(s: State, t: Translator, root: u64, va: u64, length: nat): (State, Result<seq<byte>>)
    requires Accepted(t)
  {
    if !s.memory.canRead then (s, Err(CapabilityMissing)) else ReadFrom(s, t, root, va, length, [])
  }

  ghost function WriteFromStep(s: State, t: Translator, root: u64, va: u64, data: seq<byte>, completed: nat):
    (State, Result<()>)
    requires Accepted(t)
    decreases |data| - completed
  {
    if completed >= |data| then (s, Ok(()))
    else if va + completed >= U64_LIMIT then (s, Err(ReadFailed(va, |data|)))
    else
      var current := va + completed;
      var n := ChunkLength(current, |data| - completed);
      var (s', tr) := TranslateStep(s, t, root, current);
      match tr
      case Err(e) => (s', Err(e))
      case Ok(tr) =>
        var (m, r) := Write(s'.memory, tr.physicalAddress, data[completed..completed + n]);
        if r.Err? then (s'.(memory := m), r)
        else WriteFromStep(s'.(memory := m), t, root, va, data, completed + n)
  }

  /** Every exit clears the cache, also those before the first write. */
  ghost function WriteVirtualStep(s: State, t: Translator, root: u64, va: u64, data: seq<byte>): (State, Result<()>)
    requires Accepted(t)
  {
    if !s.memory.canWrite then (s.(cache := Cleared(s.cache)), Err(CapabilityMissing))
    else
      var (s', r) := WriteFromStep(s, t, root, va, data, 0);
      (s'.(cache := Cleared(s'.cache)), r)
  }

  /** Unlike `write_virtual`, a missing capability returns before the clearing. */
  ghost function WriteBytesStep(s: State, a: u64, data: seq<byte>): (State, Result<()>) {
    if !s.memory.canWrite then (s, Err(CapabilityMissing))
    else
      var (m, r) := Write(s.memory, a, data);
      (State(Cleared(s.cache), m), r)
  }

  ghost function ReadBytesStep(s: State, a: u64, length: nat): (State, Result<seq<byte>>) {
    (s, if !s.memory.canRead then Err(CapabilityMissing) else Read(s.memory, a, length))
  }

  // ---------- the same operations without a cache ----------

  /** The bare walk; a failure names the page the session asked about. */
  ghost function TranslateDirect(m: Memory, t: Translator, root: u64, va: u64): Result<Translation>
    requires Accepted(t)
  {
    if !m.canRead then Err(CapabilityMissing)
    else
      match Walk(t, m, root, va)
      case Ok(tr) => Ok(tr)
      case Err(e) => Err(AtAddress(e, PageOf(va)))
  }

  ghost function ReadDirect(m: Memory, t: Translator, root: u64, va: u64, length: nat, done: seq<byte>):
    Result<seq<byte>>
    requires Accepted(t)
    decreases length - |done|
  {
    if |done| >= length then Ok(done)
    else if va + |done| >= U64_LIMIT then Err(ReadFailed(va, length))
    else
      var current := va + |done|;
      var n := ChunkLength(current, length - |done|);
      match TranslateDirect(m, t, root, current)
      case Err(e) => Err(e)
      case Ok(tr) =>
        match Read(m, tr.physicalAddress, n)
        case Err(e) => Err(e)
        case Ok(b) => ReadDirect(m, t, root, va, length, done + b)
  }

  ghost function WriteDirect(m: Memory, t: Translator, root: u64, va: u64, data: seq<byte>, completed: nat):
    (Memory, Result<()>)
    requires Accepted(t)
    decreases |data| - completed
  {
    if completed >= |data| then (m, Ok(()))
    else if va + completed >= U64_LIMIT then (m, Err(ReadFailed(va, |data|)))
    else
      var current := va + completed;
      var n := ChunkLength(current, |data| - completed);
      match TranslateDirect(m, t, root, current)
      case Err(e) => (m, Err(e))
      case Ok(tr) =>
        var (m', r) := Write(m, tr.physicalAddress, data[completed..completed + n]);
        if r.Err? then (m', r) else WriteDirect(m', t, root, va, data, completed + n)
  }

  // ---------- the cache is transparent ----------

  lemma EmptyIsCoherent(c: Cache, m: Memory)
    requires c.capacity > 0
    ensures Coherent(State(Cleared(c), m)) && FifoCache(Cleared(c))
  {
    hide Walk;
  }

  /** Adding a fresh translation, even one that evicts another, keeps coherence. */
  lemma InsertCoherent(s: State, t: Translator, root: u64, page: u64, tr: Translation)
    requires Coherent(s) && Accepted(t) && s.memory.canRead
    requires Walk(t, s.memory, root, page) == Ok(tr)
    ensures Coherent(s.(cache := Insert(s.cache, Key(CacheTag(t), root, page), tr)))
  {
    hide Walk;
    var key := Key(CacheTag(t), root, page);
    InsertKeepsFifo(s.cache, key, tr);
    var c := Insert(s.cache, key, tr);
    forall t', root': u64, page': u64 | Accepted(t') && Key(CacheTag(t'), root', page') in c.entries
      ensures Walk(t', s.memory, root', page') == Ok(c.entries[Key(CacheTag(t'), root', page')])
    {
      CacheTagInjective(t, t');
    }
  }

  lemma OffsetOfPage(m: Memory, t: Translator, root: u64, va: u64)
    requires Accepted(t) && m.canRead
    ensures var r := Walk(t, m, root, PageOf(va));
      TranslateDirect(m, t, root, va) ==
        if r.Ok? then OffsetTranslation(r.value, va - PageOf(va), va) else Err(r.error)
  {
    hide Walk;
    WalkOfPage(t, m, root, va);
  }

  /** From a coherent cache, `translate` answers as the bare walk would, whether
      it hits, misses or evicts, and leaves a coherent cache. */
  lemma TranslateTransparent(s: State, t: Translator, root: u64, va: u64)
    requires Coherent(s) && Accepted(t)
    ensures var (s', r) := TranslateStep(s, t, root, va);
      && r == TranslateDirect(s.memory, t, root, va)
      && Coherent(s') && s'.memory == s.memory && s'.cache.capacity == s.cache.capacity
  {
    hide Walk;
    var key := Key(CacheTag(t), root, PageOf(va));
    if s.memory.canRead {
      OffsetOfPage(s.memory, t, root, va);
      var r := Walk(t, s.memory, root, PageOf(va));
      if key !in s.cache.entries && r.Ok? { InsertCoherent(s, t, root, PageOf(va), r.value); }
    }
  }

  lemma {:induction false} ReadTransparent(s: State, t: Translator, root: u64, va: u64, length: nat, done: seq<byte>)
    requires Coherent(s) && Accepted(t)
    ensures var (s', r) := ReadFrom(s, t, root, va, length, done);
      && r == ReadDirect(s.memory, t, root, va, length, done)
      && Coherent(s') && s'.memory == s.memory && s'.cache.capacity == s.cache.capacity
    decreases length - |done|
  {
    hide Walk, TranslateStep, TranslateDirect, Coherent, Read;
    if |done| < length && va + |done| < U64_LIMIT {
      var current := va + |done|;
      var n := ChunkLength(current, length - |done|);
      TranslateTransparent(s, t, root, current);
      var (s', tr) := TranslateStep(s, t, root, current);
      if tr.Ok? {
        var b := Read(s.memory, tr.value.physicalAddress, n);
        if b.Ok? { ReadTransparent(s', t, root, va, length, done + b.value); }
      }
    }
  }
}
