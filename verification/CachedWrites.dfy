/** When a virtual write through a cache does what the same write would do without
    one.  `write_virtual` keeps using translations cached before it started, while
    it may be overwriting the tables they came from. */
module CachedWrites {
  import opened Words
  import opened VmiTypes
  import opened PhysicalMemory
  import opened PageWalk
  import opened Translators
  import opened SessionModel

  // ---------- the two sides ----------

  /** Every translation that the write takes is the one that the memory it meets
      there would give. */
  ghost predicate TranslationsRight(s: State, t: Translator, root: u64, va: u64, data: seq<byte>, completed: nat)
    requires Accepted(t)
    decreases |data| - completed
  {
    completed < |data| && va + completed < U64_LIMIT ==>
      var n := ChunkLength(va + completed, |data| - completed);
      var (s1, tr) := TranslateStep(s, t, root, va + completed);
      && tr == TranslateDirect(s.memory, t, root, va + completed)
      && (tr.Ok? ==>
           var (m1, r1) := Write(s1.memory, tr.value.physicalAddress, data[completed..completed + n]);
           r1.Ok? ==> TranslationsRight(s1.(memory := m1), t, root, va, data, completed + n))
  }

  /** No page of `pages` is remapped by the time the write, made without a cache,
      comes to it.  The write started from `m0` and is now at `completed` with `m`. */
  ghost predicate Undisturbed(
    pages: iset<u64>, m0: Memory, m: Memory, t: Translator, root: u64, va: u64, data: seq<byte>, completed: nat)
    requires Accepted(t)
    decreases |data| - completed
  {
    completed < |data| && va + completed < U64_LIMIT ==>
      var n := ChunkLength(va + completed, |data| - completed);
      var tr := TranslateDirect(m, t, root, va + completed);
      && PageKept(pages, m0, m, t, root, PageOf(va + completed))
      && (tr.Ok? ==>
           var (m1, r1) := Write(m, tr.value.physicalAddress, data[completed..completed + n]);
           r1.Ok? ==> Undisturbed(pages, m0, m1, t, root, va, data, completed + n))
  }

  ghost predicate PageKept(pages: iset<u64>, m0: Memory, m: Memory, t: Translator, root: u64, page: u64)
    requires Accepted(t)
  {
    page in pages ==> Walk(t, m, root, page) == Walk(t, m0, root, page)
  }

  /** No page that is still cached when the write comes to it is remapped by then.
      `c` follows the write: it takes in the pages already reached, and drops the
      oldest for them. */
  ghost predicate StillKept(
    c: Cache, m0: Memory, m: Memory, t: Translator, root: u64, va: u64, data: seq<byte>, completed: nat)
    requires Accepted(t)
    decreases |data| - completed
  {
    completed < |data| && va + completed < U64_LIMIT ==>
      var n := ChunkLength(va + completed, |data| - completed);
      var tr := TranslateDirect(m, t, root, va + completed);
      && PageKept(CachedPages(c, t, root), m0, m, t, root, PageOf(va + completed))
      && (tr.Ok? ==>
           var (m1, r1) := Write(m, tr.value.physicalAddress, data[completed..completed + n]);
           r1.Ok? ==>
             StillKept(TranslateStep(State(c, m), t, root, va + completed).0.cache, m0, m1, t, root, va, data, completed + n))
  }

  ghost function CachedPages(c: Cache, t: Translator, root: u64): iset<u64>
    requires Accepted(t)
  {
    iset page: u64 | Key(CacheTag(t), root, page) in c.entries
  }

  ghost function MappedPages(m: Memory, t: Translator, root: u64): iset<u64>
    requires Accepted(t)
  {
    iset page: u64 | Walk(t, m, root, page).Ok?
  }

  // ---------- right translations make the right write ----------

  lemma {:induction false} RightIsDirect(s: State, t: Translator, root: u64, va: u64, data: seq<byte>, completed: nat)
    requires Accepted(t) && TranslationsRight(s, t, root, va, data, completed)
    ensures var (s', r) := WriteFromStep(s, t, root, va, data, completed);
      (s'.memory, r) == WriteDirect(s.memory, t, root, va, data, completed)
    decreases |data| - completed
  {
    hide Walk, TranslateStep, TranslateDirect, Write;
    if completed < |data| && va + completed < U64_LIMIT {
      var n := ChunkLength(va + completed, |data| - completed);
      TranslateKeepsMemory(s, t, root, va + completed);
      var (s1, tr) := TranslateStep(s, t, root, va + completed);
      if tr.Ok? {
        var (m1, r1) := Write(s1.memory, tr.value.physicalAddress, data[completed..completed + n]);
        if r1.Ok? { RightIsDirect(s1.(memory := m1), t, root, va, data, completed + n); }
      }
    }
  }

  lemma TranslateKeepsMemory(s: State, t: Translator, root: u64, va: u64)
    requires Accepted(t)
    ensures TranslateStep(s, t, root, va).0.memory == s.memory
  {
    hide Walk, Insert;
  }

  lemma WriteKeepsReads(m: Memory, a: nat, data: seq<byte>)
    ensures Write(m, a, data).0.canRead == m.canRead
  {
    hide WriteFrom;
    WriteEffect(m, a, data, 0);
  }

  /** A chunk that does not end the write ends its page. */
  lemma NextPage(x: u64, n: nat, remaining: nat, y: u64)
    requires n == ChunkLength(x, remaining) && n < remaining && x + n <= y
    ensures PageOf(y) != PageOf(x) && PageOf(y) >= x + n
  {
  }

  // ---------- the exact condition for one cache ----------

  /** On the pages still to come the cache says what `m0` gave. */
  ghost predicate Recalls(c: Cache, m0: Memory, t: Translator, root: u64, from: nat)
    requires Accepted(t)
  {
    forall y: u64 | from <= y && Key(CacheTag(t), root, PageOf(y)) in c.entries ::
      m0.canRead && Walk(t, m0, root, PageOf(y)) == Ok(c.entries[Key(CacheTag(t), root, PageOf(y))])
  }

  lemma CacheAfterTranslate(s: State, t: Translator, root: u64, x: u64)
    requires Accepted(t) && FifoCache(s.cache)
    ensures var c, c' := s.cache, TranslateStep(s, t, root, x).0.cache;
      && FifoCache(c') && c'.capacity == c.capacity && |c'.order| <= |c.order| + 1
      && (forall k | k in c'.entries && k != Key(CacheTag(t), root, PageOf(x)) ::
            k in c.entries && c'.entries[k] == c.entries[k])
      && (forall k | k in c.entries && |c.order| < c.capacity :: k in c'.entries && c'.entries[k] == c.entries[k])
  {
    hide Walk;
    var key, r := Key(CacheTag(t), root, PageOf(x)), Walk(t, s.memory, root, PageOf(x));
    if key !in s.cache.entries && s.memory.canRead && r.Ok? { InsertKeepsFifo(s.cache, key, r.value); }
  }

  /** One translation is right exactly when its page, if cached, is not remapped. */
  lemma OneTranslation(s: State, m0: Memory, t: Translator, root: u64, x: u64)
    requires Accepted(t) && s.memory.canRead == m0.canRead && Recalls(s.cache, m0, t, root, x)
    ensures TranslateStep(s, t, root, x).1 == TranslateDirect(s.memory, t, root, x) <==>
      PageKept(CachedPages(s.cache, t, root), m0, s.memory, t, root, PageOf(x))
  {
    hide Walk;
    if s.memory.canRead {
      OffsetOfPage(s.memory, t, root, x);
      WalkOfPage(t, m0, root, PageOf(x));
      WalkOfPage(t, s.memory, root, PageOf(x));
    }
  }

  lemma {:induction false} RightExactly(
    s: State, m0: Memory, t: Translator, root: u64, va: u64, data: seq<byte>, completed: nat)
    requires Accepted(t) && FifoCache(s.cache) && s.memory.canRead == m0.canRead
    requires Recalls(s.cache, m0, t, root, va + completed)
    ensures TranslationsRight(s, t, root, va, data, completed) <==>
      StillKept(s.cache, m0, s.memory, t, root, va, data, completed)
    decreases |data| - completed
  {
    hide Walk, TranslateStep, TranslateDirect, Write, Recalls, PageKept, FifoCache;
    if completed < |data| && va + completed < U64_LIMIT {
      var x: u64 := va + completed;
      var n := ChunkLength(x, |data| - completed);
      OneTranslation(s, m0, t, root, x);
      TranslateKeepsMemory(s, t, root, x);
      assert State(s.cache, s.memory) == s;
      var (s1, tr) := TranslateStep(s, t, root, x);
      if tr == TranslateDirect(s.memory, t, root, x) && tr.Ok? {
        var (m1, r1) := Write(s.memory, tr.value.physicalAddress, data[completed..completed + n]);
        WriteKeepsReads(s.memory, tr.value.physicalAddress, data[completed..completed + n]);
        if r1.Ok? && n < |data| - completed {
          CacheAfterTranslate(s, t, root, x);
          RecallsOnward(s.cache, s1.cache, m0, t, root, x, n, |data| - completed);
          RightExactly(s1.(memory := m1), m0, t, root, va, data, completed + n);
        }
      }
    }
  }

  lemma RecallsOnward(c: Cache, c': Cache, m0: Memory, t: Translator, root: u64, x: u64, n: nat, remaining: nat)
    requires Accepted(t) && Recalls(c, m0, t, root, x) && n == ChunkLength(x, remaining) && n < remaining
    requires forall k | k in c'.entries && k != Key(CacheTag(t), root, PageOf(x)) ::
      k in c.entries && c'.entries[k] == c.entries[k]
    ensures Recalls(c', m0, t, root, x + n)
  {
    hide Walk;
    forall y: u64 | x + n <= y && Key(CacheTag(t), root, PageOf(y)) in c'.entries
      ensures m0.canRead
      ensures Walk(t, m0, root, PageOf(y)) == Ok(c'.entries[Key(CacheTag(t), root, PageOf(y))])
    {
      NextPage(x, n, remaining, y);
    }
  }

  // ---------- undisturbed pages suffice ----------

  /** On the pages still to come the cache holds none but `pages`. */
  ghost predicate CachesOnly(c: Cache, pages: iset<u64>, t: Translator, root: u64, from: nat)
    requires Accepted(t)
  {
    forall y: u64 | from <= y && Key(CacheTag(t), root, PageOf(y)) in c.entries :: PageOf(y) in pages
  }

  lemma CachesOnlyOnward(
    c: Cache, m: Memory, pages: iset<u64>, t: Translator, root: u64, x: u64, n: nat, remaining: nat)
    requires Accepted(t) && CachesOnly(c, pages, t, root, x) && n == ChunkLength(x, remaining) && n < remaining
    ensures CachesOnly(TranslateStep(State(c, m), t, root, x).0.cache, pages, t, root, x + n)
  {
    hide Walk;
    var c' := TranslateStep(State(c, m), t, root, x).0.cache;
    forall y: u64 | x + n <= y && Key(CacheTag(t), root, PageOf(y)) in c'.entries ensures PageOf(y) in pages {
      NextPage(x, n, remaining, y);
    }
  }

  lemma {:induction false} UndisturbedIsKept(
    c: Cache, pages: iset<u64>, m0: Memory, m: Memory, t: Translator, root: u64, va: u64, data: seq<byte>, completed: nat)
    requires Accepted(t) && CachesOnly(c, pages, t, root, va + completed)
    requires Undisturbed(pages, m0, m, t, root, va, data, completed)
    ensures StillKept(c, m0, m, t, root, va, data, completed)
    decreases |data| - completed
  {
    hide Walk, TranslateStep, TranslateDirect, Write, CachesOnly;
    if completed < |data| && va + completed < U64_LIMIT {
      var x: u64 := va + completed;
      var n := ChunkLength(x, |data| - completed);
      assert PageOf(x) in CachedPages(c, t, root) ==> PageOf(x) in pages by { CachedNow(c, pages, t, root, x); }
      var tr := TranslateDirect(m, t, root, x);
      if tr.Ok? {
        var (m1, r1) := Write(m, tr.value.physicalAddress, data[completed..completed + n]);
        var c1 := TranslateStep(State(c, m), t, root, x).0.cache;
        if r1.Ok? && n < |data| - completed {
          CachesOnlyOnward(c, m, pages, t, root, x, n, |data| - completed);
          UndisturbedIsKept(c1, pages, m0, m1, t, root, va, data, completed + n);
        }
      }
    }
  }

  lemma CachedNow(c: Cache, pages: iset<u64>, t: Translator, root: u64, x: u64)
    requires Accepted(t) && CachesOnly(c, pages, t, root, x)
    ensures PageOf(x) in CachedPages(c, t, root) ==> PageOf(x) in pages
  {
  }

  // ---------- and are needed, unless entries are evicted first ----------

  /** How many pages the rest of a write comes to. */
  function Chunks(va: u64, length: nat, completed: nat): (k: nat)
    ensures completed < length <==> k > 0
    decreases length - completed
  {
    if completed >= length then 0 else 1 + Chunks(va, length, completed + ChunkLength(va + completed, length - completed))
  }

  /** The cache holds every page of `pages`, as `m0` gave it. */
  ghost predicate Retains(c: Cache, pages: iset<u64>, m0: Memory, t: Translator, root: u64)
    requires Accepted(t)
  {
    forall page: u64 | page in pages ::
      && Key(CacheTag(t), root, page) in c.entries
      && Walk(t, m0, root, page) == Ok(c.entries[Key(CacheTag(t), root, page)])
  }

  lemma {:induction false} KeptIsUndisturbed(
    c: Cache, pages: iset<u64>, m0: Memory, m: Memory, t: Translator, root: u64, va: u64, data: seq<byte>, completed: nat)
    requires Accepted(t) && FifoCache(c) && Retains(c, pages, m0, t, root)
    requires |c.order| + Chunks(va, |data|, completed) <= c.capacity + 1
    requires StillKept(c, m0, m, t, root, va, data, completed)
    ensures Undisturbed(pages, m0, m, t, root, va, data, completed)
    decreases |data| - completed
  {
    hide Walk, TranslateStep, TranslateDirect, Write, Retains, FifoCache;
    if completed < |data| && va + completed < U64_LIMIT {
      var x: u64 := va + completed;
      var n := ChunkLength(x, |data| - completed);
      assert PageOf(x) in pages ==> PageOf(x) in CachedPages(c, t, root) by { RetainedNow(c, pages, m0, t, root, PageOf(x)); }
      var tr := TranslateDirect(m, t, root, x);
      if tr.Ok? {
        var (m1, r1) := Write(m, tr.value.physicalAddress, data[completed..completed + n]);
        var c1 := TranslateStep(State(c, m), t, root, x).0.cache;
        if r1.Ok? && completed + n < |data| {
          CacheAfterTranslate(State(c, m), t, root, x);
          RetainsOnward(c, c1, pages, m0, t, root);
          KeptIsUndisturbed(c1, pages, m0, m1, t, root, va, data, completed + n);
        }
      }
    }
  }

  lemma RetainedNow(c: Cache, pages: iset<u64>, m0: Memory, t: Translator, root: u64, page: u64)
    requires Accepted(t) && Retains(c, pages, m0, t, root)
    ensures page in pages ==> page in CachedPages(c, t, root)
  {
    hide Walk;
  }

  lemma RetainsOnward(c: Cache, c': Cache, pages: iset<u64>, m0: Memory, t: Translator, root: u64)
    requires Accepted(t) && Retains(c, pages, m0, t, root)
    requires forall k | k in c.entries :: k in c'.entries && c'.entries[k] == c.entries[k]
    ensures Retains(c', pages, m0, t, root)
  {
    hide Walk;
  }

  lemma CoherentRemembers(s: State, t: Translator, root: u64, va: nat)
    requires Coherent(s) && Accepted(t)
    ensures Recalls(s.cache, s.memory, t, root, va)
    ensures CachesOnly(s.cache, CachedPages(s.cache, t, root), t, root, va)
    ensures Retains(s.cache, CachedPages(s.cache, t, root), s.memory, t, root)
  {
    hide Walk;
  }

  /** One session: from a coherent cache the translations of a write are right exactly
      when no page still cached when the write comes to it is remapped by then; so
      they are when no cached page is, and, where the cache has room for the pages of
      the range, only then. */
  lemma RightFromHere(s: State, t: Translator, root: u64, va: u64, data: seq<byte>)
    requires Coherent(s) && Accepted(t)
    ensures TranslationsRight(s, t, root, va, data, 0) <==> StillKept(s.cache, s.memory, s.memory, t, root, va, data, 0)
    ensures Undisturbed(CachedPages(s.cache, t, root), s.memory, s.memory, t, root, va, data, 0) ==>
      TranslationsRight(s, t, root, va, data, 0)
    ensures |s.cache.order| + Chunks(va, |data|, 0) <= s.cache.capacity + 1 ==>
      (TranslationsRight(s, t, root, va, data, 0) <==>
       Undisturbed(CachedPages(s.cache, t, root), s.memory, s.memory, t, root, va, data, 0))
  {
    hide Walk, TranslationsRight, Undisturbed, StillKept, Recalls, Retains, CachesOnly, Coherent;
    assert FifoCache(s.cache) by { CoherentIsFifo(s); }
    var pages := CachedPages(s.cache, t, root);
    CoherentRemembers(s, t, root, va);
    RightExactly(s, s.memory, t, root, va, data, 0);
    if Undisturbed(pages, s.memory, s.memory, t, root, va, data, 0) {
      UndisturbedIsKept(s.cache, pages, s.memory, s.memory, t, root, va, data, 0);
    }
    if |s.cache.order| + Chunks(va, |data|, 0) <= s.cache.capacity + 1 && TranslationsRight(s, t, root, va, data, 0) {
      KeptIsUndisturbed(s.cache, pages, s.memory, s.memory, t, root, va, data, 0);
    }
  }

  lemma CoherentIsFifo(s: State)
    requires Coherent(s)
    ensures FifoCache(s.cache)
  {
    hide Walk;
  }

  // ---------- whatever the cache ----------

  lemma {:induction false} FewerPages(
    fewer: iset<u64>, pages: iset<u64>, m0: Memory, m: Memory, t: Translator, root: u64, va: u64, data: seq<byte>,
    completed: nat)
    requires Accepted(t) && fewer <= pages && Undisturbed(pages, m0, m, t, root, va, data, completed)
    ensures Undisturbed(fewer, m0, m, t, root, va, data, completed)
    decreases |data| - completed
  {
    hide Walk, TranslateDirect, Write;
    if completed < |data| && va + completed < U64_LIMIT {
      var n := ChunkLength(va + completed, |data| - completed);
      var tr := TranslateDirect(m, t, root, va + completed);
      if tr.Ok? {
        var (m1, r1) := Write(m, tr.value.physicalAddress, data[completed..completed + n]);
        if r1.Ok? { FewerPages(fewer, pages, m0, m1, t, root, va, data, completed + n); }
      }
    }
  }

  lemma {:induction false} PageByPage(
    pages: iset<u64>, m0: Memory, m: Memory, t: Translator, root: u64, va: u64, data: seq<byte>, completed: nat)
    requires Accepted(t)
    requires forall page | page in pages :: Undisturbed(iset{page}, m0, m, t, root, va, data, completed)
    ensures Undisturbed(pages, m0, m, t, root, va, data, completed)
    decreases |data| - completed
  {
    hide Walk, TranslateDirect, Write;
    if completed < |data| && va + completed < U64_LIMIT {
      var n := ChunkLength(va + completed, |data| - completed);
      var page := PageOf(va + completed);
      if page in pages { assert Undisturbed(iset{page}, m0, m, t, root, va, data, completed); }
      var tr := TranslateDirect(m, t, root, va + completed);
      if tr.Ok? {
        var (m1, r1) := Write(m, tr.value.physicalAddress, data[completed..completed + n]);
        if r1.Ok? { PageByPage(pages, m0, m1, t, root, va, data, completed + n); }
      }
    }
  }

  ghost function OnePage(capacity: nat, m: Memory, t: Translator, root: u64, page: u64): Cache
    requires Accepted(t) && Walk(t, m, root, page).Ok?
  {
    var key := Key(CacheTag(t), root, page);
    Cache(capacity, map[key := Walk(t, m, root, page).value], [key])
  }

  lemma OnePageIsCoherent(capacity: nat, m: Memory, t: Translator, root: u64, page: u64)
    requires Accepted(t) && m.canRead && Walk(t, m, root, page).Ok? && capacity > 0
    ensures Coherent(State(OnePage(capacity, m, t, root, page), m))
    ensures CachedPages(OnePage(capacity, m, t, root, page), t, root) == iset{page}
  {
    hide Walk;
    var c := OnePage(capacity, m, t, root, page);
    forall t', root': u64, page': u64 | Accepted(t') && Key(CacheTag(t'), root', page') in c.entries
      ensures Walk(t', m, root', page') == Ok(c.entries[Key(CacheTag(t'), root', page')])
    {
      CacheTagInjective(t, t');
    }
  }

  /** Every coherent cache that can hold the pages of the range gives the write right
      translations exactly when no mapped page of the range is remapped by the write
      itself before it is reached. */
  lemma RightFromEveryCache(capacity: nat, m: Memory, t: Translator, root: u64, va: u64, data: seq<byte>)
    requires Accepted(t) && m.canRead && capacity > 0 && Chunks(va, |data|, 0) <= capacity
    ensures (forall c: Cache | c.capacity == capacity && Coherent(State(c, m)) ::
               TranslationsRight(State(c, m), t, root, va, data, 0)) <==>
      Undisturbed(MappedPages(m, t, root), m, m, t, root, va, data, 0)
  {
    hide Walk, TranslationsRight, Undisturbed, StillKept, Coherent, OnePage;
    var mapped := MappedPages(m, t, root);
    if Undisturbed(mapped, m, m, t, root, va, data, 0) {
      forall c: Cache | c.capacity == capacity && Coherent(State(c, m))
        ensures TranslationsRight(State(c, m), t, root, va, data, 0)
      {
        UndisturbedIsRight(State(c, m), t, root, va, data);
      }
    }
    if forall c: Cache | c.capacity == capacity && Coherent(State(c, m)) ::
         TranslationsRight(State(c, m), t, root, va, data, 0)
    {
      forall page | page in mapped ensures Undisturbed(iset{page}, m, m, t, root, va, data, 0) {
        var c := OnePage(capacity, m, t, root, page);
        OnePageIsCoherent(capacity, m, t, root, page);
        OnePageOrder(capacity, m, t, root, page);
        RightFromHere(State(c, m), t, root, va, data);
      }
      PageByPage(mapped, m, m, t, root, va, data, 0);
    }
  }

  /** No mapped page remapped: right from every coherent cache, of any capacity. */
  lemma UndisturbedIsRight(s: State, t: Translator, root: u64, va: u64, data: seq<byte>)
    requires Coherent(s) && Accepted(t)
    requires Undisturbed(MappedPages(s.memory, t, root), s.memory, s.memory, t, root, va, data, 0)
    ensures TranslationsRight(s, t, root, va, data, 0)
  {
    hide Walk, TranslationsRight, Undisturbed, StillKept, Coherent;
    CachedIsMapped(s, t, root);
    FewerPages(CachedPages(s.cache, t, root), MappedPages(s.memory, t, root), s.memory, s.memory, t, root, va, data, 0);
    RightFromHere(s, t, root, va, data);
  }

  /** A session's cache has 4096 entries: the condition is exact for every write that
      comes to no more pages than that. */
  lemma RightFromEverySession(m: Memory, t: Translator, root: u64, va: u64, data: seq<byte>)
    requires Accepted(t) && m.canRead && Chunks(va, |data|, 0) <= 4096
    ensures (forall c: Cache | c.capacity == 4096 && Coherent(State(c, m)) ::
               TranslationsRight(State(c, m), t, root, va, data, 0)) <==>
      Undisturbed(MappedPages(m, t, root), m, m, t, root, va, data, 0)
  {
    hide Walk, TranslationsRight, Undisturbed, Coherent;
    RightFromEveryCache(4096, m, t, root, va, data);
  }

  lemma OnePageOrder(capacity: nat, m: Memory, t: Translator, root: u64, page: u64)
    requires Accepted(t) && Walk(t, m, root, page).Ok?
    ensures var c := OnePage(capacity, m, t, root, page); c.capacity == capacity && |c.order| == 1
  {
    hide Walk;
  }

  lemma CachedIsMapped(s: State, t: Translator, root: u64)
    requires Coherent(s) && Accepted(t)
    ensures CachedPages(s.cache, t, root) <= MappedPages(s.memory, t, root)
  {
    hide Walk;
  }

  // ---------- writing through a cache that has none of the pages ----------

  /** A range none of whose pages is counted is undisturbed, page tables or not. */
  lemma {:induction false} ColdIsUndisturbed(
    pages: iset<u64>, m0: Memory, m: Memory, t: Translator, root: u64, va: u64, data: seq<byte>, completed: nat)
    requires Accepted(t) && forall x: u64 | va <= x < va + |data| :: PageOf(x) !in pages
    ensures Undisturbed(pages, m0, m, t, root, va, data, completed)
    decreases |data| - completed
  {
    hide Walk, TranslateDirect, Write, PageOf;
    if completed < |data| && va + completed < U64_LIMIT {
      var x: u64 := va + completed;
      assert PageOf(x) !in pages;
      var n := ChunkLength(x, |data| - completed);
      var tr := TranslateDirect(m, t, root, x);
      if tr.Ok? {
        var (m1, r1) := Write(m, tr.value.physicalAddress, data[completed..completed + n]);
        if r1.Ok? { ColdIsUndisturbed(pages, m0, m1, t, root, va, data, completed + n); }
      }
    }
  }

  /** A write to pages that are not cached equals the cache-less one for every
      memory, even one in which it overwrites its own tables. */
  lemma ColdWrite(s: State, t: Translator, root: u64, va: u64, data: seq<byte>)
    requires Coherent(s) && Accepted(t)
    requires forall x: u64 | va <= x < va + |data| :: Key(CacheTag(t), root, PageOf(x)) !in s.cache.entries
    ensures var (s', r) := WriteFromStep(s, t, root, va, data, 0);
      (s'.memory, r) == WriteDirect(s.memory, t, root, va, data, 0)
  {
    hide Walk, TranslationsRight, Undisturbed, StillKept, Coherent, WriteFromStep, WriteDirect;
    ColdIsUndisturbed(CachedPages(s.cache, t, root), s.memory, s.memory, t, root, va, data, 0);
    RightFromHere(s, t, root, va, data);
    RightIsDirect(s, t, root, va, data, 0);
  }
}
