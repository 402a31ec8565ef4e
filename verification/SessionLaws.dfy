/** What a session promises byte by byte, and over whole runs. */
module SessionLaws {
  import opened Words
  import opened VmiTypes
  import opened PhysicalMemory
  import opened PageWalk
  import opened Translators
  import opened SessionModel
  import opened CachedWrites

  // ---------- virtual bytes, one address at a time ----------

  ghost predicate Mapped(m: Memory, t: Translator, root: u64, y: nat)
    requires Accepted(t)
  {
    y < U64_LIMIT && Walk(t, m, root, y).Ok?
  }

  /** The physical address of the virtual byte `y`. */
  ghost function Target(m: Memory, t: Translator, root: u64, y: nat): nat
    requires Accepted(t) && Mapped(m, t, root, y)
  {
    Walk(t, m, root, y).value.physicalAddress
  }

  ghost predicate VirtualReadable(m: Memory, t: Translator, root: u64, y: nat)
    requires Accepted(t)
  {
    Mapped(m, t, root, y) && Readable(m, Target(m, t, root, y))
  }

  ghost function VirtualByte(m: Memory, t: Translator, root: u64, y: nat): byte
    requires Accepted(t) && VirtualReadable(m, t, root, y)
  {
    m.bytes[Target(m, t, root, y)]
  }

  lemma SamePage(x: u64, n: nat, y: nat)
    requires x % 0x1000 + n <= 0x1000 && x <= y < x + n
    ensures y < U64_LIMIT && PageOf(y) == PageOf(x)
  {
  }

  /** Within a virtual page, physical addresses run in step with virtual ones. */
  lemma PageInStep(m: Memory, t: Translator, root: u64, x: u64, n: nat, y: nat)
    requires Accepted(t) && x % 0x1000 + n <= 0x1000 && x <= y < x + n
    ensures Mapped(m, t, root, y) <==> Mapped(m, t, root, x)
    ensures Mapped(m, t, root, x) ==> Target(m, t, root, y) == Target(m, t, root, x) + (y - x)
  {
    hide Walk;
    SamePage(x, n, y);
    WalkOfPage(t, m, root, x);
    WalkOfPage(t, m, root, y);
  }

  lemma ChunkReadable(m: Memory, t: Translator, root: u64, x: u64, n: nat)
    requires Accepted(t) && x % 0x1000 + n <= 0x1000 && n > 0
    ensures (forall y | x <= y < x + n :: VirtualReadable(m, t, root, y))
      <==> Mapped(m, t, root, x) && AllReadable(m, Target(m, t, root, x), n)
  {
    hide Walk;
    forall y | x <= y < x + n
      ensures Mapped(m, t, root, y) <==> Mapped(m, t, root, x)
      ensures Mapped(m, t, root, x) ==> Target(m, t, root, y) == Target(m, t, root, x) + (y - x)
    {
      PageInStep(m, t, root, x, n, y);
    }
    if forall y | x <= y < x + n :: VirtualReadable(m, t, root, y) {
      assert VirtualReadable(m, t, root, x);
      var a := Target(m, t, root, x);
      forall p | a <= p < a + n ensures Readable(m, p) {
        assert VirtualReadable(m, t, root, x + (p - a));
      }
    }
  }

  /** The chunked read succeeds exactly when every virtual byte of the range is
      below 2^64, canonical, mapped and readable, and then returns those bytes. */
  lemma {:induction false} ReadDirectMeaning(m: Memory, t: Translator, root: u64, va: u64, length: nat, done: seq<byte>)
    requires Accepted(t) && m.canRead && |done| <= length
    ensures var r := ReadDirect(m, t, root, va, length, done);
      && (r.Ok? <==> forall y | va + |done| <= y < va + length :: VirtualReadable(m, t, root, y))
      && (r.Ok? ==>
           && |r.value| == length && r.value[..|done|] == done
           && forall y | va + |done| <= y < va + length :: r.value[y - va] == VirtualByte(m, t, root, y))
    decreases length - |done|
  {
    hide Walk;
    if |done| < length && va + |done| >= U64_LIMIT {
      assert !VirtualReadable(m, t, root, va + |done|);
    } else if |done| < length {
      var x := va + |done|;
      var n := ChunkLength(x, length - |done|);
      ChunkReadable(m, t, root, x, n);
      if Mapped(m, t, root, x) {
        var a := Target(m, t, root, x);
        if AllReadable(m, a, n) {
          var b := Bytes(m, a, n);
          ReadDirectMeaning(m, t, root, va, length, done + b);
          var r := ReadDirect(m, t, root, va, length, done + b);
          if r.Ok? { assert r.value[..|done|] == r.value[..|done + b|][..|done|]; }
          forall y | x <= y < x + n
            ensures VirtualReadable(m, t, root, y)
            ensures r.Ok? ==> r.value[y - va] == VirtualByte(m, t, root, y)
          {
            PageInStep(m, t, root, x, n, y);
            if r.Ok? { assert r.value[..|done + b|][y - va] == (done + b)[y - va]; }
          }
        }
      }
    }
  }

  /** `read_virtual` as a whole, from any coherent cache. */
  lemma ReadVirtualExact(s: State, t: Translator, root: u64, va: u64, length: nat)
    requires Coherent(s) && Accepted(t)
    ensures var (s', r) := ReadVirtualStep(s, t, root, va, length);
      && Coherent(s') && s'.memory == s.memory
      && (r.Ok? <==> s.memory.canRead && forall y | va <= y < va + length :: VirtualReadable(s.memory, t, root, y))
      && (r.Ok? ==>
           && |r.value| == length
           && forall y | va <= y < va + length :: r.value[y - va] == VirtualByte(s.memory, t, root, y))
  {
    hide ReadFrom, ReadDirect, VirtualReadable, VirtualByte, Coherent;
    if s.memory.canRead {
      ReadTransparent(s, t, root, va, length, []);
      ReadDirectMeaning(s.memory, t, root, va, length, []);
    }
  }

  // ---------- virtual writes ----------

  /** No byte written to the range lies in a page-table entry that the walks of
      its pages read. */
  ghost predicate WriteSafe(m: Memory, t: Translator, root: u64, va: u64, n: nat)
    requires Accepted(t)
  {
    forall x: u64, y: nat | va <= x < va + n && va <= y < va + n && Mapped(m, t, root, y) ::
      Target(m, t, root, y) !in Footprint(t, m, root, x)
  }

  ghost function Targets(m: Memory, t: Translator, root: u64, lo: nat, hi: nat): set<nat>
    requires Accepted(t)
  {
    set y: nat | lo <= y < hi && Mapped(m, t, root, y) :: Target(m, t, root, y)
  }

  ghost predicate VirtualWritable(m: Memory, t: Translator, root: u64, y: nat)
    requires Accepted(t)
  {
    Mapped(m, t, root, y) && Writable(m, Target(m, t, root, y))
  }

  lemma SameExceptTrans(a: Memory, b: Memory, c: Memory, ab: set<nat>, bc: set<nat>, ac: set<nat>)
    requires SameExcept(a, b, ab) && SameExcept(b, c, bc) && ab <= ac && bc <= ac
    ensures SameExcept(a, c, ac)
  {
  }

  lemma SameExceptGrow(m: Memory, m': Memory, a: set<nat>, b: set<nat>)
    requires SameExcept(m, m', a) && a <= b
    ensures SameExcept(m, m', b)
  {
  }

  /** The footprint argument: a safe write leaves the walks of its pages alone. */
  lemma WalksUndisturbed(m0: Memory, m: Memory, t: Translator, root: u64, va: u64, n: nat, x: u64)
    requires Accepted(t) && WriteSafe(m0, t, root, va, n) && va <= x < va + n
    requires SameExcept(m0, m, Targets(m0, t, root, va, va + n))
    ensures Walk(t, m, root, x) == Walk(t, m0, root, x)
    ensures Walk(t, m, root, PageOf(x)) == Walk(t, m0, root, PageOf(x))
  {
    hide Walk, Footprint, Target;
    var touched := Targets(m0, t, root, va, va + n);
    assert touched !! Footprint(t, m0, root, x);
    WalkFrame(t, m0, m, touched, root, x);
    FootprintOfPage(t, m0, root, x);
    WalkFrame(t, m0, m, touched, root, PageOf(x));
  }

  lemma ChunkTargets(m: Memory, t: Translator, root: u64, x: u64, n: nat)
    requires Accepted(t) && x % 0x1000 + n <= 0x1000 && n > 0 && Mapped(m, t, root, x)
    ensures var a := Target(m, t, root, x);
      && Targets(m, t, root, x, x + n) == Span(a, a + n)
      && ((forall y | x <= y < x + n :: VirtualWritable(m, t, root, y))
          <==> forall p | a <= p < a + n :: Writable(m, p))
      && forall y | x <= y < x + n :: Mapped(m, t, root, y) && Target(m, t, root, y) == a + (y - x)
  {
    hide Walk, Target;
    var a := Target(m, t, root, x);
    forall y | x <= y < x + n ensures Mapped(m, t, root, y) && Target(m, t, root, y) == a + (y - x) {
      PageInStep(m, t, root, x, n, y);
    }
    var targets := Targets(m, t, root, x, x + n);
    forall p | p in Span(a, a + n) ensures p in targets {
      assert Target(m, t, root, x + (p - a)) == p;
    }
    if forall y | x <= y < x + n :: VirtualWritable(m, t, root, y) {
      forall p | a <= p < a + n ensures Writable(m, p) {
        assert VirtualWritable(m, t, root, x + (p - a));
      }
    }
  }

  /** `y` is the last address of the range that is stored at its target. */
  ghost predicate LastStored(m: Memory, t: Translator, root: u64, y: nat, hi: nat)
    requires Accepted(t) && Mapped(m, t, root, y)
  {
    forall z | y < z < hi && Mapped(m, t, root, z) :: Target(m, t, root, z) != Target(m, t, root, y)
  }

  ghost predicate HoldsByte(m: Memory, a: nat, v: byte) { a in m.bytes && m.bytes[a] == v }

  /** The outcome of writing `data[completed..]`: success exactly when every byte
      of the range is mapped to a writable byte; only those bytes change; and
      where addresses of the range share a target the last one prevails. */
  ghost predicate WriteOutcome(
    m0: Memory, m: Memory, t: Translator, root: u64, va: u64, data: seq<byte>, completed: nat, m': Memory, r: Result<()>)
    requires Accepted(t)
  {
    var end := va + |data|;
    && SameExcept(m, m', Targets(m0, t, root, va + completed, end))
    && (r.Ok? <==> forall y | va + completed <= y < end :: VirtualWritable(m0, t, root, y))
    && (r.Ok? ==> forall y | va + completed <= y < end && Mapped(m0, t, root, y) && LastStored(m0, t, root, y, end) ::
         HoldsByte(m', Target(m0, t, root, y), data[y - va]))
  }

  lemma {:induction false} WriteDirectMeaning(
    m0: Memory, m: Memory, t: Translator, root: u64, va: u64, data: seq<byte>, completed: nat)
    requires Accepted(t) && m0.canRead && completed <= |data|
    requires WriteSafe(m0, t, root, va, |data|)
    requires SameExcept(m0, m, Targets(m0, t, root, va, va + |data|))
    ensures var (m', r) := WriteDirect(m, t, root, va, data, completed);
      WriteOutcome(m0, m, t, root, va, data, completed, m', r)
    decreases |data| - completed
  {
    hide Walk, Footprint, Write, WriteSafe, LastStored, HoldsByte, Targets;
    var end := va + |data|;
    if completed < |data| && va + completed >= U64_LIMIT {
      assert !VirtualWritable(m0, t, root, va + completed);
    } else if completed < |data| {
      var x := va + completed;
      var n := ChunkLength(x, |data| - completed);
      WalksUndisturbed(m0, m, t, root, va, |data|, x);
      if !Mapped(m0, t, root, x) {
        assert !VirtualWritable(m0, t, root, x);
      } else {
        var a := Target(m0, t, root, x);
        var (m1, r1) := Write(m, a, data[completed..completed + n]);
        ChunkWritten(m0, m, t, root, va, data, completed, n, m1, r1);
        TargetsGrow(m0, t, root, x, x + n, x, end);
        SameExceptGrow(m, m1, Targets(m0, t, root, x, x + n), Targets(m0, t, root, x, end));
        if r1.Ok? {
          WriteDirectMeaning(m0, m1, t, root, va, data, completed + n);
          var (m', r) := WriteDirect(m1, t, root, va, data, completed + n);
          ChunkThenRest(m0, m, t, root, va, data, completed, n, m1, m', r);
        }
      }
    }
  }

  ghost predicate ChunkStored(
    m0: Memory, m1: Memory, t: Translator, root: u64, va: u64, data: seq<byte>, lo: nat, hi: nat)
    requires Accepted(t) && va <= lo && hi <= va + |data|
  {
    forall y | lo <= y < hi ::
      VirtualWritable(m0, t, root, y) && HoldsByte(m1, Target(m0, t, root, y), data[y - va])
  }

  ghost predicate ChunkEffect(
    m0: Memory, m: Memory, t: Translator, root: u64, va: u64, data: seq<byte>, lo: nat, hi: nat,
    m1: Memory, r1: Result<()>)
    requires Accepted(t) && va <= lo && hi <= va + |data|
  {
    && SameExcept(m, m1, Targets(m0, t, root, lo, hi))
    && SameExcept(m0, m1, Targets(m0, t, root, va, va + |data|))
    && (r1.Ok? <==> forall y | lo <= y < hi :: VirtualWritable(m0, t, root, y))
    && (r1.Ok? ==> ChunkStored(m0, m1, t, root, va, data, lo, hi))
  }

  lemma TargetsGrow(m: Memory, t: Translator, root: u64, lo: nat, hi: nat, lo': nat, hi': nat)
    requires Accepted(t) && lo' <= lo && hi <= hi'
    ensures Targets(m, t, root, lo, hi) <= Targets(m, t, root, lo', hi')
  {
  }

  /** One chunk: the bytes of a page, stored at consecutive physical addresses. */
  lemma ChunkWritten(
    m0: Memory, m: Memory, t: Translator, root: u64, va: u64, data: seq<byte>, completed: nat, n: nat,
    m1: Memory, r1: Result<()>)
    requires Accepted(t) && 0 < n && completed + n <= |data| && va + completed < U64_LIMIT
    requires (va + completed) % 0x1000 + n <= 0x1000
    requires SameExcept(m0, m, Targets(m0, t, root, va, va + |data|))
    requires Mapped(m0, t, root, va + completed)
    requires (m1, r1) == Write(m, Target(m0, t, root, va + completed), data[completed..completed + n])
    ensures ChunkEffect(m0, m, t, root, va, data, va + completed, va + completed + n, m1, r1)
  {
    hide Walk, Write, Targets;
    var x, chunk := va + completed, data[completed..completed + n];
    var a := Target(m0, t, root, x);
    ChunkTargets(m0, t, root, x, n);
    WholeWriteEffect(m, a, chunk);
    assert forall p :: Writable(m, p) <==> Writable(m0, p);
    TargetsGrow(m0, t, root, x, x + n, va, va + |data|);
    SameExceptTrans(m0, m, m1, Targets(m0, t, root, va, va + |data|), Span(a, a + n), Targets(m0, t, root, va, va + |data|));
    if r1.Ok? {
      forall y | x <= y < x + n
        ensures VirtualWritable(m0, t, root, y) && HoldsByte(m1, Target(m0, t, root, y), data[y - va])
      {
        assert a + (y - x) in m1.bytes && m1.bytes[a + (y - x)] == chunk[y - x];
      }
    }
  }

  lemma ChunkThenRest(
    m0: Memory, m: Memory, t: Translator, root: u64, va: u64, data: seq<byte>, completed: nat, n: nat,
    m1: Memory, m': Memory, r: Result<()>)
    requires Accepted(t) && 0 < n && completed + n <= |data|
    requires SameExcept(m, m1, Targets(m0, t, root, va + completed, va + completed + n))
    requires ChunkStored(m0, m1, t, root, va, data, va + completed, va + completed + n)
    requires WriteOutcome(m0, m1, t, root, va, data, completed + n, m', r)
    ensures WriteOutcome(m0, m, t, root, va, data, completed, m', r)
  {
    hide Walk, Targets, LastStored, HoldsByte, SameExcept, Target;
    var x, end := va + completed, va + |data|;
    var later := Targets(m0, t, root, x + n, end);
    TargetsGrow(m0, t, root, x, x + n, x, end);
    TargetsGrow(m0, t, root, x + n, end, x, end);
    SameExceptTrans(m, m1, m', Targets(m0, t, root, x, x + n), later, Targets(m0, t, root, x, end));
    if r.Ok? {
      forall y | x <= y < x + n && Mapped(m0, t, root, y) && LastStored(m0, t, root, y, end)
        ensures HoldsByte(m', Target(m0, t, root, y), data[y - va])
      {
        LastByteSurvives(m0, m1, m', t, root, y, x + n, end, data[y - va]);
      }
    }
  }

  lemma LastByteSurvives(m0: Memory, m1: Memory, m': Memory, t: Translator, root: u64, y: nat, lo: nat, hi: nat, v: byte)
    requires Accepted(t) && Mapped(m0, t, root, y) && y < lo && LastStored(m0, t, root, y, hi)
    requires SameExcept(m1, m', Targets(m0, t, root, lo, hi)) && HoldsByte(m1, Target(m0, t, root, y), v)
    ensures HoldsByte(m', Target(m0, t, root, y), v)
  {
    hide Walk, Target;
    assert Target(m0, t, root, y) !in Targets(m0, t, root, lo, hi);
  }

  // ---------- writing through a cache ----------

  /** A safe write remaps none of its pages, cached or not. */
  lemma {:induction false} SafeIsUndisturbed(
    pages: iset<u64>, m0: Memory, m: Memory, t: Translator, root: u64, va: u64, data: seq<byte>, completed: nat)
    requires Accepted(t) && completed <= |data|
    requires WriteSafe(m0, t, root, va, |data|)
    requires SameExcept(m0, m, Targets(m0, t, root, va, va + |data|))
    ensures Undisturbed(pages, m0, m, t, root, va, data, completed)
    decreases |data| - completed
  {
    hide Walk, Footprint, WriteSafe, Targets, SameExcept, Write, TranslateDirect;
    if completed < |data| && va + completed < U64_LIMIT {
      var x := va + completed;
      var n := ChunkLength(x, |data| - completed);
      WalksUndisturbed(m0, m, t, root, va, |data|, x);
      var tr := TranslateDirect(m, t, root, x);
      if tr.Ok? {
        var (m1, r1) := Write(m, tr.value.physicalAddress, data[completed..completed + n]);
        TranslateDirectIsTarget(m0, m, t, root, va, |data|, x);
        ChunkWritten(m0, m, t, root, va, data, completed, n, m1, r1);
        if r1.Ok? { SafeIsUndisturbed(pages, m0, m1, t, root, va, data, completed + n); }
      }
    }
  }

  lemma TranslateDirectIsTarget(m0: Memory, m: Memory, t: Translator, root: u64, va: u64, n: nat, x: u64)
    requires Accepted(t) && WriteSafe(m0, t, root, va, n) && va <= x < va + n
    requires SameExcept(m0, m, Targets(m0, t, root, va, va + n))
    ensures TranslateDirect(m, t, root, x).Ok? ==>
      Mapped(m0, t, root, x) && TranslateDirect(m, t, root, x).value.physicalAddress == Target(m0, t, root, x)
  {
    hide Walk, Footprint, WriteSafe, Targets;
    WalksUndisturbed(m0, m, t, root, va, n, x);
  }

  /** No page still cached when `write_virtual` comes to it is remapped by then: what
      its translations being right comes down to. */
  ghost predicate CacheStaysRight(s: State, t: Translator, root: u64, va: u64, data: seq<byte>)
    requires Accepted(t)
  {
    StillKept(s.cache, s.memory, s.memory, t, root, va, data, 0)
  }

  /** Two ways to know it before the call: the range avoids the entries its walks
      read, or no page of the range is cached. */
  lemma CacheStaysRightIf(s: State, t: Translator, root: u64, va: u64, data: seq<byte>)
    requires Accepted(t)
    ensures WriteSafe(s.memory, t, root, va, |data|) ==> CacheStaysRight(s, t, root, va, data)
    ensures (forall x: u64 | va <= x < va + |data| :: Key(CacheTag(t), root, PageOf(x)) !in s.cache.entries) ==>
      CacheStaysRight(s, t, root, va, data)
  {
    hide Walk, WriteSafe, Undisturbed, StillKept;
    var pages := CachedPages(s.cache, t, root);
    if WriteSafe(s.memory, t, root, va, |data|) {
      SafeIsUndisturbed(pages, s.memory, s.memory, t, root, va, data, 0);
      UndisturbedIsKept(s.cache, pages, s.memory, s.memory, t, root, va, data, 0);
    }
    if forall x: u64 | va <= x < va + |data| :: Key(CacheTag(t), root, PageOf(x)) !in s.cache.entries {
      ColdIsUndisturbed(pages, s.memory, s.memory, t, root, va, data, 0);
      UndisturbedIsKept(s.cache, pages, s.memory, s.memory, t, root, va, data, 0);
    }
  }

  lemma WriteFromTransparent(s: State, t: Translator, root: u64, va: u64, data: seq<byte>)
    requires Coherent(s) && Accepted(t) && CacheStaysRight(s, t, root, va, data)
    ensures var (s', r) := WriteFromStep(s, t, root, va, data, 0);
      (s'.memory, r) == WriteDirect(s.memory, t, root, va, data, 0)
  {
    hide Walk, Coherent, Undisturbed, StillKept, TranslationsRight, WriteFromStep, WriteDirect;
    RightFromHere(s, t, root, va, data);
    RightIsDirect(s, t, root, va, data, 0);
  }

  /** `write_virtual` from a coherent cache that stays right does what the cache-less
      write does; a safe one has the outcome that the bytes promise; and in every
      outcome, right or not, the cache ends empty. */
  lemma WriteVirtualExact(s: State, t: Translator, root: u64, va: u64, data: seq<byte>)
    requires Coherent(s) && Accepted(t)
    ensures var (s', r) := WriteVirtualStep(s, t, root, va, data);
      && s'.cache == Cleared(s.cache)
      && (CacheStaysRight(s, t, root, va, data) ==>
           (s'.memory, r) == (if s.memory.canWrite then WriteDirect(s.memory, t, root, va, data, 0)
                              else (s.memory, Err(CapabilityMissing))))
      && (WriteSafe(s.memory, t, root, va, |data|) && s.memory.canWrite && s.memory.canRead ==>
           WriteOutcome(s.memory, s.memory, t, root, va, data, 0, s'.memory, r))
  {
    hide Walk, Footprint, WriteSafe, CacheStaysRight, WriteDirect, WriteFromStep, WriteOutcome, TranslateStep;
    if s.memory.canWrite { WriteFromKeepsCapacity(s, t, root, va, data, 0); }
    CacheStaysRightIf(s, t, root, va, data);
    if s.memory.canWrite && CacheStaysRight(s, t, root, va, data) {
      WriteFromTransparent(s, t, root, va, data);
      if WriteSafe(s.memory, t, root, va, |data|) && s.memory.canRead {
        WriteDirectMeaning(s.memory, s.memory, t, root, va, data, 0);
      }
    }
  }

  lemma {:induction false} WriteFromKeepsCapacity(
    s: State, t: Translator, root: u64, va: u64, data: seq<byte>, completed: nat)
    requires Accepted(t)
    ensures WriteFromStep(s, t, root, va, data, completed).0.cache.capacity == s.cache.capacity
    decreases |data| - completed
  {
    hide Walk, Write, TranslateStep;
    if completed < |data| && va + completed < U64_LIMIT {
      var n := ChunkLength(va + completed, |data| - completed);
      TranslateKeepsCapacity(s, t, root, va + completed);
      var (s1, tr) := TranslateStep(s, t, root, va + completed);
      if tr.Ok? {
        var (m1, r1) := Write(s1.memory, tr.value.physicalAddress, data[completed..completed + n]);
        if r1.Ok? { WriteFromKeepsCapacity(s1.(memory := m1), t, root, va, data, completed + n); }
      }
    }
  }

  lemma TranslateKeepsCapacity(s: State, t: Translator, root: u64, va: u64)
    requires Accepted(t)
    ensures TranslateStep(s, t, root, va).0.cache.capacity == s.cache.capacity
  {
    hide Walk;
  }

  // ---------- reading back ----------

  lemma {:induction false} LastStoredExists(m: Memory, t: Translator, root: u64, y: nat, hi: nat) returns (z: nat)
    requires Accepted(t) && Mapped(m, t, root, y) && y < hi
    ensures y <= z < hi && Mapped(m, t, root, z) && Target(m, t, root, z) == Target(m, t, root, y)
    ensures LastStored(m, t, root, z, hi)
    decreases hi - y
  {
    hide Walk, Target;
    if x :| y < x < hi && Mapped(m, t, root, x) && Target(m, t, root, x) == Target(m, t, root, y) {
      z := LastStoredExists(m, t, root, x, hi);
    } else {
      z := y;
    }
  }

  /** Addresses of the range that share a target carry the same byte; in
      particular when the pages lie in pairwise distinct frames. */
  ghost predicate AliasesAgree(m: Memory, t: Translator, root: u64, va: u64, data: seq<byte>)
    requires Accepted(t)
  {
    forall y, z | va <= y < z < va + |data| && Mapped(m, t, root, y) && Mapped(m, t, root, z)
      && Target(m, t, root, y) == Target(m, t, root, z) :: data[y - va] == data[z - va]
  }

  ghost predicate FaultFree(m: Memory, t: Translator, root: u64, lo: nat, hi: nat)
    requires Accepted(t)
  {
    forall y | lo <= y < hi && Mapped(m, t, root, y) :: Target(m, t, root, y) !in m.readFaults
  }

  /** One byte of a range that was written successfully, in the memory after. */
  lemma ByteAfterWrite(m: Memory, m': Memory, t: Translator, root: u64, va: u64, data: seq<byte>, y: nat)
    requires Accepted(t) && WriteSafe(m, t, root, va, |data|) && va <= y < va + |data|
    requires WriteOutcome(m, m, t, root, va, data, 0, m', Ok(()))
    ensures Mapped(m, t, root, y) && Mapped(m', t, root, y)
    ensures Target(m', t, root, y) == Target(m, t, root, y)
    ensures VirtualReadable(m', t, root, y) <==> Target(m, t, root, y) !in m.readFaults
    ensures AliasesAgree(m, t, root, va, data) ==> HoldsByte(m', Target(m, t, root, y), data[y - va])
  {
    hide Walk, Footprint, WriteSafe, Target, Targets;
    assert VirtualWritable(m, t, root, y);
    WalksUndisturbed(m, m', t, root, va, |data|, y);
    assert Target(m', t, root, y) == Target(m, t, root, y) by { SameWalkSameTarget(m, m', t, root, y); }
    if AliasesAgree(m, t, root, va, data) {
      var z := LastStoredExists(m, t, root, y, va + |data|);
    }
  }

  lemma SameWalkSameTarget(m: Memory, m': Memory, t: Translator, root: u64, y: u64)
    requires Accepted(t) && Mapped(m, t, root, y) && Walk(t, m', root, y) == Walk(t, m, root, y)
    ensures Mapped(m', t, root, y) && Target(m', t, root, y) == Target(m, t, root, y)
  {
  }

  /** After a successful safe write, reading the same range returns the data
      exactly when aliased bytes agree and no read fault is injected there. */
  lemma ReadAfterWriteVirtual(m: Memory, m': Memory, t: Translator, root: u64, va: u64, data: seq<byte>)
    requires Accepted(t) && m.canRead && WriteSafe(m, t, root, va, |data|)
    requires WriteOutcome(m, m, t, root, va, data, 0, m', Ok(()))
    ensures ReadDirect(m', t, root, va, |data|, []) == Ok(data) <==>
      AliasesAgree(m, t, root, va, data) && FaultFree(m, t, root, va, va + |data|)
  {
    hide *;
    var r, end := ReadDirect(m', t, root, va, |data|, []), va + |data|;
    if r == Ok(data) { ReadBackImplies(m, m', t, root, va, data); }
    if AliasesAgree(m, t, root, va, data) && FaultFree(m, t, root, va, end) { ReadBackFollows(m, m', t, root, va, data); }
  }

  /** A session: after a safe `write_virtual` that returns Ok, `read_virtual` of the
      same range returns the data exactly when aliased bytes agree and no read fault
      is injected there. */
  lemma WriteThenRead(s: State, t: Translator, root: u64, va: u64, data: seq<byte>)
    requires Coherent(s) && Accepted(t) && s.memory.canRead && WriteSafe(s.memory, t, root, va, |data|)
    requires WriteVirtualStep(s, t, root, va, data).1.Ok?
    ensures ReadVirtualStep(WriteVirtualStep(s, t, root, va, data).0, t, root, va, |data|).1 == Ok(data) <==>
      AliasesAgree(s.memory, t, root, va, data) && FaultFree(s.memory, t, root, va, va + |data|)
  {
    hide Walk, Footprint, WriteSafe, WriteOutcome, WriteDirect, WriteFromStep, ReadFrom, ReadDirect, AliasesAgree, FaultFree;
    var (s', r) := WriteVirtualStep(s, t, root, va, data);
    assert r == Ok(r.value) && r.value == ();
    WriteVirtualExact(s, t, root, va, data);
    assert s'.memory.canRead by { OutcomeKeepsReads(s.memory, s'.memory, t, root, va, data, r); }
    EmptyIsCoherent(s.cache, s'.memory);
    ReadTransparent(s', t, root, va, |data|, []);
    ReadAfterWriteVirtual(s.memory, s'.memory, t, root, va, data);
  }

  lemma OutcomeKeepsReads(
    m: Memory, m': Memory, t: Translator, root: u64, va: u64, data: seq<byte>, r: Result<()>)
    requires Accepted(t) && WriteOutcome(m, m, t, root, va, data, 0, m', r)
    ensures m'.canRead == m.canRead
  {
    hide Walk, Targets, LastStored, HoldsByte;
  }

  lemma ReadBackImplies(m: Memory, m': Memory, t: Translator, root: u64, va: u64, data: seq<byte>)
    requires Accepted(t) && m.canRead && WriteSafe(m, t, root, va, |data|)
    requires WriteOutcome(m, m, t, root, va, data, 0, m', Ok(()))
    requires ReadDirect(m', t, root, va, |data|, []) == Ok(data)
    ensures AliasesAgree(m, t, root, va, data) && FaultFree(m, t, root, va, va + |data|)
  {
    hide Walk, Footprint, WriteSafe, Target, Targets, ReadDirect, VirtualReadable;
    ReadDirectMeaning(m', t, root, va, |data|, []);
    forall y | va <= y < va + |data|
      ensures Mapped(m, t, root, y) && Target(m, t, root, y) !in m.readFaults
      ensures Target(m, t, root, y) in m'.bytes && data[y - va] == m'.bytes[Target(m, t, root, y)]
    {
      ByteAfterWrite(m, m', t, root, va, data, y);
      assert VirtualReadable(m', t, root, y);
      ReadableInBytes(m', t, root, y);
      assert data[y - va] == VirtualByte(m', t, root, y);
    }
  }

  lemma ReadableInBytes(m: Memory, t: Translator, root: u64, y: nat)
    requires Accepted(t) && VirtualReadable(m, t, root, y)
    ensures Target(m, t, root, y) in m.bytes
  {
  }

  lemma ReadBackFollows(m: Memory, m': Memory, t: Translator, root: u64, va: u64, data: seq<byte>)
    requires Accepted(t) && m.canRead && WriteSafe(m, t, root, va, |data|)
    requires WriteOutcome(m, m, t, root, va, data, 0, m', Ok(()))
    requires AliasesAgree(m, t, root, va, data) && FaultFree(m, t, root, va, va + |data|)
    ensures ReadDirect(m', t, root, va, |data|, []) == Ok(data)
  {
    hide Walk, Footprint, WriteSafe, Target, Targets, ReadDirect, AliasesAgree;
    ReadDirectMeaning(m', t, root, va, |data|, []);
    forall y | va <= y < va + |data|
      ensures VirtualReadable(m', t, root, y) && VirtualByte(m', t, root, y) == data[y - va]
    {
      ByteAfterWrite(m, m', t, root, va, data, y);
    }
    var b := ReadDirect(m', t, root, va, |data|, []).value;
    forall i | 0 <= i < |data| ensures b[i] == data[i] {
      assert VirtualByte(m', t, root, va + i) == b[va + i - va];
    }
    assert b == data;
  }
}
