/** One session used from several threads.  `translate` releases the lock of the
    cache between its lookup and its insertion, and a write clears the cache only
    after it has changed memory.

    One step is one atomic action: a lookup, a page walk, an insertion, a write to
    memory, or a clearing. */
module CacheRaces {
  import opened Words
  import opened VmiTypes
  import opened PhysicalMemory
  import opened PageWalk
  import opened Translators
  import opened SessionModel
  import StaleWrite

  /** What a thread is about: nothing; a walk, having missed; or the insertion of what
      it walked, with a record of whether the cache was cleared meanwhile.  `wrote`
      says that it has changed memory and has yet to clear the cache, be it between
      two translations of the same virtual write. */
  datatype Thread =
    | Idle(wrote: bool)
    | Missed(t: Translator, root: u64, page: u64, wrote: bool)
    | Walked(t: Translator, root: u64, page: u64, translation: Translation, overtaken: bool, wrote: bool)

  datatype World = World(state: State, threads: seq<Thread>)

  datatype Action =
    | Lookup(who: nat, t: Translator, root: u64, va: u64)
    | WalkTables(who: nat)
    | InsertEntry(who: nat)
    | WriteMemory(who: nat, a: u64, data: seq<byte>)
    | ClearCache(who: nat)

  predicate WellFormed(a: Action) { a.Lookup? ==> Accepted(a.t) }

  predicate ThreadsOk(w: World) {
    forall i | 0 <= i < |w.threads| && (w.threads[i].Missed? || w.threads[i].Walked?) :: Accepted(w.threads[i].t)
  }

  function Overtaken(th: Thread): Thread {
    if th.Walked? then th.(overtaken := true) else th
  }

  function AllOvertaken(threads: seq<Thread>): (r: seq<Thread>)
    ensures |r| == |threads| && forall i | 0 <= i < |r| :: r[i] == Overtaken(threads[i])
  {
    seq(|threads|, i requires 0 <= i < |threads| => Overtaken(threads[i]))
  }

  /** An action a thread is not ready for changes nothing. */
  ghost function Step(w: World, a: Action): (v: World)
    requires WellFormed(a) && ThreadsOk(w)
    ensures ThreadsOk(v) && |v.threads| == |w.threads|
  {
    hide Walk;
    if a.who >= |w.threads| then w
    else
      var th := w.threads[a.who];
      match a
      case Lookup(i, t, root, va) =>
        if !th.Idle? || Key(CacheTag(t), root, PageOf(va)) in w.state.cache.entries then w
        else w.(threads := w.threads[i := Missed(t, root, PageOf(va), th.wrote)])
      case WalkTables(i) =>
        if !th.Missed? then w
        else
          var r := if w.state.memory.canRead then Walk(th.t, w.state.memory, th.root, th.page) else Err(CapabilityMissing);
          w.(threads := w.threads[i :=
            if r.Ok? then Walked(th.t, th.root, th.page, r.value, false, th.wrote) else Idle(th.wrote)])
      case InsertEntry(i) =>
        if !th.Walked? then w
        else
          var cache := Insert(w.state.cache, Key(CacheTag(th.t), th.root, th.page), th.translation);
          World(w.state.(cache := cache), w.threads[i := Idle(th.wrote)])
      case WriteMemory(i, address, data) =>
        if !w.state.memory.canWrite || !th.Idle? then w
        else World(w.state.(memory := Write(w.state.memory, address, data).0), w.threads[i := Idle(true)])
      case ClearCache(i) =>
        if !th.Idle? then w
        else World(w.state.(cache := Cleared(w.state.cache)), AllOvertaken(w.threads)[i := Idle(false)])
  }

  // ---------- coherence between writes ----------

  /** No write is between its change of memory and its clearing. */
  predicate Quiet(w: World) {
    forall i | 0 <= i < |w.threads| :: !w.threads[i].wrote
  }

  /** The insertion that is next, if one is, is of what memory gives now, or will be
      cleared away. */
  ghost predicate InsertsWell(w: World, a: Action)
    requires ThreadsOk(w)
  {
    a.InsertEntry? && a.who < |w.threads| && w.threads[a.who].Walked? && Quiet(w) ==>
      var th := w.threads[a.who];
      Walk(th.t, w.state.memory, th.root, th.page) == Ok(th.translation)
  }

  ghost predicate Settled(w: World) {
    && FifoCache(w.state.cache)
    && (Quiet(w) ==> Coherent(w.state))
    && (forall i | 0 <= i < |w.threads| && w.threads[i].Walked? :: w.state.memory.canRead)
  }

  lemma StaysQuiet(w: World, a: Action)
    requires WellFormed(a) && ThreadsOk(w)
    ensures !a.ClearCache? && Quiet(Step(w, a)) ==> Quiet(w)
  {
    hide Walk, Insert, Write;
    var v := Step(w, a);
    if !a.ClearCache? && Quiet(v) {
      forall i | 0 <= i < |w.threads| ensures !w.threads[i].wrote {
        assert !v.threads[i].wrote;
      }
    }
  }

  lemma MemoryAfter(w: World, a: Action)
    requires WellFormed(a) && ThreadsOk(w)
    ensures Step(w, a).state.memory.canRead == w.state.memory.canRead
    ensures Quiet(Step(w, a)) ==> Step(w, a).state.memory == w.state.memory
  {
    hide Walk, Insert, WriteFrom;
    if a.WriteMemory? && a.who < |w.threads| {
      WriteEffect(w.state.memory, a.a, a.data, 0);
      var v := Step(w, a);
      if v.state.memory != w.state.memory { assert v.threads[a.who].wrote; }
    }
  }

  /** An insertion keeps the cache coherent exactly when it inserts well. */
  lemma InsertDecides(w: World, a: Action)
    requires ThreadsOk(w) && Settled(w) && Quiet(w)
    requires a.InsertEntry? && a.who < |w.threads| && w.threads[a.who].Walked?
    ensures Quiet(Step(w, a)) && FifoCache(Step(w, a).state.cache)
    ensures Coherent(Step(w, a).state) <==> InsertsWell(w, a)
  {
    hide Walk, Insert;
    var th, v := w.threads[a.who], Step(w, a);
    var key := Key(CacheTag(th.t), th.root, th.page);
    InsertKeepsFifo(w.state.cache, key, th.translation);
    if InsertsWell(w, a) { InsertCoherent(w.state, th.t, th.root, th.page, th.translation); }
    if Coherent(v.state) { assert v.state.cache.entries[key] == th.translation; }
  }

  lemma StepSettled(w: World, a: Action)
    requires WellFormed(a) && ThreadsOk(w) && Settled(w) && InsertsWell(w, a)
    ensures Settled(Step(w, a))
  {
    hide Walk, Insert, Write, InsertsWell, Coherent;
    var v := Step(w, a);
    MemoryAfter(w, a);
    StaysQuiet(w, a);
    if a.who < |w.threads| {
      var th := w.threads[a.who];
      if a.ClearCache? && th.Idle? {
        EmptyIsCoherent(w.state.cache, w.state.memory);
      } else if a.InsertEntry? && th.Walked? {
        if Quiet(w) { InsertDecides(w, a); } else {
          InsertKeepsFifo(w.state.cache, Key(CacheTag(th.t), th.root, th.page), th.translation);
        }
      }
    }
  }

  /** At every quiet moment of the run the cache is coherent. */
  ghost predicate CoherentWhenQuiet(w: World, actions: seq<Action>)
    requires ThreadsOk(w) && forall a | a in actions :: WellFormed(a)
    decreases |actions|
  {
    && (Quiet(w) ==> Coherent(w.state))
    && (actions != [] ==> WellFormed(actions[0]) && CoherentWhenQuiet(Step(w, actions[0]), actions[1..]))
  }

  /** Every insertion of the run inserts well. */
  ghost predicate AllInsertWell(w: World, actions: seq<Action>)
    requires ThreadsOk(w) && forall a | a in actions :: WellFormed(a)
    decreases |actions|
  {
    actions != [] ==>
      WellFormed(actions[0]) && InsertsWell(w, actions[0]) && AllInsertWell(Step(w, actions[0]), actions[1..])
  }

  /** Which interleavings keep the cache coherent: exactly those in which nobody
      inserts, at a quiet moment, a translation that memory no longer gives. */
  lemma {:induction false} CoherentExactly(w: World, actions: seq<Action>)
    requires ThreadsOk(w) && Settled(w) && forall a | a in actions :: WellFormed(a)
    ensures CoherentWhenQuiet(w, actions) <==> AllInsertWell(w, actions)
    decreases |actions|
  {
    hide Step, Coherent, InsertsWell, FifoCache, Quiet;
    if actions != [] {
      var a := actions[0];
      if InsertsWell(w, a) {
        StepSettled(w, a);
        CoherentExactly(Step(w, a), actions[1..]);
      } else {
        NotWell(w, a);
        InsertDecides(w, a);
      }
    }
  }

  lemma NotWell(w: World, a: Action)
    requires ThreadsOk(w) && !InsertsWell(w, a)
    ensures a.InsertEntry? && a.who < |w.threads| && w.threads[a.who].Walked? && Quiet(w)
  {
  }

  // ---------- a condition on the order of actions alone ----------

  /** No clearing comes between a walk and the insertion of its result. */
  ghost predicate NoneOvertaken(w: World, actions: seq<Action>)
    requires ThreadsOk(w) && forall a | a in actions :: WellFormed(a)
    decreases |actions|
  {
    actions != [] ==>
      var a := actions[0];
      && WellFormed(a)
      && (a.InsertEntry? && a.who < |w.threads| && w.threads[a.who].Walked? ==> !w.threads[a.who].overtaken)
      && NoneOvertaken(Step(w, a), actions[1..])
  }

  /** A result that was not overtaken is current, unless a write has yet to clear. */
  ghost predicate Current(w: World)
    requires ThreadsOk(w)
  {
    Quiet(w) ==> forall i | 0 <= i < |w.threads| && w.threads[i].Walked? && !w.threads[i].overtaken ::
      Walk(w.threads[i].t, w.state.memory, w.threads[i].root, w.threads[i].page) == Ok(w.threads[i].translation)
  }

  lemma StepCurrent(w: World, a: Action)
    requires WellFormed(a) && ThreadsOk(w) && Current(w)
    ensures Current(Step(w, a))
  {
    hide Walk, Insert, Write;
    MemoryAfter(w, a);
    StaysQuiet(w, a);
    var v := Step(w, a);
    if Quiet(v) && !a.ClearCache? {
      forall i | 0 <= i < |v.threads| && v.threads[i].Walked? && !v.threads[i].overtaken
        ensures Walk(v.threads[i].t, v.state.memory, v.threads[i].root, v.threads[i].page) == Ok(v.threads[i].translation)
      {
        if w.threads[i].Walked? { assert v.threads[i] == w.threads[i]; }
      }
    } else if Quiet(v) && !Quiet(w) {
      assert a.who < |w.threads| && w.threads[a.who].Idle?;
    }
  }

  /** When no clearing overtakes a translation the cache is coherent at every quiet
      moment. */
  lemma {:induction false} NotOvertakenIsCoherent(w: World, actions: seq<Action>)
    requires ThreadsOk(w) && Settled(w) && Current(w) && forall a | a in actions :: WellFormed(a)
    requires NoneOvertaken(w, actions)
    ensures CoherentWhenQuiet(w, actions)
    decreases |actions|
  {
    hide Step, Coherent, FifoCache, Walk;
    if actions != [] {
      StepCurrent(w, actions[0]);
      StepSettled(w, actions[0]);
      NotOvertakenIsCoherent(Step(w, actions[0]), actions[1..]);
    }
  }

  // ---------- the schedule that leaves a stale entry ----------

  /** One thread has walked page 511 and not yet inserted; the other rewrites the
      entry of that page and clears. */
  ghost function Racing(m: Memory, first: Thread, second: Thread): World {
    World(State(Cache(CACHE_CAPACITY, map[], []), m), [first, second])
  }

  lemma StaleEntryStays()
    ensures var w := Racing(StaleWrite.Table(0x10, 0, 0), Idle(false), Idle(false));
      var actions := [
        Lookup(0, StaleWrite.T, 0, StaleWrite.PAGE_511), WalkTables(0), WriteMemory(1, 0xff8, StaleWrite.DATA[..8]),
        ClearCache(1), InsertEntry(0)];
      && ThreadsOk(w) && Settled(w) && (forall a | a in actions :: WellFormed(a))
      && !CoherentWhenQuiet(w, actions)
  {
    hide Walk, StaleWrite.Table, Write, Coherent;
    var T, page, data := StaleWrite.T, StaleWrite.PAGE_511, StaleWrite.DATA[..8];
    var m, m' := StaleWrite.Table(0x10, 0, 0), StaleWrite.Table(0x20, 0, 0);
    var rest := Idle(false);
    var th := Walked(T, 0, page, Translation(0x1000, 0x1000), false, false);
    var w0, w1, w2 := Racing(m, rest, rest), Racing(m, Missed(T, 0, page, false), rest), Racing(m, th, rest);
    var w3, w4 := Racing(m', th, Idle(true)), Racing(m', Overtaken(th), rest);
    StaleWrite.PageWalks(0x10, 0, 0);
    StaleWrite.PageWalks(0x20, 0, 0);
    StaleWrite.RewriteEntry();
    StaleWrite.TableCanRead(0x10, 0, 0);
    TableCanWrite(0x10);
    EmptyIsCoherent(w0.state.cache, m);
    var a0, a1, a2, a3, a4 := Lookup(0, T, 0, page), WalkTables(0), WriteMemory(1, 0xff8, data), ClearCache(1), InsertEntry(0);
    var actions := [a0, a1, a2, a3, a4];
    assert Step(w0, a0) == w1;
    assert Step(w1, a1) == w2;
    assert Step(w2, a2) == w3;
    assert Step(w3, a3) == w4;
    assert !InsertsWell(w4, a4);
    CoherentExactly(w0, actions);
    assert actions[1..] == [a1, a2, a3, a4] && actions[1..][1..] == [a2, a3, a4];
    assert [a2, a3, a4][1..] == [a3, a4] && [a3, a4][1..] == [a4];
    assert !AllInsertWell(w4, [a4]);
    assert !AllInsertWell(w3, [a3, a4]);
    assert !AllInsertWell(w2, [a2, a3, a4]);
    assert !AllInsertWell(w1, [a1, a2, a3, a4]);
  }

  lemma TableCanWrite(b: byte)
    ensures StaleWrite.Table(b, 0, 0).canWrite
  {
  }
}
