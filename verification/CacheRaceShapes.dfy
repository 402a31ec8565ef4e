/** Which orders of actions are safe whatever memory holds and whatever is written.
    A shape is an order of misses, walks, insertions, writes and clearings, each of
    which takes effect; hits and failed walks leave the cache alone and no trace. */
module CacheRaceShapes {
  import opened Words
  import opened VmiTypes
  import opened PhysicalMemory
  import opened PageWalk
  import opened Translators
  import opened SessionModel
  import opened CacheRaces
  import StaleWrite

  datatype Event = Misses(who: nat) | Walks(who: nat) | Inserts(who: nat) | Writes(who: nat) | Clears(who: nat)

  /** Where a thread is in its protocol; `dirty` says that memory was written since
      its walk. */
  datatype Stage = AtRest | HasMissed | HasWalked(dirty: bool)

  datatype Actor = Actor(stage: Stage, wrote: bool)

  function Dirtied(a: Actor): Actor {
    if a.stage.HasWalked? then a.(stage := HasWalked(true)) else a
  }

  function AllDirtied(actors: seq<Actor>): (r: seq<Actor>)
    ensures |r| == |actors| && forall i | 0 <= i < |r| :: r[i] == Dirtied(actors[i])
  {
    seq(|actors|, i requires 0 <= i < |actors| => Dirtied(actors[i]))
  }

  predicate Allowed(actors: seq<Actor>, e: Event) {
    e.who < |actors| &&
    match e
    case Walks(i) => actors[i].stage.HasMissed?
    case Inserts(i) => actors[i].stage.HasWalked?
    case _ => actors[e.who].stage.AtRest?
  }

  function After(actors: seq<Actor>, e: Event): (r: seq<Actor>)
    requires Allowed(actors, e)
    ensures |r| == |actors|
  {
    var wrote := actors[e.who].wrote;
    match e
    case Misses(i) => actors[i := Actor(HasMissed, wrote)]
    case Walks(i) => actors[i := Actor(HasWalked(false), wrote)]
    case Inserts(i) => actors[i := Actor(AtRest, wrote)]
    case Writes(i) => AllDirtied(actors)[i := Actor(AtRest, true)]
    case Clears(i) => actors[i := Actor(AtRest, false)]
  }

  /** The threads can do this. */
  predicate Shaped(actors: seq<Actor>, shape: seq<Event>)
    decreases |shape|
  {
    shape != [] ==> Allowed(actors, shape[0]) && Shaped(After(actors, shape[0]), shape[1..])
  }

  /** No write is between its change of memory and its clearing. */
  predicate AtPeace(actors: seq<Actor>) {
    forall i | 0 <= i < |actors| :: !actors[i].wrote
  }

  /** No interval from a walk to the insertion of its result that ends at a quiet
      moment contains a write, which must then be complete. */
  predicate SafeShape(actors: seq<Actor>, shape: seq<Event>)
    requires Shaped(actors, shape)
    decreases |shape|
  {
    shape != [] ==>
      && (shape[0].Inserts? && AtPeace(actors) ==> !actors[shape[0].who].stage.dirty)
      && SafeShape(After(actors, shape[0]), shape[1..])
  }

  // ---------- runs of a shape ----------

  /** The action is this event, and takes effect. */
  ghost predicate Takes(w: World, a: Action, e: Event)
    requires ThreadsOk(w)
  {
    a.who == e.who && e.who < |w.threads| &&
    var th := w.threads[e.who];
    match e
    case Misses(_) =>
      a.Lookup? && Accepted(a.t) && th.Idle? && Key(CacheTag(a.t), a.root, PageOf(a.va)) !in w.state.cache.entries
    case Walks(_) =>
      a.WalkTables? && th.Missed? && w.state.memory.canRead && Walk(th.t, w.state.memory, th.root, th.page).Ok?
    case Inserts(_) => a.InsertEntry? && th.Walked?
    case Writes(_) => a.WriteMemory? && w.state.memory.canWrite && th.Idle?
    case Clears(_) => a.ClearCache? && th.Idle?
  }

  ghost predicate Follows(w: World, actions: seq<Action>, shape: seq<Event>)
    requires ThreadsOk(w) && forall a | a in actions :: WellFormed(a)
    decreases |actions|
  {
    |actions| == |shape| &&
    (actions != [] ==>
      && WellFormed(actions[0]) && Takes(w, actions[0], shape[0])
      && Follows(Step(w, actions[0]), actions[1..], shape[1..]))
  }

  /** `n` threads at rest, a coherent cache, any memory. */
  ghost predicate Starts(w: World, n: nat) {
    |w.threads| == n && Coherent(w.state) && forall i | 0 <= i < n :: w.threads[i] == Idle(false)
  }

  function Resting(n: nat): (r: seq<Actor>)
    ensures |r| == n && forall i | 0 <= i < n :: r[i] == Actor(AtRest, false)
  {
    seq(n, _ => Actor(AtRest, false))
  }

  predicate Alike(th: Thread, a: Actor) {
    && th.wrote == a.wrote
    && match a.stage
       case AtRest => th.Idle?
       case HasMissed => th.Missed?
       case HasWalked(_) => th.Walked?
  }

  predicate AllAlike(w: World, actors: seq<Actor>) {
    |w.threads| == |actors| && forall i | 0 <= i < |actors| :: Alike(w.threads[i], actors[i])
  }

  lemma StepAlike(w: World, actors: seq<Actor>, a: Action, e: Event)
    requires ThreadsOk(w) && WellFormed(a) && AllAlike(w, actors) && Takes(w, a, e)
    ensures Allowed(actors, e) && AllAlike(Step(w, a), After(actors, e))
  {
    hide Walk, Insert, Write;
    assert Alike(w.threads[e.who], actors[e.who]);
  }

  // ---------- a safe shape is safe ----------

  /** What was walked and is not dirty is what memory gives now. */
  ghost predicate CleanIsCurrent(w: World, actors: seq<Actor>)
    requires ThreadsOk(w) && AllAlike(w, actors)
  {
    forall i | 0 <= i < |actors| && actors[i].stage.HasWalked? && !actors[i].stage.dirty ::
      Walk(w.threads[i].t, w.state.memory, w.threads[i].root, w.threads[i].page) == Ok(w.threads[i].translation)
  }

  lemma StepCurrent(w: World, actors: seq<Actor>, a: Action, e: Event)
    requires ThreadsOk(w) && WellFormed(a) && AllAlike(w, actors) && CleanIsCurrent(w, actors) && Takes(w, a, e)
    ensures Allowed(actors, e) && AllAlike(Step(w, a), After(actors, e)) && CleanIsCurrent(Step(w, a), After(actors, e))
  {
    hide Walk, Insert, Write;
    StepAlike(w, actors, a, e);
    var v, later := Step(w, a), After(actors, e);
    forall i | 0 <= i < |later| && later[i].stage.HasWalked? && !later[i].stage.dirty
      ensures Walk(v.threads[i].t, v.state.memory, v.threads[i].root, v.threads[i].page) == Ok(v.threads[i].translation)
    {
      if i != e.who { assert Alike(w.threads[i], actors[i]); }
    }
  }

  lemma {:induction false} SafeShapeInsertsWell(w: World, actors: seq<Actor>, actions: seq<Action>, shape: seq<Event>)
    requires ThreadsOk(w) && (forall a | a in actions :: WellFormed(a)) && AllAlike(w, actors) && CleanIsCurrent(w, actors)
    requires Shaped(actors, shape) && SafeShape(actors, shape) && Follows(w, actions, shape)
    ensures AllInsertWell(w, actions)
    decreases |actions|
  {
    hide Walk, Step, CleanIsCurrent;
    if actions != [] {
      var a, e := actions[0], shape[0];
      SafeInsert(w, actors, a, e);
      StepCurrent(w, actors, a, e);
      SafeShapeInsertsWell(Step(w, a), After(actors, e), actions[1..], shape[1..]);
    }
  }

  lemma SafeInsert(w: World, actors: seq<Actor>, a: Action, e: Event)
    requires ThreadsOk(w) && AllAlike(w, actors) && CleanIsCurrent(w, actors) && Takes(w, a, e) && Allowed(actors, e)
    requires e.Inserts? && AtPeace(actors) ==> !actors[e.who].stage.dirty
    ensures InsertsWell(w, a)
  {
    hide Walk;
    assert Alike(w.threads[e.who], actors[e.who]);
    QuietIsPeace(w, actors);
  }

  lemma QuietIsPeace(w: World, actors: seq<Actor>)
    requires AllAlike(w, actors)
    ensures Quiet(w) <==> AtPeace(actors)
  {
    if Quiet(w) {
      forall i | 0 <= i < |actors| ensures !actors[i].wrote { assert Alike(w.threads[i], actors[i]); }
    }
    if AtPeace(actors) {
      forall i | 0 <= i < |w.threads| ensures !w.threads[i].wrote { assert Alike(w.threads[i], actors[i]); }
    }
  }

  // ---------- an unsafe one is not: the instance ----------

  /** Roots that name the table at address 0: they differ in bits that no walk reads. */
  predicate NamesTable(root: u64) { root % 0x1_0000_0000_0000 == 0 }

  lemma SameTable(root: u64, b: byte)
    requires NamesTable(root) && (b == 0x10 || b == 0x20)
    ensures Walk(StaleWrite.T, StaleWrite.Table(b, 0, 0), root, StaleWrite.PAGE_511) == Ok(Translation(0x100 * b, 0x1000))
  {
    hide StaleWrite.Table, WalkFrom, Low, Canonical;
    StaleWrite.PageWalks(b, 0, 0);
    var n, k := 48, 12;
    Pow2Value(n);
    Pow2Value(k);
    ShiftIsDivision(root, n);
    ShiftIsDivision(root, k);
    ShiftIsDivision(0, n);
    ShiftIsDivision(0, k);
    assert Frame(StaleWrite.T, root, k) == 0 == Frame(StaleWrite.T, 0, k);
  }

  function OurKey(h: nat): Key
    requires h < 0x1_0000
  {
    Key(CacheTag(StaleWrite.T), h * 0x1_0000_0000_0000, StaleWrite.PAGE_511)
  }

  lemma {:induction false} ManyCached(entries: map<Key, Translation>, k: nat)
    requires k <= 0x1_0000 && forall h: nat | h < k :: OurKey(h) in entries
    ensures |entries| >= k
  {
    if k > 0 {
      var key := OurKey(k - 1);
      RemoveOne(entries, key);
      forall h: nat | h < k - 1 ensures OurKey(h) in entries - {key} { assert OurKey(h) != key; }
      ManyCached(entries - {key}, k - 1);
    }
  }

  lemma FreshRoot(c: Cache) returns (root: u64)
    requires FifoCache(c) && c.capacity == CACHE_CAPACITY
    ensures NamesTable(root) && Key(CacheTag(StaleWrite.T), root, StaleWrite.PAGE_511) !in c.entries
  {
    if forall h: nat | h < CACHE_CAPACITY + 1 :: OurKey(h) in c.entries {
      ManyCached(c.entries, CACHE_CAPACITY + 1);
      assert false;
    }
    var h: nat :| h < CACHE_CAPACITY + 1 && OurKey(h) !in c.entries;
    root := h * 0x1_0000_0000_0000;
  }

  /** The table of StaleWrite, whose entry 511 is still the old one if `b` is 0x10;
      every thread is about page 511, and has walked the old entry if it is. */
  ghost predicate Ours(w: World, b: byte) {
    && ThreadsOk(w) && (b == 0x10 || b == 0x20) && w.state.memory == StaleWrite.Table(b, 0, 0)
    && FifoCache(w.state.cache) && w.state.cache.capacity == CACHE_CAPACITY
    && forall i | 0 <= i < |w.threads| && !w.threads[i].Idle? :: OurThread(w.threads[i], b)
  }

  predicate OurThread(th: Thread, b: byte)
    requires !th.Idle?
  {
    && th.t == StaleWrite.T && NamesTable(th.root) && th.page == StaleWrite.PAGE_511
    && (th.Walked? && b == 0x10 ==> th.translation == Translation(0x1000, 0x1000))
  }

  /** A thread that is about to insert what the old entry gave. */
  predicate HasOld(w: World, p: nat) {
    p < |w.threads| && w.threads[p].Walked? && w.threads[p].translation == Translation(0x1000, 0x1000)
  }

  /** The action is this event and keeps the instance; `after` tells the entry then. */
  ghost predicate Serves(w: World, a: Action, e: Event, after: byte) {
    && ThreadsOk(w) && WellFormed(a) && Takes(w, a, e) && Ours(Step(w, a), after)
    && forall p | p != e.who && HasOld(w, p) :: HasOld(Step(w, a), p)
  }

  /** An action for an event; a write rewrites the entry or writes nothing. */
  lemma ActionFor(w: World, actors: seq<Actor>, e: Event, b: byte, rewrites: bool) returns (a: Action)
    requires Ours(w, b) && AllAlike(w, actors) && Allowed(actors, e)
    requires rewrites ==> e.Writes? && b == 0x10
    ensures Serves(w, a, e, if rewrites then 0x20 else b)
  {
    hide Ours, Serves;
    if e.Misses? { a := MissFor(w, actors, e, b); }
    else if e.Walks? { a := WalkFor(w, actors, e, b); }
    else if e.Inserts? { a := InsertFor(w, actors, e, b); }
    else if e.Writes? { a := WriteFor(w, actors, e, b, rewrites); }
    else { a := ClearFor(w, actors, e, b); }
  }

  lemma MissFor(w: World, actors: seq<Actor>, e: Event, b: byte) returns (a: Action)
    requires Ours(w, b) && AllAlike(w, actors) && Allowed(actors, e) && e.Misses?
    ensures Serves(w, a, e, b)
  {
    hide Walk, Insert, Write, StaleWrite.Table, FifoCache;
    assert Alike(w.threads[e.who], actors[e.who]);
    var root := FreshRoot(w.state.cache);
    a := Lookup(e.who, StaleWrite.T, root, StaleWrite.PAGE_511);
  }

  lemma WalkFor(w: World, actors: seq<Actor>, e: Event, b: byte) returns (a: Action)
    requires Ours(w, b) && AllAlike(w, actors) && Allowed(actors, e) && e.Walks?
    ensures Serves(w, a, e, b)
  {
    hide Walk, Insert, Write, StaleWrite.Table, FifoCache;
    assert Alike(w.threads[e.who], actors[e.who]);
    StaleWrite.TableCanRead(b, 0, 0);
    a := WalkTables(e.who);
    SameTable(w.threads[e.who].root, b);
  }

  lemma InsertFor(w: World, actors: seq<Actor>, e: Event, b: byte) returns (a: Action)
    requires Ours(w, b) && AllAlike(w, actors) && Allowed(actors, e) && e.Inserts?
    ensures Serves(w, a, e, b)
  {
    hide Walk, Insert, Write, StaleWrite.Table, FifoCache;
    assert Alike(w.threads[e.who], actors[e.who]);
    a := InsertEntry(e.who);
    var th := w.threads[e.who];
    InsertKeepsFifo(w.state.cache, Key(CacheTag(th.t), th.root, th.page), th.translation);
  }

  lemma WriteFor(w: World, actors: seq<Actor>, e: Event, b: byte, rewrites: bool) returns (a: Action)
    requires Ours(w, b) && AllAlike(w, actors) && Allowed(actors, e) && e.Writes?
    requires rewrites ==> b == 0x10
    ensures Serves(w, a, e, if rewrites then 0x20 else b)
  {
    hide Walk, Insert, Write, StaleWrite.Table, FifoCache;
    assert Alike(w.threads[e.who], actors[e.who]);
    TableCanWrite(b);
    a := WriteMemory(e.who, 0xff8, if rewrites then StaleWrite.DATA[..8] else []);
    if rewrites { StaleWrite.RewriteEntry(); } else { NothingWritten(w.state.memory, 0xff8); }
  }

  lemma ClearFor(w: World, actors: seq<Actor>, e: Event, b: byte) returns (a: Action)
    requires Ours(w, b) && AllAlike(w, actors) && Allowed(actors, e) && e.Clears?
    ensures Serves(w, a, e, b)
  {
    hide Walk, Insert, Write, StaleWrite.Table, Coherent;
    assert Alike(w.threads[e.who], actors[e.who]);
    a := ClearCache(e.who);
    EmptyIsCoherent(w.state.cache, w.state.memory);
  }

  lemma NothingWritten(m: Memory, a: nat)
    ensures Write(m, a, []).0 == m
  {
  }

  lemma {:induction false} BuildRest(w: World, actors: seq<Actor>, shape: seq<Event>, b: byte) returns (actions: seq<Action>)
    requires Ours(w, b) && AllAlike(w, actors) && Shaped(actors, shape)
    ensures (forall a | a in actions :: WellFormed(a)) && Follows(w, actions, shape)
    decreases |shape|
  {
    hide Step, Ours, Takes;
    assert ThreadsOk(w) by { OursIsOk(w, b); }
    actions := [];
    if shape != [] {
      var a := ActionFor(w, actors, shape[0], b, false);
      StepAlike(w, actors, a, shape[0]);
      var rest := BuildRest(Step(w, a), After(actors, shape[0]), shape[1..], b);
      actions := [a] + rest;
      assert actions[1..] == rest;
    }
  }

  lemma OursIsOk(w: World, b: byte)
    requires Ours(w, b)
    ensures ThreadsOk(w)
  {
  }

  /** The threads after the first `k` events. */
  function StateAt(actors: seq<Actor>, shape: seq<Event>, k: nat): (r: seq<Actor>)
    requires Shaped(actors, shape) && k <= |shape|
    ensures |r| == |actors|
    decreases k
  {
    if k == 0 then actors else StateAt(After(actors, shape[0]), shape[1..], k - 1)
  }

  lemma {:induction false} StateStep(actors: seq<Actor>, shape: seq<Event>, k: nat)
    requires Shaped(actors, shape) && k < |shape|
    ensures Allowed(StateAt(actors, shape, k), shape[k])
    ensures StateAt(actors, shape, k + 1) == After(StateAt(actors, shape, k), shape[k])
    decreases k
  {
    hide After, Allowed;
    if k > 0 { StateStep(After(actors, shape[0]), shape[1..], k - 1); }
  }

  /** After the real write: the thread with the old translation inserts it at event `e`. */
  lemma {:induction false} BuildAfter(w: World, actors: seq<Actor>, shape: seq<Event>, e: nat, p: nat)
    returns (actions: seq<Action>)
    requires Ours(w, 0x20) && AllAlike(w, actors) && Shaped(actors, shape) && HasOld(w, p)
    requires e < |shape| && shape[e] == Inserts(p) && AtPeace(StateAt(actors, shape, e))
    requires forall k | 0 <= k < e :: shape[k].who != p
    ensures forall a | a in actions :: WellFormed(a)
    ensures ThreadsOk(w) && Follows(w, actions, shape) && !AllInsertWell(w, actions)
    decreases |shape|
  {
    hide Step, Ours, Takes, AtPeace, InsertsWell;
    assert ThreadsOk(w) by { OursIsOk(w, 0x20); }
    var a := ActionFor(w, actors, shape[0], 0x20, false);
    StepAlike(w, actors, a, shape[0]);
    var rest: seq<Action>;
    if e == 0 {
      OldInsert(w, actors, a, p);
      rest := BuildRest(Step(w, a), After(actors, shape[0]), shape[1..], 0x20);
    } else {
      rest := BuildAfter(Step(w, a), After(actors, shape[0]), shape[1..], e - 1, p);
    }
    actions := [a] + rest;
    assert actions[1..] == rest;
  }

  lemma OldInsert(w: World, actors: seq<Actor>, a: Action, p: nat)
    requires Ours(w, 0x20) && AllAlike(w, actors) && HasOld(w, p) && AtPeace(actors) && Takes(w, a, Inserts(p))
    ensures !InsertsWell(w, a)
  {
    hide Walk, StaleWrite.Table;
    QuietIsPeace(w, actors);
    SameTable(w.threads[p].root, 0x20);
  }

  /** Before it: the write is event `c`, when the thread has walked the old entry. */
  lemma {:induction false} BuildBefore(w: World, actors: seq<Actor>, shape: seq<Event>, c: nat, e: nat, p: nat)
    returns (actions: seq<Action>)
    requires Ours(w, 0x10) && AllAlike(w, actors) && Shaped(actors, shape)
    requires c < e < |shape| && shape[c].Writes? && shape[e] == Inserts(p) && AtPeace(StateAt(actors, shape, e))
    requires p < |actors| && StateAt(actors, shape, c)[p].stage.HasWalked?
    requires forall k | c <= k < e :: shape[k].who != p
    ensures forall a | a in actions :: WellFormed(a)
    ensures ThreadsOk(w) && Follows(w, actions, shape) && !AllInsertWell(w, actions)
    decreases |shape|
  {
    hide Step, Ours, Takes, AtPeace, InsertsWell;
    assert ThreadsOk(w) by { OursIsOk(w, 0x10); }
    var a := ActionFor(w, actors, shape[0], 0x10, c == 0);
    StepAlike(w, actors, a, shape[0]);
    var rest: seq<Action>;
    if c == 0 {
      assert HasOld(w, p) by { WalkedOld(w, actors, p); }
      rest := BuildAfter(Step(w, a), After(actors, shape[0]), shape[1..], e - 1, p);
    } else {
      rest := BuildBefore(Step(w, a), After(actors, shape[0]), shape[1..], c - 1, e - 1, p);
    }
    actions := [a] + rest;
    assert actions[1..] == rest;
  }

  lemma WalkedOld(w: World, actors: seq<Actor>, p: nat)
    requires Ours(w, 0x10) && AllAlike(w, actors) && p < |actors| && actors[p].stage.HasWalked?
    ensures HasOld(w, p)
  {
    assert Alike(w.threads[p], actors[p]);
    assert OurThread(w.threads[p], 0x10);
  }

  // ---------- what is unsafe about an unsafe shape ----------

  lemma {:induction false} FindInsert(actors: seq<Actor>, shape: seq<Event>) returns (e: nat)
    requires Shaped(actors, shape) && !SafeShape(actors, shape)
    ensures e < |shape| && shape[e].Inserts? && AtPeace(StateAt(actors, shape, e))
    ensures shape[e].who < |actors| && StateAt(actors, shape, e)[shape[e].who].stage == HasWalked(true)
    decreases |shape|
  {
    hide AtPeace, After;
    if shape[0].Inserts? && AtPeace(actors) && actors[shape[0].who].stage.dirty {
      e := 0;
    } else {
      var rest := FindInsert(After(actors, shape[0]), shape[1..]);
      e := rest + 1;
    }
  }

  /** A dirty result became so by a write since its walk. */
  lemma {:induction false} FindWrite(actors: seq<Actor>, shape: seq<Event>, e: nat, p: nat) returns (c: nat)
    requires Shaped(actors, shape) && e <= |shape| && p < |actors|
    requires !actors[p].stage.HasWalked? && StateAt(actors, shape, e)[p].stage == HasWalked(true)
    ensures c < e && shape[c].Writes? && StateAt(actors, shape, c)[p].stage.HasWalked?
    ensures forall k | c <= k < e :: shape[k].who != p
    decreases e
  {
    hide StateAt;
    assert e > 0 by { NothingYet(actors, shape); }
    StateStep(actors, shape, e - 1);
    var before := StateAt(actors, shape, e - 1);
    assert shape[e - 1].who != p;
    if shape[e - 1].Writes? {
      c := e - 1;
    } else {
      c := FindWrite(actors, shape, e - 1, p);
    }
  }

  lemma NothingYet(actors: seq<Actor>, shape: seq<Event>)
    requires Shaped(actors, shape)
    ensures StateAt(actors, shape, 0) == actors
  {
  }

  // ---------- the exact condition ----------

  /** A shape leaves the cache coherent at every quiet moment, whatever memory holds,
      whatever is looked up and whatever is written, exactly when no interval from a
      walk to its insertion that ends at a quiet moment contains a write. */
  lemma SafeShapesExactly(n: nat, shape: seq<Event>)
    requires Shaped(Resting(n), shape)
    ensures (forall w, actions | ThreadsOk(w) && Starts(w, n) && (forall a | a in actions :: WellFormed(a))
               && Follows(w, actions, shape) :: CoherentWhenQuiet(w, actions)) <==>
      SafeShape(Resting(n), shape)
  {
    hide Coherent, Follows, CoherentWhenQuiet, SafeShape;
    if SafeShape(Resting(n), shape) {
      forall w, actions | ThreadsOk(w) && Starts(w, n) && (forall a | a in actions :: WellFormed(a))
        && Follows(w, actions, shape)
        ensures CoherentWhenQuiet(w, actions)
      {
        StartIsSettled(w, n);
        SafeShapeInsertsWell(w, Resting(n), actions, shape);
        CoherentExactly(w, actions);
      }
    } else {
      var w := StaleStart(n);
      StaleStartIsOurs(n);
      var e := FindInsert(Resting(n), shape);
      var c := FindWrite(Resting(n), shape, e, shape[e].who);
      var actions := BuildBefore(w, Resting(n), shape, c, e, shape[e].who);
      StartIsSettled(w, n);
      CoherentExactly(w, actions);
    }
  }

  lemma StartIsSettled(w: World, n: nat)
    requires ThreadsOk(w) && Starts(w, n)
    ensures Settled(w) && AllAlike(w, Resting(n)) && CleanIsCurrent(w, Resting(n))
  {
    hide Walk;
  }

  ghost function StaleStart(n: nat): World {
    World(State(Cache(CACHE_CAPACITY, map[], []), StaleWrite.Table(0x10, 0, 0)), seq(n, _ => Idle(false)))
  }

  lemma StaleStartIsOurs(n: nat)
    ensures ThreadsOk(StaleStart(n)) && Starts(StaleStart(n), n) && Ours(StaleStart(n), 0x10)
    ensures AllAlike(StaleStart(n), Resting(n))
  {
    hide Coherent, StaleWrite.Table;
    EmptyIsCoherent(Cache(CACHE_CAPACITY, map[], []), StaleWrite.Table(0x10, 0, 0));
  }
}
