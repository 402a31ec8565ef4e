/** Sequential runs of session calls: the translation cache is never stale and
    never visible. */
module SessionRuns {
  import opened Words
  import opened VmiTypes
  import opened PhysicalMemory
  import opened PageWalk
  import opened SessionModel
  import opened SessionLaws

  datatype Op =
    | OpTranslate(t: Translator, root: u64, va: u64)
    | OpReadVirtual(t: Translator, root: u64, va: u64, length: nat)
    | OpWriteVirtual(t: Translator, root: u64, va: u64, data: seq<byte>)
    | OpReadBytes(a: u64, length: nat)
    | OpWriteBytes(a: u64, data: seq<byte>)
    | OpClear

  datatype Output = Translated(r: Result<Translation>) | Data(b: Result<seq<byte>>) | Done(d: Result<()>)

  predicate WellFormed(op: Op) {
    (op.OpTranslate? || op.OpReadVirtual? || op.OpWriteVirtual?) ==> Accepted(op.t)
  }

  ghost function Step(s: State, op: Op): (State, Output)
    requires WellFormed(op)
  {
    match op
    case OpTranslate(t, root, va) => var (s', r) := TranslateStep(s, t, root, va); (s', Translated(r))
    case OpReadVirtual(t, root, va, length) => var (s', r) := ReadVirtualStep(s, t, root, va, length); (s', Data(r))
    case OpWriteVirtual(t, root, va, data) => var (s', r) := WriteVirtualStep(s, t, root, va, data); (s', Done(r))
    case OpReadBytes(a, length) => var (s', r) := ReadBytesStep(s, a, length); (s', Data(r))
    case OpWriteBytes(a, data) => var (s', r) := WriteBytesStep(s, a, data); (s', Done(r))
    case OpClear => (s.(cache := Cleared(s.cache)), Done(Ok(())))
  }

  /** The same call on a session that has no cache at all. */
  ghost function DirectStep(m: Memory, op: Op): (Memory, Output)
    requires WellFormed(op)
  {
    match op
    case OpTranslate(t, root, va) => (m, Translated(TranslateDirect(m, t, root, va)))
    case OpReadVirtual(t, root, va, length) =>
      (m, Data(if m.canRead then ReadDirect(m, t, root, va, length, []) else Err(CapabilityMissing)))
    case OpWriteVirtual(t, root, va, data) =>
      var (m', r) := if m.canWrite then WriteDirect(m, t, root, va, data, 0) else (m, Err(CapabilityMissing));
      (m', Done(r))
    case OpReadBytes(a, length) => (m, Data(if m.canRead then Read(m, a, length) else Err(CapabilityMissing)))
    case OpWriteBytes(a, data) =>
      var (m', r) := if m.canWrite then Write(m, a, data) else (m, Err(CapabilityMissing));
      (m', Done(r))
    case OpClear => (m, Done(Ok(())))
  }

  ghost function Run(s: State, ops: seq<Op>): (State, seq<Output>)
    requires forall op | op in ops :: WellFormed(op)
    decreases |ops|
  {
    if ops == [] then (s, [])
    else
      var (s1, out) := Step(s, ops[0]);
      var (s2, outs) := Run(s1, ops[1..]);
      (s2, [out] + outs)
  }

  ghost function DirectRun(m: Memory, ops: seq<Op>): (Memory, seq<Output>)
    requires forall op | op in ops :: WellFormed(op)
    decreases |ops|
  {
    if ops == [] then (m, [])
    else
      var (m1, out) := DirectStep(m, ops[0]);
      var (m2, outs) := DirectRun(m1, ops[1..]);
      (m2, [out] + outs)
  }

  /** Each virtual write of the run leaves the cache it starts from right until it
      is done. */
  ghost predicate CacheStaysRightIn(s: State, ops: seq<Op>)
    requires forall op | op in ops :: WellFormed(op)
    decreases |ops|
  {
    ops != [] ==>
    && WellFormed(ops[0])
    && (ops[0].OpWriteVirtual? ==> CacheStaysRight(s, ops[0].t, ops[0].root, ops[0].va, ops[0].data))
    && CacheStaysRightIn(Step(s, ops[0]).0, ops[1..])
  }

  /** Each virtual write of the run is safe in the memory it meets: a condition that
      does not look at the cache. */
  ghost predicate WritesSafe(m: Memory, ops: seq<Op>)
    requires forall op | op in ops :: WellFormed(op)
    decreases |ops|
  {
    ops != [] ==>
    && WellFormed(ops[0])
    && (ops[0].OpWriteVirtual? ==> WriteSafe(m, ops[0].t, ops[0].root, ops[0].va, |ops[0].data|))
    && WritesSafe(DirectStep(m, ops[0]).0, ops[1..])
  }

  /** Whatever an operation does, and however it fails, it leaves every cached
      translation equal to what memory now says. */
  lemma StepCoherent(s: State, op: Op)
    requires Coherent(s) && WellFormed(op)
    ensures Coherent(Step(s, op).0)
  {
    hide Walk, TranslateStep, ReadFrom, WriteFromStep, Write, ReadDirect, TranslateDirect;
    match op
    case OpTranslate(t, root, va) => TranslateTransparent(s, t, root, va);
    case OpReadVirtual(t, root, va, length) => if s.memory.canRead { ReadTransparent(s, t, root, va, length, []); }
    case OpWriteVirtual(t, root, va, data) =>
      WriteFromKeepsCapacity(s, t, root, va, data, 0);
      EmptyIsCoherent(s.cache, WriteVirtualStep(s, t, root, va, data).0.memory);
    case OpReadBytes(_, _) =>
    case OpWriteBytes(a, data) => EmptyIsCoherent(s.cache, WriteBytesStep(s, a, data).0.memory);
    case OpClear => EmptyIsCoherent(s.cache, s.memory);
  }

  lemma StepTransparent(s: State, op: Op)
    requires Coherent(s) && WellFormed(op)
    requires op.OpWriteVirtual? ==> CacheStaysRight(s, op.t, op.root, op.va, op.data)
    ensures Step(s, op).0.memory == DirectStep(s.memory, op).0 && Step(s, op).1 == DirectStep(s.memory, op).1
  {
    hide Walk, Coherent, TranslateStep, ReadFrom, WriteFromStep, Write, ReadDirect, WriteDirect, TranslateDirect,
      WriteSafe, CacheStaysRight, WriteOutcome, Read;
    match op
    case OpTranslate(t, root, va) => TranslateTransparent(s, t, root, va);
    case OpReadVirtual(t, root, va, length) => if s.memory.canRead { ReadTransparent(s, t, root, va, length, []); }
    case OpWriteVirtual(t, root, va, data) => WriteVirtualExact(s, t, root, va, data);
    case OpReadBytes(_, _) =>
    case OpWriteBytes(_, _) =>
    case OpClear =>
  }

  /** Cache coherence in every sequential run, at every call boundary. */
  lemma {:induction false} RunCoherent(s: State, ops: seq<Op>)
    requires Coherent(s) && forall op | op in ops :: WellFormed(op)
    ensures Coherent(Run(s, ops).0)
    decreases |ops|
  {
    hide Coherent, Step;
    if ops != [] {
      StepCoherent(s, ops[0]);
      RunCoherent(Step(s, ops[0]).0, ops[1..]);
    }
  }

  /** A session is observationally a session without a cache: in every run whose
      virtual writes keep their cache right, all results and the final memory are
      the same. */
  lemma {:induction false} RunTransparent(s: State, ops: seq<Op>)
    requires Coherent(s) && forall op | op in ops :: WellFormed(op)
    requires CacheStaysRightIn(s, ops)
    ensures Run(s, ops).0.memory == DirectRun(s.memory, ops).0
    ensures Run(s, ops).1 == DirectRun(s.memory, ops).1
    decreases |ops|
  {
    hide Coherent, Step, DirectStep, CacheStaysRight;
    if ops != [] {
      StepCoherent(s, ops[0]);
      StepTransparent(s, ops[0]);
      RunTransparent(Step(s, ops[0]).0, ops[1..]);
    }
  }

  /** Safe writes keep every cache right. */
  lemma {:induction false} SafeRunStaysRight(s: State, ops: seq<Op>)
    requires Coherent(s) && forall op | op in ops :: WellFormed(op)
    requires WritesSafe(s.memory, ops)
    ensures CacheStaysRightIn(s, ops)
    decreases |ops|
  {
    hide Coherent, Step, DirectStep, CacheStaysRight, WriteSafe;
    if ops != [] {
      var op := ops[0];
      if op.OpWriteVirtual? { CacheStaysRightIf(s, op.t, op.root, op.va, op.data); }
      StepCoherent(s, op);
      StepTransparent(s, op);
      SafeRunStaysRight(Step(s, op).0, ops[1..]);
    }
  }
}
