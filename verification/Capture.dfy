/** The two reader threads of `run_bounded_command` in vmi-driver-virtualbox, and
    the counter through which they share one output capacity.

    One step is one atomic action: a read of the pipe, a load or compare-exchange
    of the counter, or a store of the flag. */
module Capture {
  import opened Words

  const CHUNK: nat := 8192

  datatype Phase =
    | Reading
    | Loading(chunk: seq<byte>)
    | Swapping(chunk: seq<byte>, current: nat)
    | Keeping(chunk: seq<byte>)
    | Exceeding
    | Stopped
    | Ended
    | Broken

  /** `pipe` is what the command has yet to have read. */
  datatype Reader = Reader(pipe: seq<byte>, kept: seq<byte>, phase: Phase)

  datatype Stream = Stdout | Stderr

  datatype State = State(counter: nat, exceeded: bool, out: Reader, err: Reader) {
    function At(s: Stream): Reader { if s.Stdout? then out else err }

    function With(s: Stream, r: Reader): State { if s.Stdout? then this.(out := r) else this.(err := r) }
  }

  /** What the system decides: whether the action fails, and how much a read yields. */
  datatype Choice = Choice(fails: bool, amount: nat)

  function ReadSize(amount: nat, left: nat): (n: nat)
    requires left > 0
    ensures 0 < n <= left && n <= CHUNK
  {
    var most := if left < CHUNK then left else CHUNK;
    if amount == 0 then 1 else if amount > most then most else amount
  }

  /** One action of a reader: the counter and the flag after it, and the reader. */
  function Act(counter: nat, exceeded: bool, r: Reader, capacity: nat, c: Choice): (nat, bool, Reader) {
    match r.phase
    case Reading =>
      if c.fails then (counter, exceeded, r.(phase := Broken))
      else if r.pipe == [] then (counter, exceeded, r.(phase := Ended))
      else
        var n := ReadSize(c.amount, |r.pipe|);
        (counter, exceeded, r.(pipe := r.pipe[n..], phase := Loading(r.pipe[..n])))
    case Loading(chunk) => (counter, exceeded, r.(phase := Swapping(chunk, counter)))
    case Swapping(chunk, current) =>
      if current + |chunk| > capacity then (counter, exceeded, r.(phase := Exceeding))
      else if counter == current && !c.fails then (current + |chunk|, exceeded, r.(phase := Keeping(chunk)))
      else (counter, exceeded, r.(phase := Swapping(chunk, counter)))
    case Keeping(chunk) => (counter, exceeded, r.(kept := r.kept + chunk, phase := Reading))
    case Exceeding => (counter, true, r.(phase := Stopped))
    case _ => (counter, exceeded, r)
  }

  function Step(s: State, capacity: nat, which: Stream, c: Choice): State {
    var (counter, exceeded, r) := Act(s.counter, s.exceeded, s.At(which), capacity, c);
    s.(counter := counter, exceeded := exceeded).With(which, r)
  }

  // ---------- the invariant ----------

  /** What a reader has counted. */
  function Counted(r: Reader): nat { |r.kept| + if r.phase.Keeping? then |r.phase.chunk| else 0 }

  /** What it has read and not lost, in order. */
  function Held(r: Reader): seq<byte> {
    if r.phase.Loading? || r.phase.Swapping? || r.phase.Keeping? then r.kept + r.phase.chunk else r.kept
  }

  /** Over `all` the command writes to this stream, and `total` on both. */
  predicate Good(r: Reader, all: seq<byte>, total: nat, counter: nat, capacity: nat, exceeded: bool) {
    && (r.phase.Exceeding? || r.phase.Stopped? ==> total > capacity)
    && (r.phase.Stopped? ==> exceeded)
    && (!(r.phase.Exceeding? || r.phase.Stopped?) ==> Held(r) + r.pipe == all)
    && r.kept <= all
    && |Held(r)| + |r.pipe| <= |all|
    && (r.phase.Ended? ==> r.pipe == [])
    && (r.phase.Swapping? ==> r.phase.current <= counter)
  }

  predicate Inv(s: State, capacity: nat, stdout: seq<byte>, stderr: seq<byte>) {
    var total := |stdout| + |stderr|;
    && s.counter == Counted(s.out) + Counted(s.err) <= capacity
    && Good(s.out, stdout, total, s.counter, capacity, s.exceeded)
    && Good(s.err, stderr, total, s.counter, capacity, s.exceeded)
    && (s.exceeded ==> s.out.phase.Stopped? || s.err.phase.Stopped?)
  }

  function Start(stdout: seq<byte>, stderr: seq<byte>): State {
    State(0, false, Reader(stdout, [], Reading), Reader(stderr, [], Reading))
  }

  /** The counter only grows, by what the reader counts. */
  lemma ActCounts(counter: nat, exceeded: bool, r: Reader, capacity: nat, c: Choice)
    requires counter <= capacity
    ensures var (after, flag, q) := Act(counter, exceeded, r, capacity, c);
      && after == counter + Counted(q) - Counted(r) && counter <= after <= capacity
      && (exceeded ==> flag) && (flag && !exceeded ==> q.phase.Stopped?)
      && (r.phase.Stopped? ==> q == r)
  {
  }

  lemma ActIsGood(counter: nat, exceeded: bool, r: Reader, other: nat, capacity: nat, c: Choice, all: seq<byte>, total: nat)
    requires Good(r, all, total, counter, capacity, exceeded)
    requires counter == Counted(r) + other <= capacity && |all| + other <= total
    ensures var (after, flag, q) := Act(counter, exceeded, r, capacity, c);
      Good(q, all, total, after, capacity, flag)
  {
    match r.phase
    case Reading =>
      if !c.fails && r.pipe != [] {
        var n := ReadSize(c.amount, |r.pipe|);
        assert r.pipe == r.pipe[..n] + r.pipe[n..];
        assert r.kept + r.pipe == (r.kept + r.pipe[..n]) + r.pipe[n..];
      }
    case Keeping(chunk) =>
      assert r.kept + chunk + r.pipe == all;
    case _ =>
  }

  lemma StepKeepsInv(s: State, capacity: nat, which: Stream, c: Choice, stdout: seq<byte>, stderr: seq<byte>)
    requires Inv(s, capacity, stdout, stderr)
    ensures Inv(Step(s, capacity, which, c), capacity, stdout, stderr)
  {
    hide Act;
    var total := |stdout| + |stderr|;
    var mine, theirs := s.At(which), s.At(if which.Stdout? then Stderr else Stdout);
    ActCounts(s.counter, s.exceeded, mine, capacity, c);
    assert Counted(theirs) <= if which.Stdout? then |stderr| else |stdout|;
    ActIsGood(s.counter, s.exceeded, mine, Counted(theirs), capacity, c, if which.Stdout? then stdout else stderr, total);
  }

  // ---------- whole interleavings ----------

  datatype Turn = Turn(which: Stream, choice: Choice)

  function Run(s: State, capacity: nat, schedule: seq<Turn>): State
    decreases |schedule|
  {
    if schedule == [] then s
    else Run(Step(s, capacity, schedule[0].which, schedule[0].choice), capacity, schedule[1..])
  }

  lemma {:induction false} RunKeepsInv(s: State, capacity: nat, schedule: seq<Turn>, stdout: seq<byte>, stderr: seq<byte>)
    requires Inv(s, capacity, stdout, stderr)
    ensures Inv(Run(s, capacity, schedule), capacity, stdout, stderr)
    decreases |schedule|
  {
    hide Step, Inv;
    if schedule != [] {
      StepKeepsInv(s, capacity, schedule[0].which, schedule[0].choice, stdout, stderr);
      RunKeepsInv(Step(s, capacity, schedule[0].which, schedule[0].choice), capacity, schedule[1..], stdout, stderr);
    }
  }

  lemma StartIsGood(capacity: nat, stdout: seq<byte>, stderr: seq<byte>)
    ensures Inv(Start(stdout, stderr), capacity, stdout, stderr)
  {
    var none: seq<byte> := [];
    assert none + stdout == stdout && none + stderr == stderr;
  }

  predicate Done(r: Reader) { r.phase.Ended? || r.phase.Stopped? }

  /** However the two readers race, the bytes kept never exceed the capacity. */
  lemma WithinCapacity(capacity: nat, schedule: seq<Turn>, stdout: seq<byte>, stderr: seq<byte>)
    ensures var s := Run(Start(stdout, stderr), capacity, schedule);
      && |s.out.kept| + |s.err.kept| <= s.counter <= capacity
      && s.out.kept <= stdout && s.err.kept <= stderr
  {
    hide Run;
    StartIsGood(capacity, stdout, stderr);
    RunKeepsInv(Start(stdout, stderr), capacity, schedule, stdout, stderr);
  }

  /** When both have finished, the limit was reported exactly when the output is
      larger than the capacity, and otherwise all of it was kept: no race makes the
      outcome depend on the schedule. */
  lemma ExceededExactly(capacity: nat, schedule: seq<Turn>, stdout: seq<byte>, stderr: seq<byte>)
    requires var s := Run(Start(stdout, stderr), capacity, schedule); Done(s.out) && Done(s.err)
    ensures var s := Run(Start(stdout, stderr), capacity, schedule);
      && (s.exceeded <==> |stdout| + |stderr| > capacity)
      && (!s.exceeded ==> s.out.kept == stdout && s.err.kept == stderr)
  {
    hide Run;
    StartIsGood(capacity, stdout, stderr);
    RunKeepsInv(Start(stdout, stderr), capacity, schedule, stdout, stderr);
  }
}
