/** The bounded event queue of vmi-events: producers and consumers that share a
    mutex and a condition variable, interleaved one critical section at a time. */
module EventQueue {
  import opened VmiTypes

  type Event = string

  const CLOSED := VmiError.Backend("event queue is closed")
  const FULL := VmiError.Backend("event queue capacity exceeded")

  /** What the mutex guards. */
  datatype Queue = Queue(events: seq<Event>, closed: bool)

  datatype Answer = Delivered(event: Event) | NoEvent | Wait

  // ---------- the critical sections ----------

  function Offer(q: Queue, capacity: nat, e: Event): (Queue, Result<()>) {
    if q.closed then (q, Err(CLOSED))
    else if |q.events| == capacity then (q, Err(FULL))
    else (q.(events := q.events + [e]), Ok(()))
  }

  /** One pass of the loop of `next_event`, from taking the lock to returning or
      waiting.  `bounded` says that the timeout fits the clock, `past` that the
      deadline has come, `timedOut` that a wait has just run out. */
  function Poll(q: Queue, bounded: bool, past: bool, timedOut: bool): (Queue, Answer) {
    if timedOut && q.events == [] && bounded then (q, NoEvent)
    else if q.events != [] then (q.(events := q.events[1..]), Delivered(q.events[0]))
    else if q.closed then (q, NoEvent)
    else if bounded && past then (q, NoEvent)
    else (q, Wait)
  }

  /** What the mutex guards, as the source keeps it.  `pushed` and `delivered` record
      what was accepted and what was handed out. */
  class Shared {
    const capacity: nat
    var events: seq<Event>
    var closed: bool
    ghost var pushed: seq<Event>
    ghost var delivered: seq<Event>

    /** First in, first out, nothing lost, never more than the capacity. */
    ghost predicate Valid()
      reads this
    {
      0 < capacity && |events| <= capacity && pushed == delivered + events
    }

    ghost function Value(): Queue
      reads this
    {
      Queue(events, closed)
    }

    constructor (capacity: nat)
      requires capacity > 0
      ensures this.capacity == capacity && Valid()
      ensures events == [] && pushed == [] && !closed
    {
      this.capacity := capacity;
      this.events, this.closed, this.pushed, this.delivered := [], false, [], [];
    }

    /** Accepts exactly when the queue is open and has room. */
    method Push(event: Event) returns (r: Result<()>)
      requires Valid()
      modifies this`events, this`pushed
      ensures Valid()
      ensures r.Ok? <==> !closed && |old(events)| < capacity
      ensures pushed == if r.Ok? then old(pushed) + [event] else old(pushed)
      ensures r.Err? ==> r.error == (if closed then CLOSED else FULL) && events == old(events)
      ensures (Value(), r) == Offer(old(Value()), capacity, event)
    {
      if closed { return Err(CLOSED); }
      if |events| == capacity { return Err(FULL); }
      events := events + [event];
      pushed := pushed + [event];
      r := Ok(());
      assert r == Ok(r.value) && r.value == ();
    }

    method Close()
      requires Valid()
      modifies this`closed
      ensures Valid() && closed
    {
      closed := true;
    }

    /** Under the lock, after a wait that `timedOut`: the oldest event if there is
        one; nothing exactly when there is none and the queue is closed or the time
        is up. */
    method Next(bounded: bool, past: bool, timedOut: bool) returns (answer: Answer)
      requires Valid()
      modifies this`events, this`delivered
      ensures Valid()
      ensures answer.Delivered? <==> old(events) != []
      ensures answer.Delivered? ==> old(events) == [answer.event] + events
      ensures delivered == if answer.Delivered? then old(delivered) + [answer.event] else old(delivered)
      ensures answer.NoEvent? <==> old(events) == [] && (closed || (bounded && (past || timedOut)))
      ensures (Value(), answer) == Poll(old(Value()), bounded, past, timedOut)
    {
      if timedOut && events == [] && bounded { return NoEvent; }
      if events != [] {
        answer := Delivered(events[0]);
        delivered := delivered + [events[0]];
        events := events[1..];
        return;
      }
      if closed { return NoEvent; }
      if bounded && past { return NoEvent; }
      return Wait;
    }
  }

  // ---------- the threads ----------

  /** A consumer: outside `next_event`, about to take the lock, waiting, or woken
      and about to take the lock again. */
  datatype Consumer = Idle | Asking(bounded: bool) | Asleep(bounded: bool) | Woken(bounded: bool, timedOut: bool)

  /** `pushed` and `delivered` record what was accepted and what was handed out. */
  datatype State = State(queue: Queue, consumers: seq<Consumer>, pushed: seq<Event>, delivered: seq<Event>)

  datatype Action =
    | Push(event: Event, notify: nat, timedOut: bool)
    | Close(timedOut: bool)
    | Call(consumer: nat, bounded: bool)
    | Lock(consumer: nat, past: bool)
    | WakeUp(consumer: nat, timedOut: bool)

  /** How many wait without having been woken. */
  function Sleepers(c: seq<Consumer>): nat {
    if c == [] then 0 else (if c[0].Asleep? then 1 else 0) + Sleepers(c[1..])
  }

  function Wakened(c: seq<Consumer>): nat {
    if c == [] then 0 else (if c[0].Woken? then 1 else 0) + Wakened(c[1..])
  }

  function Awake(c: Consumer, timedOut: bool): Consumer {
    if c.Asleep? then Woken(c.bounded, timedOut) else c
  }

  function AllAwake(c: seq<Consumer>, timedOut: bool): (r: seq<Consumer>)
    ensures |r| == |c|
  {
    if c == [] then [] else [Awake(c[0], timedOut)] + AllAwake(c[1..], timedOut)
  }

  /** `notify_one`: a waiting consumer, the one the system prefers if it waits. */
  function Notified(c: seq<Consumer>, preferred: nat): (i: nat)
    requires Sleepers(c) > 0
    ensures i < |c| && c[i].Asleep?
  {
    if preferred < |c| && c[preferred].Asleep? then preferred else FirstAsleep(c)
  }

  function FirstAsleep(c: seq<Consumer>): (i: nat)
    requires Sleepers(c) > 0
    ensures i < |c| && c[i].Asleep?
  {
    if c[0].Asleep? then 0 else 1 + FirstAsleep(c[1..])
  }

  /** An action that is not possible, such as waking one who is not asleep, changes nothing. */
  function Step(s: State, capacity: nat, a: Action): State {
    match a
    case Push(e, preferred, timedOut) =>
      var (q, r) := Offer(s.queue, capacity, e);
      if r.Err? then s
      else
        var c := if Sleepers(s.consumers) == 0 then s.consumers else
          var i := Notified(s.consumers, preferred);
          s.consumers[i := Awake(s.consumers[i], timedOut)];
        State(q, c, s.pushed + [e], s.delivered)
    case Close(timedOut) =>
      s.(queue := s.queue.(closed := true), consumers := AllAwake(s.consumers, timedOut))
    case Call(i, bounded) =>
      if i < |s.consumers| && s.consumers[i].Idle? then s.(consumers := s.consumers[i := Asking(bounded)]) else s
    case WakeUp(i, timedOut) =>
      if i < |s.consumers| then s.(consumers := s.consumers[i := Awake(s.consumers[i], timedOut)]) else s
    case Lock(i, past) =>
      if i >= |s.consumers| || s.consumers[i].Idle? || s.consumers[i].Asleep? then s
      else
        var c := s.consumers[i];
        var (q, answer) := Poll(s.queue, c.bounded, past, c.Woken? && c.timedOut);
        State(
          q, s.consumers[i := if answer.Wait? then Asleep(c.bounded) else Idle], s.pushed,
          if answer.Delivered? then s.delivered + [answer.event] else s.delivered)
  }

  // ---------- the invariant ----------

  /** Events come out in the order they went in, none is lost, and none waits in
      the queue without a consumer on its way to it while another sleeps. */
  predicate Inv(s: State, capacity: nat) {
    && |s.queue.events| <= capacity
    && s.pushed == s.delivered + s.queue.events
    && (Sleepers(s.consumers) > 0 ==> |s.queue.events| <= Wakened(s.consumers))
    && (s.queue.closed ==> Sleepers(s.consumers) == 0)
  }

  lemma {:induction false} CountsAfter(c: seq<Consumer>, i: nat, x: Consumer)
    requires i < |c|
    ensures Sleepers(c[i := x]) + (if c[i].Asleep? then 1 else 0) == Sleepers(c) + (if x.Asleep? then 1 else 0)
    ensures Wakened(c[i := x]) + (if c[i].Woken? then 1 else 0) == Wakened(c) + (if x.Woken? then 1 else 0)
  {
    if i > 0 {
      CountsAfter(c[1..], i - 1, x);
      assert c[i := x][1..] == c[1..][i - 1 := x];
    } else {
      assert c[0 := x][1..] == c[1..];
    }
  }

  lemma {:induction false} NobodySleeps(c: seq<Consumer>, timedOut: bool)
    ensures Sleepers(AllAwake(c, timedOut)) == 0
  {
    if c != [] { NobodySleeps(c[1..], timedOut); }
  }

  lemma PollAnswers(q: Queue, bounded: bool, past: bool, timedOut: bool)
    ensures var (after, answer) := Poll(q, bounded, past, timedOut);
      && after.closed == q.closed
      && (answer.Delivered? <==> q.events != [])
      && (if answer.Delivered? then q.events == [answer.event] + after.events else after == q && q.events == [])
      && (answer.NoEvent? <==> q.events == [] && (q.closed || (bounded && (past || timedOut))))
      && (answer.Wait? ==> !q.closed)
  {
  }

  lemma LockKeepsInv(s: State, capacity: nat, i: nat, past: bool)
    requires Inv(s, capacity) && i < |s.consumers| && (s.consumers[i].Asking? || s.consumers[i].Woken?)
    ensures Inv(Step(s, capacity, Lock(i, past)), capacity)
  {
    hide Poll, Sleepers, Wakened;
    var c := s.consumers[i];
    var timedOut := c.Woken? && c.timedOut;
    var (q, answer) := Poll(s.queue, c.bounded, past, timedOut);
    PollAnswers(s.queue, c.bounded, past, timedOut);
    CountsAfter(s.consumers, i, if answer.Wait? then Asleep(c.bounded) else Idle);
    if answer.Delivered? {
      assert s.delivered + ([answer.event] + q.events) == (s.delivered + [answer.event]) + q.events;
    }
  }

  lemma StepKeepsInv(s: State, capacity: nat, a: Action)
    requires Inv(s, capacity)
    ensures Inv(Step(s, capacity, a), capacity)
  {
    match a
    case Push(e, preferred, timedOut) =>
      var (q, r) := Offer(s.queue, capacity, e);
      if r.Ok? {
        assert s.delivered + (s.queue.events + [e]) == (s.delivered + s.queue.events) + [e];
        if Sleepers(s.consumers) > 0 {
          var i := Notified(s.consumers, preferred);
          CountsAfter(s.consumers, i, Awake(s.consumers[i], timedOut));
        }
      }
    case Close(timedOut) => NobodySleeps(s.consumers, timedOut);
    case Call(i, bounded) =>
      if i < |s.consumers| && s.consumers[i].Idle? { CountsAfter(s.consumers, i, Asking(bounded)); }
    case WakeUp(i, timedOut) =>
      if i < |s.consumers| { CountsAfter(s.consumers, i, Awake(s.consumers[i], timedOut)); }
    case Lock(i, past) =>
      if i < |s.consumers| && (s.consumers[i].Asking? || s.consumers[i].Woken?) { LockKeepsInv(s, capacity, i, past); }
  }

  // ---------- whole interleavings ----------

  function Run(s: State, capacity: nat, actions: seq<Action>): State
    decreases |actions|
  {
    if actions == [] then s else Run(Step(s, capacity, actions[0]), capacity, actions[1..])
  }

  function Start(n: nat): State {
    State(Queue([], false), seq(n, _ => Idle), [], [])
  }

  lemma {:induction false} NobodyIn(n: nat)
    ensures Sleepers(seq(n, _ => Idle)) == 0
  {
    var all: seq<Consumer> := seq(n, _ => Idle);
    if n > 0 {
      NobodyIn(n - 1);
      assert all[1..] == seq(n - 1, _ => Idle);
    }
  }

  /** In every interleaving: first in, first out, nothing lost or invented, never
      more than the capacity, and no event waits while every consumer sleeps. */
  lemma {:induction false} RunKeepsInv(s: State, capacity: nat, actions: seq<Action>)
    requires Inv(s, capacity)
    ensures Inv(Run(s, capacity, actions), capacity)
    decreases |actions|
  {
    hide Step, Inv;
    if actions != [] {
      StepKeepsInv(s, capacity, actions[0]);
      RunKeepsInv(Step(s, capacity, actions[0]), capacity, actions[1..]);
    }
  }

  lemma FromTheStart(n: nat, capacity: nat, actions: seq<Action>)
    ensures var s := Run(Start(n), capacity, actions);
      && s.pushed == s.delivered + s.queue.events && |s.queue.events| <= capacity
      && (s.queue.events != [] && Sleepers(s.consumers) > 0 ==> Wakened(s.consumers) > 0)
      && (s.queue.closed ==> Sleepers(s.consumers) == 0)
  {
    hide Run;
    NobodyIn(n);
    RunKeepsInv(Start(n), capacity, actions);
  }

  /** After `close` nothing more is accepted, for good. */
  lemma {:induction false} ClosedForGood(s: State, capacity: nat, actions: seq<Action>)
    requires s.queue.closed
    ensures Run(s, capacity, actions).queue.closed
    ensures Run(s, capacity, actions).pushed == s.pushed
    decreases |actions|
  {
    if actions != [] {
      StaysClosed(s, capacity, actions[0]);
      ClosedForGood(Step(s, capacity, actions[0]), capacity, actions[1..]);
    }
  }

  lemma StaysClosed(s: State, capacity: nat, a: Action)
    requires s.queue.closed
    ensures Step(s, capacity, a).queue.closed && Step(s, capacity, a).pushed == s.pushed
  {
    match a
    case Lock(i, past) =>
      if i < |s.consumers| && (s.consumers[i].Asking? || s.consumers[i].Woken?) {
        var c := s.consumers[i];
        PollAnswers(s.queue, c.bounded, past, c.Woken? && c.timedOut);
      }
    case _ =>
  }

  /** A consumer leaves without an event only at a locked moment at which there is
      none and the queue is closed or its time is up; one that does not sleep and is
      scheduled takes the oldest event there is. */
  lemma LeavesEmptyHanded(s: State, capacity: nat, i: nat, past: bool)
    requires Inv(s, capacity) && i < |s.consumers| && (s.consumers[i].Asking? || s.consumers[i].Woken?)
    ensures var v, c := Step(s, capacity, Lock(i, past)), s.consumers[i];
      && (v.consumers[i].Idle? && v.delivered == s.delivered <==>
          s.queue.events == [] && (s.queue.closed || (c.bounded && (past || (c.Woken? && c.timedOut)))))
      && (s.queue.events != [] ==> v.delivered == s.delivered + [s.queue.events[0]])
  {
    hide Poll;
    var c := s.consumers[i];
    var timedOut := c.Woken? && c.timedOut;
    PollAnswers(s.queue, c.bounded, past, timedOut);
    var answer := Poll(s.queue, c.bounded, past, timedOut).1;
    if answer.Delivered? { assert |s.delivered + [answer.event]| == |s.delivered| + 1; }
  }
}
