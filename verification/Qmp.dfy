/** The QMP client of vmi-driver-qemu: commands and events over one stream, at
    the granularity of whole messages.

    What the peer, the socket and the clock do is a script of turns: each pass of
    a receive loop takes one. */
module Qmp {
  import opened Words
  import opened VmiTypes

  const EVENT_QUEUE_CAPACITY: nat := 1024

  type Event = string
  type Json = string

  datatype Body = Returned(value: Json) | Refused(error: Json)

  /** A line of JSON: an event, or anything else with the id it carries. */
  datatype Message = Notification(event: Event) | Reply(id: Option<u64>, body: Body)

  /** One pass of a receive loop: a message arrives, the read times out, the
      deadline is found to be past, or the stream fails. */
  datatype Turn = Arrives(message: Message) | ReadTimesOut | DeadlinePasses | Breaks(error: VmiError)

  const EXHAUSTED := VmiError.Backend("QMP request ID space exhausted")
  const CLOSED := VmiError.Backend("QMP connection closed")

  /** `deadline` says whether the timeout fits the clock. */
  datatype Call =
    | Execute(command: string, sendError: Option<VmiError>, deadline: bool)
    | NextEvent(zeroTimeout: bool, deadline: bool)

  datatype Outcome =
    | NotSent(error: VmiError)
    | Answered(id: u64, body: Body)
    | Unanswered(id: u64, error: VmiError)
    | Overflowed(id: u64)
    | Delivered(event: Event)
    | NoEvent
    | EventError(error: VmiError)

  /** The client, and the turns it has yet to meet. */
  datatype Client = Client(nextId: Option<u64>, events: seq<Event>, turns: seq<Turn>)

  predicate Valid(c: Client) { |c.events| <= EVENT_QUEUE_CAPACITY }

  function After(id: u64): Option<u64> { if id + 1 < U64_LIMIT then Some(id + 1) else None }

  // ---------- one call ----------

  function AwaitReply(id: u64, deadline: bool, events: seq<Event>, turns: seq<Turn>): (Outcome, seq<Event>, seq<Turn>)
    decreases |turns|
  {
    if turns == [] then (Unanswered(id, CLOSED), events, [])
    else
      var rest := turns[1..];
      match turns[0]
      case Breaks(e) => (Unanswered(id, e), events, rest)
      case ReadTimesOut => (Unanswered(id, Timeout), events, rest)
      case DeadlinePasses =>
        if deadline then (Unanswered(id, Timeout), events, rest) else AwaitReply(id, deadline, events, rest)
      case Arrives(Notification(e)) =>
        if |events| == EVENT_QUEUE_CAPACITY then (Overflowed(id), events, rest)
        else AwaitReply(id, deadline, events + [e], rest)
      case Arrives(Reply(carried, body)) =>
        if carried == Some(id) then (Answered(id, body), events, rest)
        else AwaitReply(id, deadline, events, rest)
  }

  function AwaitEvent(deadline: bool, turns: seq<Turn>): (Outcome, seq<Turn>)
    decreases |turns|
  {
    if turns == [] then (EventError(CLOSED), [])
    else
      var rest := turns[1..];
      match turns[0]
      case Breaks(e) => (EventError(e), rest)
      case Arrives(Notification(e)) => (Delivered(e), rest)
      case Arrives(Reply(_, _)) => AwaitEvent(deadline, rest)
      case _ => if deadline then (NoEvent, rest) else AwaitEvent(deadline, rest)
  }

  function Perform(c: Client, call: Call): (Client, Outcome) {
    match call
    case Execute(_, sendError, deadline) =>
      if c.nextId.None? then (c, NotSent(EXHAUSTED))
      else
        var id := c.nextId.value;
        if sendError.Some? then (c.(nextId := After(id)), Unanswered(id, sendError.value))
        else
          var (outcome, events, turns) := AwaitReply(id, deadline, c.events, c.turns);
          (Client(After(id), events, turns), outcome)
    case NextEvent(zeroTimeout, deadline) =>
      if c.events != [] then (c.(events := c.events[1..]), Delivered(c.events[0]))
      else if zeroTimeout then (c, NoEvent)
      else
        var (outcome, turns) := AwaitEvent(deadline, c.turns);
        (c.(turns := turns), outcome)
  }

  /** What a wait for an event ends by: an event, a failure, or its deadline when there
      is one; replies never end it. */
  predicate EndsEventWait(t: Turn, deadline: bool) {
    match t
    case Breaks(_) => true
    case Arrives(Notification(_)) => true
    case Arrives(Reply(_, _)) => false
    case _ => deadline
  }

  /** The wait ends at the first turn that ends it, takes all turns up to there, and
      tells what that one was; when none does, the stream was closed. */
  lemma {:induction false} AwaitEventExact(deadline: bool, turns: seq<Turn>, n: nat)
    requires n <= |turns| && forall i | 0 <= i < n :: !EndsEventWait(turns[i], deadline)
    ensures n == |turns| ==> AwaitEvent(deadline, turns) == (EventError(CLOSED), [])
    ensures n < |turns| && EndsEventWait(turns[n], deadline) ==>
      AwaitEvent(deadline, turns) == (match turns[n]
        case Breaks(e) => EventError(e)
        case Arrives(Notification(e)) => Delivered(e)
        case _ => NoEvent, turns[n + 1..])
  {
    if n > 0 {
      AwaitEventExact(deadline, turns[1..], n - 1);
      if n < |turns| { assert turns[1..][n - 1..][1..] == turns[n + 1..]; }
    }
  }

  // ---------- what is read ----------

  function EventOf(t: Turn): seq<Event> {
    if t.Arrives? && t.message.Notification? then [t.message.event] else []
  }

  function EventsIn(turns: seq<Turn>): seq<Event> {
    if turns == [] then [] else EventOf(turns[0]) + EventsIn(turns[1..])
  }

  lemma {:induction false} EventsConcat(a: seq<Turn>, b: seq<Turn>)
    ensures EventsIn(a + b) == EventsIn(a) + EventsIn(b)
  {
    if a == [] {
      assert a + b == b;
    } else {
      assert (a + b)[1..] == a[1..] + b;
      EventsConcat(a[1..], b);
    }
  }

  /** A turn that does not end the wait for the reply to `id`. */
  predicate Passes(t: Turn, id: u64, deadline: bool) {
    match t
    case Breaks(_) => false
    case ReadTimesOut => false
    case DeadlinePasses => !deadline
    case Arrives(Notification(_)) => true
    case Arrives(Reply(carried, _)) => carried != Some(id)
  }

  lemma {:induction false} WaitConsumes(id: u64, deadline: bool, events: seq<Event>, turns: seq<Turn>)
    requires turns != []
    ensures |AwaitReply(id, deadline, events, turns).2| < |turns|
    decreases |turns|
  {
    var rest := turns[1..];
    if rest != [] {
      WaitConsumes(id, deadline, events, rest);
      if turns[0].Arrives? && turns[0].message.Notification? {
        WaitConsumes(id, deadline, events + [turns[0].message.event], rest);
      }
    }
  }

  lemma PassingTurn(id: u64, deadline: bool, events: seq<Event>, turns: seq<Turn>)
    requires turns != [] && |events| <= EVENT_QUEUE_CAPACITY && Passes(turns[0], id, deadline)
    ensures AwaitReply(id, deadline, events, turns) ==
      if |events + EventOf(turns[0])| > EVENT_QUEUE_CAPACITY then (Overflowed(id), events, turns[1..])
      else AwaitReply(id, deadline, events + EventOf(turns[0]), turns[1..])
  {
    assert events + [] == events;
  }

  lemma EventsFirst(turns: seq<Turn>, n: nat)
    requires 0 < n <= |turns|
    ensures EventsIn(turns[..n]) == EventOf(turns[0]) + EventsIn(turns[1..][..n - 1])
  {
    assert turns[..n][1..] == turns[1..][..n - 1];
  }

  /** The reply to `id` arrives as turn `n`, after turns that pass and events that
      fit the queue. */
  predicate ReplyArrives(id: u64, deadline: bool, events: seq<Event>, turns: seq<Turn>, body: Body, n: nat)
    requires n < |turns|
  {
    && turns[n] == Arrives(Reply(Some(id), body))
    && (forall i | 0 <= i < n :: Passes(turns[i], id, deadline))
    && |events + EventsIn(turns[..n])| <= EVENT_QUEUE_CAPACITY
  }

  /** A command is answered exactly when its own reply arrives in time; the wait
      consumes no more than that, and queues every event it meets. */
  lemma {:induction false} AnswerExact(id: u64, deadline: bool, events: seq<Event>, turns: seq<Turn>, body: Body, n: nat)
    requires |events| <= EVENT_QUEUE_CAPACITY && n < |turns|
    ensures ReplyArrives(id, deadline, events, turns, body, n) <==>
      AwaitReply(id, deadline, events, turns) == (Answered(id, body), events + EventsIn(turns[..n]), turns[n + 1..])
    decreases n
  {
    hide EventsIn, Passes;
    var first, rest := turns[0], turns[1..];
    if !Passes(first, id, deadline) {
      NotPassing(id, deadline, events, turns);
      if n == 0 { NoTurnsNoEvents(); assert events + [] == events && turns[..0] == []; }
      assert |turns[n + 1..]| == |turns| - n - 1;
    } else {
      PassingTurn(id, deadline, events, turns);
      if n == 0 {
        assert turns[n] == first;
        if rest != [] { WaitConsumes(id, deadline, events + EventOf(first), rest); }
        PassesOthers(first, id, deadline, body);
      } else {
        EventsFirst(turns, n);
        assert rest[n..] == turns[n + 1..] && rest[n - 1] == turns[n];
        assert events + EventsIn(turns[..n]) == events + EventOf(first) + EventsIn(rest[..n - 1]);
        if |events + EventOf(first)| <= EVENT_QUEUE_CAPACITY {
          AnswerExact(id, deadline, events + EventOf(first), rest, body, n - 1);
          assert forall i | 0 <= i < n - 1 :: rest[i] == turns[i + 1];
          assert forall i | 0 < i < n :: turns[i] == rest[i - 1];
        }
      }
    }
  }

  lemma PassesOthers(t: Turn, id: u64, deadline: bool, body: Body)
    requires Passes(t, id, deadline)
    ensures t != Arrives(Reply(Some(id), body))
  {
  }

  lemma NoTurnsNoEvents()
    ensures EventsIn([]) == []
  {
  }

  lemma NotPassing(id: u64, deadline: bool, events: seq<Event>, turns: seq<Turn>)
    requires turns != [] && !Passes(turns[0], id, deadline)
    ensures var (outcome, queue, rest) := AwaitReply(id, deadline, events, turns);
      && queue == events && rest == turns[1..]
      && if turns[0].Arrives? then
           var m := turns[0].message; m.Reply? && m.id == Some(id) && outcome == Answered(id, m.body)
         else outcome.Unanswered? && outcome.id == id
  {
  }

  // ---------- what one call does to the events ----------

  function DeliveredBy(o: Outcome): seq<Event> { if o.Delivered? then [o.event] else [] }

  function Lost(o: Outcome): nat { if o.Overflowed? then 1 else 0 }

  /** The turns taken between two states of the stream. */
  function Taken(turns: seq<Turn>, rest: seq<Turn>): seq<Turn> {
    if |rest| <= |turns| then turns[..|turns| - |rest|] else []
  }

  /** Events are accounted for: `before` were queued, `turns` became `rest`,
      `out` were delivered, `after` are queued and `lost` were refused. */
  predicate Accounted(
    before: seq<Event>, turns: seq<Turn>, rest: seq<Turn>, out: seq<Event>, after: seq<Event>, lost: nat)
  {
    && turns == Taken(turns, rest) + rest
    && |out + after| + lost == |before + EventsIn(Taken(turns, rest))|
    && (lost == 0 ==> out + after == before + EventsIn(Taken(turns, rest)))
  }

  lemma NothingTaken(events: seq<Event>, turns: seq<Turn>)
    ensures Accounted(events, turns, turns, [], events, 0)
  {
    assert turns[..0] == [] && [] + turns == turns;
    NoTurnsNoEvents();
    assert [] + events == events + [];
  }

  lemma OneTaken(before: seq<Event>, turns: seq<Turn>, out: seq<Event>, after: seq<Event>, lost: nat)
    requires turns != [] && |out + after| + lost == |before + EventOf(turns[0])|
    requires lost == 0 ==> out + after == before + EventOf(turns[0])
    ensures Accounted(before, turns, turns[1..], out, after, lost)
  {
    hide EventsIn;
    assert turns == turns[..1] + turns[1..];
    EventsFirst(turns, 1);
    assert turns[1..][..0] == [];
    NoTurnsNoEvents();
    assert EventOf(turns[0]) + [] == EventOf(turns[0]);
  }

  lemma AccountedThen(
    a: seq<Event>, s: seq<Turn>, t: seq<Turn>, out1: seq<Event>, b: seq<Event>, lost1: nat,
    u: seq<Turn>, out2: seq<Event>, c: seq<Event>, lost2: nat)
    requires Accounted(a, s, t, out1, b, lost1) && Accounted(b, t, u, out2, c, lost2)
    ensures Accounted(a, s, u, out1 + out2, c, lost1 + lost2)
    ensures Taken(s, u) == Taken(s, t) + Taken(t, u)
  {
    hide EventsIn;
    var r1, r2 := Taken(s, t), Taken(t, u);
    assert s == (r1 + r2) + u;
    assert Taken(s, u) == r1 + r2;
    EventsConcat(r1, r2);
    if lost1 + lost2 == 0 {
      calc {
        out1 + out2 + c;
        out1 + (out2 + c);
        out1 + (b + EventsIn(r2));
        (out1 + b) + EventsIn(r2);
        a + EventsIn(r1) + EventsIn(r2);
        a + (EventsIn(r1) + EventsIn(r2));
      }
    }
  }

  predicate Sent(o: Outcome) { o.Answered? || o.Unanswered? || o.Overflowed? }

  /** An answer is the last thing read, and carries the id it is given for. */
  predicate Genuine(o: Outcome, read: seq<Turn>) {
    o.Answered? ==> read != [] && read[|read| - 1] == Arrives(Reply(Some(o.id), o.body))
  }

  lemma {:induction false} AwaitReplyAccounts(id: u64, deadline: bool, events: seq<Event>, turns: seq<Turn>)
    requires |events| <= EVENT_QUEUE_CAPACITY
    ensures var (outcome, queue, rest) := AwaitReply(id, deadline, events, turns);
      && |queue| <= EVENT_QUEUE_CAPACITY && Sent(outcome) && outcome.id == id
      && Accounted(events, turns, rest, [], queue, Lost(outcome))
      && Genuine(outcome, Taken(turns, rest))
    decreases |turns|
  {
    hide EventsIn, Passes, Accounted;
    if turns == [] {
      NothingTaken(events, turns);
    } else if !Passes(turns[0], id, deadline) {
      NotPassing(id, deadline, events, turns);
      var outcome := AwaitReply(id, deadline, events, turns).0;
      assert turns[..1] == [turns[0]];
      OneTaken(events, turns, [], events, 0);
    } else {
      PassingTurn(id, deadline, events, turns);
      var more := events + EventOf(turns[0]);
      if |more| > EVENT_QUEUE_CAPACITY {
        OneTaken(events, turns, [], events, 1);
      } else {
        OneTaken(events, turns, [], more, 0);
        AwaitReplyAccounts(id, deadline, more, turns[1..]);
        var (outcome, queue, rest) := AwaitReply(id, deadline, more, turns[1..]);
        AccountedThen(events, turns, turns[1..], [], more, 0, rest, [], queue, Lost(outcome));
        var none: seq<Event> := [];
        assert none + none == none;
      }
    }
  }

  lemma {:induction false} AwaitEventAccounts(deadline: bool, turns: seq<Turn>)
    ensures var (outcome, rest) := AwaitEvent(deadline, turns);
      && Accounted([], turns, rest, DeliveredBy(outcome), [], 0)
      && (outcome.Delivered? || outcome.NoEvent? || outcome.EventError?)
      && (outcome.NoEvent? ==> deadline)
    decreases |turns|
  {
    hide EventsIn, Accounted;
    var none: seq<Event> := [];
    if turns == [] {
      NothingTaken([], turns);
    } else {
      var (outcome, rest) := AwaitEvent(deadline, turns);
      if turns[0].Breaks? || EventOf(turns[0]) != [] || (!turns[0].Arrives? && deadline) {
        OneTaken([], turns, DeliveredBy(outcome), [], 0);
      } else {
        OneTaken([], turns, [], [], 0);
        AwaitEventAccounts(deadline, turns[1..]);
        AccountedThen([], turns, turns[1..], [], [], 0, rest, DeliveredBy(outcome), [], 0);
        assert none + DeliveredBy(outcome) == DeliveredBy(outcome);
      }
    }
  }

  lemma PerformAccounts(c: Client, call: Call)
    requires Valid(c)
    ensures var (after, outcome) := Perform(c, call);
      && Valid(after)
      && Accounted(c.events, c.turns, after.turns, DeliveredBy(outcome), after.events, Lost(outcome))
      && Genuine(outcome, Taken(c.turns, after.turns))
  {
    hide EventsIn, AwaitReply, AwaitEvent, Accounted;
    NothingTaken(c.events, c.turns);
    match call
    case Execute(_, sendError, deadline) =>
      if c.nextId.Some? && sendError.None? { AwaitReplyAccounts(c.nextId.value, deadline, c.events, c.turns); }
    case NextEvent(zeroTimeout, deadline) =>
      if c.events != [] {
        PopAccounts(c.events, c.turns);
      } else if !zeroTimeout {
        AwaitEventAccounts(deadline, c.turns);
      }
  }

  lemma PopAccounts(events: seq<Event>, turns: seq<Turn>)
    requires events != []
    ensures Accounted(events, turns, turns, [events[0]], events[1..], 0)
  {
    NothingTaken(events, turns);
    assert [events[0]] + events[1..] == events;
  }

  /** Which id a call takes. */
  lemma PerformTakesNextId(c: Client, call: Call)
    requires Valid(c)
    ensures var (after, outcome) := Perform(c, call);
      if call.Execute? && c.nextId.Some? then
        Sent(outcome) && outcome.id == c.nextId.value && after.nextId == After(c.nextId.value)
      else !Sent(outcome) && after.nextId == c.nextId
  {
    hide AwaitReply, AwaitEvent;
    if call.Execute? && c.nextId.Some? { AwaitReplyAccounts(c.nextId.value, call.deadline, c.events, c.turns); }
    if call.NextEvent? { AwaitEventAccounts(call.deadline, c.turns); }
  }

  // ---------- whole runs ----------

  function Run(c: Client, calls: seq<Call>): (r: (Client, seq<Outcome>))
    ensures |r.1| == |calls|
    decreases |calls|
  {
    if calls == [] then (c, [])
    else
      var (next, first) := Perform(c, calls[0]);
      var (last, others) := Run(next, calls[1..]);
      (last, [first] + others)
  }

  function AllDelivered(outcomes: seq<Outcome>): seq<Event> {
    if outcomes == [] then [] else DeliveredBy(outcomes[0]) + AllDelivered(outcomes[1..])
  }

  function AllLost(outcomes: seq<Outcome>): nat {
    if outcomes == [] then 0 else Lost(outcomes[0]) + AllLost(outcomes[1..])
  }

  lemma {:induction false} RunAccounts(c: Client, calls: seq<Call>)
    requires Valid(c)
    ensures var (after, outcomes) := Run(c, calls);
      && Valid(after)
      && Accounted(c.events, c.turns, after.turns, AllDelivered(outcomes), after.events, AllLost(outcomes))
    decreases |calls|
  {
    hide Accounted, Perform;
    if calls == [] {
      NothingTaken(c.events, c.turns);
    } else {
      var (next, first) := Perform(c, calls[0]);
      var (last, others) := Run(next, calls[1..]);
      PerformAccounts(c, calls[0]);
      RunAccounts(next, calls[1..]);
      AccountedThen(c.events, c.turns, next.turns, DeliveredBy(first), next.events, Lost(first),
                    last.turns, AllDelivered(others), last.events, AllLost(others));
      assert ([first] + others)[1..] == others;
    }
  }

  /** In every run the events delivered, then those queued, are the events read,
      in order, exactly when no command ran into a full queue; each that did lost
      one event. */
  lemma EventsConserved(c: Client, calls: seq<Call>)
    requires Valid(c)
    ensures var (after, outcomes) := Run(c, calls);
      var read := EventsIn(Taken(c.turns, after.turns));
      && |after.events| <= EVENT_QUEUE_CAPACITY
      && c.turns == Taken(c.turns, after.turns) + after.turns
      && (AllDelivered(outcomes) + after.events == c.events + read <==> AllLost(outcomes) == 0)
      && |AllDelivered(outcomes) + after.events| + AllLost(outcomes) == |c.events + read|
  {
    hide EventsIn, Run, AllDelivered, AllLost;
    RunAccounts(c, calls);
  }

  /** The ids at or above the next one are free. */
  predicate Fresh(next: Option<u64>, id: u64) { next.Some? && next.value <= id }

  /** The ids that were taken are free ones, and ascend. */
  predicate IdsAscend(next: Option<u64>, outcomes: seq<Outcome>) {
    && (forall j | 0 <= j < |outcomes| && Sent(outcomes[j]) :: Fresh(next, outcomes[j].id))
    && (forall i, j | 0 <= i < j < |outcomes| && Sent(outcomes[i]) && Sent(outcomes[j]) ::
          outcomes[i].id < outcomes[j].id)
  }

  lemma IdsAscendFrom(before: Option<u64>, first: Outcome, next: Option<u64>, others: seq<Outcome>)
    requires IdsAscend(next, others)
    requires if Sent(first) then before == Some(first.id) && next == After(first.id) else next == before
    ensures IdsAscend(before, [first] + others)
  {
    var all := [first] + others;
    assert forall j | 0 < j < |all| :: all[j] == others[j - 1];
    forall j | 0 <= j < |all| && Sent(all[j])
      ensures Fresh(before, all[j].id) && (j > 0 && Sent(first) ==> first.id < all[j].id)
    {
      if j > 0 { assert Fresh(next, others[j - 1].id); }
    }
    forall i, j | 0 <= i < j < |all| && Sent(all[i]) && Sent(all[j]) ensures all[i].id < all[j].id {
      if i > 0 { assert others[i - 1].id < others[j - 1].id; }
    }
  }

  lemma {:induction false} RunIds(c: Client, calls: seq<Call>)
    requires Valid(c)
    ensures IdsAscend(c.nextId, Run(c, calls).1)
    decreases |calls|
  {
    hide Perform, IdsAscend;
    if calls == [] {
      NoIds(c.nextId);
    } else {
      var (next, first) := Perform(c, calls[0]);
      PerformAccounts(c, calls[0]);
      PerformTakesNextId(c, calls[0]);
      RunIds(next, calls[1..]);
      IdsAscendFrom(c.nextId, first, next.nextId, Run(next, calls[1..]).1);
    }
  }

  /** How many of the calls sent a command. */
  function SentCount(outcomes: seq<Outcome>): nat {
    if outcomes == [] then 0 else (if Sent(outcomes[0]) then 1 else 0) + SentCount(outcomes[1..])
  }

  /** Ids are handed out one by one: a command is sent exactly when fewer than the ids
      left were sent before it, and then carries the one whose turn it is. */
  lemma {:induction false} RunIdsExact(c: Client, calls: seq<Call>, j: nat)
    requires Valid(c) && j < |calls|
    ensures var outcome, before := Run(c, calls).1[j], SentCount(Run(c, calls).1[..j]);
      && (Sent(outcome) <==> calls[j].Execute? && c.nextId.Some? && c.nextId.value + before < U64_LIMIT)
      && (Sent(outcome) ==> outcome.id == c.nextId.value + before)
    decreases |calls|
  {
    hide Perform;
    var (next, first) := Perform(c, calls[0]);
    PerformAccounts(c, calls[0]);
    PerformTakesNextId(c, calls[0]);
    if j > 0 {
      RunIdsExact(next, calls[1..], j - 1);
      var rest := Run(next, calls[1..]).1;
      assert ([first] + rest)[..j] == [first] + rest[..j - 1];
      assert ([first] + rest[..j - 1])[1..] == rest[..j - 1];
    }
  }

  lemma NoIds(next: Option<u64>)
    ensures IdsAscend(next, [])
  {
  }

  /** Call `j` of a run starts where the calls before it end. */
  lemma {:induction false} RunAt(c: Client, calls: seq<Call>, j: nat)
    requires Valid(c) && j < |calls|
    ensures var before := Run(c, calls[..j]).0;
      && Valid(before)
      && Perform(before, calls[j]) == (Run(c, calls[..j + 1]).0, Run(c, calls).1[j])
    decreases |calls|
  {
    hide Perform;
    var (next, first) := Perform(c, calls[0]);
    PerformAccounts(c, calls[0]);
    assert calls[..j + 1][0] == calls[0] && calls[..j + 1][1..] == calls[1..][..j];
    if j > 0 {
      RunAt(next, calls[1..], j - 1);
      assert calls[..j][0] == calls[0] && calls[..j][1..] == calls[1..][..j - 1];
    } else {
      assert calls[..0] == [] && calls[1..][..0] == [];
    }
  }

  /** The turns that call `j` of a run consumes. */
  function TurnsOfCall(c: Client, calls: seq<Call>, j: nat): seq<Turn>
    requires j < |calls|
  {
    Taken(Run(c, calls[..j]).0.turns, Run(c, calls[..j + 1]).0.turns)
  }

  /** Any command of a run is answered only by a reply that carries its own id, the
      one that was next when it started, and is the last turn that it consumes. */
  lemma AnswersAreOwn(c: Client, calls: seq<Call>, j: nat)
    requires Valid(c) && j < |calls| && Run(c, calls).1[j].Answered?
    ensures var answer, read := Run(c, calls).1[j], TurnsOfCall(c, calls, j);
      && Run(c, calls[..j]).0.nextId == Some(answer.id)
      && read != [] && read[|read| - 1] == Arrives(Reply(Some(answer.id), answer.body))
  {
    hide Run, Perform, Accounted;
    RunAt(c, calls, j);
    PerformTakesNextId(Run(c, calls[..j]).0, calls[j]);
    PerformAccounts(Run(c, calls[..j]).0, calls[j]);
  }

  /** No id is used twice: with AnswersAreOwn, a late reply is never given to a later
      command. */
  lemma IdsDiffer(c: Client, calls: seq<Call>, i: nat, j: nat)
    requires Valid(c) && i < j < |calls| && Sent(Run(c, calls).1[i]) && Sent(Run(c, calls).1[j])
    ensures Run(c, calls).1[i].id != Run(c, calls).1[j].id
  {
    hide Run;
    RunIds(c, calls);
  }

  // ---------- the client ----------

  class QmpClient {
    var nextId: Option<u64>
    var events: seq<Event>
    var incoming: seq<Turn>

    /** A client as `initialize` leaves it before the greeting. */
    constructor (incoming: seq<Turn>)
      ensures State() == Client(Some(1), [], incoming) && Valid(State())
    {
      this.nextId := Some(1);
      this.events := [];
      this.incoming := incoming;
    }

    ghost function State(): Client
      reads this
    {
      Client(nextId, events, incoming)
    }

    method TakeRequestId() returns (id: Option<u64>)
      modifies this`nextId
      ensures id == old(nextId)
      ensures nextId == if id.Some? then After(id.value) else None
    {
      id := nextId;
      nextId := None;
      if id.Some? { nextId := After(id.value); }
    }

    method EnqueueEvent(event: Event) returns (ok: bool)
      modifies this`events
      ensures ok == (|old(events)| != 1024)
      ensures events == if ok then old(events) + [event] else old(events)
    {
      if |events| == EVENT_QUEUE_CAPACITY { return false; }
      events := events + [event];
      return true;
    }

    method TakeTurn() returns (turn: Turn)
      modifies this`incoming
      ensures old(incoming) == [] ==> turn == Breaks(CLOSED) && incoming == []
      ensures old(incoming) != [] ==> turn == old(incoming)[0] && incoming == old(incoming)[1..]
    {
      if incoming == [] { return Breaks(CLOSED); }
      turn := incoming[0];
      incoming := incoming[1..];
    }

    method Execute(command: string, sendError: Option<VmiError>, deadline: bool) returns (outcome: Outcome)
      requires Valid(State())
      modifies this
      ensures (State(), outcome) == Perform(old(State()), Call.Execute(command, sendError, deadline))
    {
      var taken := TakeRequestId();
      if taken.None? { return NotSent(EXHAUSTED); }
      var id := taken.value;
      if sendError.Some? { return Unanswered(id, sendError.value); }
      ghost var expected := AwaitReply(id, deadline, events, incoming);
      while true
        invariant nextId == After(id)
        invariant AwaitReply(id, deadline, events, incoming) == expected
        decreases |incoming|
      {
        var turn := TakeTurn();
        match turn
        case Breaks(e) => return Unanswered(id, e);
        case ReadTimesOut => return Unanswered(id, Timeout);
        case DeadlinePasses => if deadline { return Unanswered(id, Timeout); }
        case Arrives(Notification(e)) =>
          var queued := EnqueueEvent(e);
          if !queued { return Overflowed(id); }
        case Arrives(Reply(carried, body)) =>
          if carried == Some(id) { return Answered(id, body); }
      }
    }

    method NextEvent(zeroTimeout: bool, deadline: bool) returns (outcome: Outcome)
      requires Valid(State())
      modifies this`events, this`incoming
      ensures (State(), outcome) == Perform(old(State()), Call.NextEvent(zeroTimeout, deadline))
    {
      if events != [] {
        outcome := Delivered(events[0]);
        events := events[1..];
        return;
      }
      if zeroTimeout { return NoEvent; }
      ghost var expected := AwaitEvent(deadline, incoming);
      while true
        invariant events == [] && AwaitEvent(deadline, incoming) == expected
        decreases |incoming|
      {
        var turn := TakeTurn();
        match turn
        case Breaks(e) => return EventError(e);
        case Arrives(Notification(e)) => return Delivered(e);
        case Arrives(Reply(_, _)) =>
        case _ => if deadline { return NoEvent; }
      }
    }
  }
}
