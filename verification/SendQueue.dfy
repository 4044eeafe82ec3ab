/**
 The kernel's queue of messages to a service: at most one message is in flight; the others wait.  If the
 VPE of the service is not running, it has to be resumed first, which may switch to another thread; so
 several calls of `send_pending` can be under way, each holding the message that it took off the queue.
 */
module SendQueueSpec {
  type Id = nat
  type Event = nat

  /** The states of a VPE that matter here. */
  datatype Vpe = Running | Suspended | Dead

  datatype History = History(
    accepted: seq<Id>,           // all messages that got an event
    sent: seq<Id>,               // all messages that were sent
    answered: seq<Id>,           // messages whose reply was passed on
    dropped: seq<Id>,            // deleted without having been sent
    unheard: seq<Id>,            // in flight when the queue was aborted
    notified: seq<Event>,        // the events that were notified
    died: bool                   // a resume has failed
  )

  datatype Queue = Queue(
    queue: seq<Id>,
    inflight: int,               // -1 after an abort
    curEvent: Event,
    timer: bool,                 // `_timeout` is set
    nextId: Id,
    vpe: Vpe,
    timeouts: nat,               // the armed timeouts; `_timeout` only knows the last one
    held: seq<Id>,               // taken off the queue by a `send_pending` that waits for the VPE
    unanswered: seq<Id>,         // sent, but no reply yet
    hist: History
  )

  const TOP: nat := 0x8000_0000_0000_0000

  /** `get_event`: the id with the highest bit set. */
  function EventOf(id: Id): Event {
    if id % (2 * TOP) < TOP then TOP + id % (2 * TOP) else id % (2 * TOP)
  }

  function Init(vpe: Vpe, next: Id): Queue {
    Queue([], 0, 0, false, next, vpe, 0, [], [], History([], [], [], [], [], [], false))
  }

  // ---------------------------------------------------------------- operations

  function DoSend(q: Queue, id: Id): Queue {
    q.(curEvent := EventOf(id), inflight := q.inflight + 1, unanswered := q.unanswered + [id],
       hist := q.hist.(sent := q.hist.sent + [id]))
  }

  /** A new message gets the next id. */
  function Accepted(q: Queue): Queue {
    q.(nextId := q.nextId + 1, hist := q.hist.(accepted := q.hist.accepted + [q.nextId]))
  }

  /** `send`; the result is 0 if the queue was aborted. */
  function Send(q: Queue): (Queue, Event) {
    if q.inflight == -1 then (q, 0)
    else
      var id, q1 := q.nextId, Accepted(q);
      if q.vpe == Running && q.inflight == 0 then (DoSend(q1, id), EventOf(id))
      else
        var q2 := if q.vpe != Running && q.inflight == 0 then q1.(timer := true, timeouts := q1.timeouts + 1) else q1;
        (q2.(queue := q2.queue + [id]), EventOf(id))
  }

  /** The beginning of `send_pending`, up to the point where it may have to wait. */
  function BeginPending(q: Queue): Queue {
    var q1 := q.(timer := false);
    if q1.queue == [] then q1 else q1.(held := q1.held + [q1.queue[0]], queue := q1.queue[1..])
  }

  function Without(s: seq<Id>, i: nat): seq<Id>
    requires i < |s|
  {
    s[..i] + s[i + 1..]
  }

  /** The end of `send_pending`: the VPE is running. */
  function EndPending(q: Queue, i: nat): Queue
    requires i < |q.held|
  {
    var id, q1 := q.held[i], q.(held := Without(q.held, i));
    if q1.inflight != 0 then q1.(queue := q1.queue + [id]) else DoSend(q1, id)
  }

  /** The other end: the VPE cannot be resumed anymore. */
  function GiveUp(q: Queue, i: nat): Queue
    requires i < |q.held|
  {
    q.(held := Without(q.held, i), hist := q.hist.(dropped := q.hist.dropped + [q.held[i]], died := true))
  }

  /** The reply to the oldest unanswered message is passed on. */
  function Replied(q: Queue): Queue
    requires q.unanswered != []
  {
    q.(unanswered := q.unanswered[1..], hist := q.hist.(notified := q.hist.notified + [q.curEvent]))
  }

  /** It counts as an answer, unless the queue was aborted. */
  function Answered(q: Queue): Queue
    requires q.unanswered != []
  {
    Replied(q).(inflight := q.inflight - 1,
                hist := Replied(q).hist.(answered := q.hist.answered + [q.unanswered[0]]))
  }

  function ReceivedReply(q: Queue): Queue
    requires q.unanswered != []
  {
    if q.inflight != -1 then BeginPending(Answered(q)) else Replied(q)
  }

  function Abort(q: Queue): Queue {
    q.(inflight := -1, queue := [], timer := false,
       timeouts := if q.timer && q.timeouts > 0 then q.timeouts - 1 else q.timeouts,
       hist := q.hist.(notified := if q.inflight != 0 then q.hist.notified + [q.curEvent] else q.hist.notified,
                       dropped := q.hist.dropped + q.queue,
                       unheard := if q.inflight >= 0 then q.unanswered else q.hist.unheard))
  }

  // ---------------------------------------------------------------- runs

  datatype Step =
    | SSend
    | SOther                     // another queue takes an id from the common counter
    | STimeout
    | SResumed(i: nat)
    | SNotResumed(i: nat)
    | SReply
    | SAbort
    | SVpe(state: Vpe)

  predicate Enabled(q: Queue, s: Step) {
    match s
    case SSend => true
    case SOther => true
    case STimeout => q.timeouts > 0
    case SResumed(i) => i < |q.held| && q.vpe == Running
    case SNotResumed(i) => i < |q.held| && q.vpe != Running
    case SReply => q.unanswered != []
    case SAbort => true
    case SVpe(_) => true
  }

  function Next(q: Queue, s: Step): Queue
    requires Enabled(q, s)
  {
    match s
    case SSend => Send(q).0
    case SOther => q.(nextId := q.nextId + 1)
    case STimeout => BeginPending(q.(timeouts := q.timeouts - 1))
    case SResumed(i) => EndPending(q, i)
    case SNotResumed(i) => GiveUp(q, i)
    case SReply => ReceivedReply(q)
    case SAbort => Abort(q)
    case SVpe(state) => q.(vpe := state)
  }

  ghost predicate Run(q: Queue, steps: seq<Step>, q': Queue)
    decreases |steps|
  {
    if steps == [] then q == q' else Enabled(q, steps[0]) && Run(Next(q, steps[0]), steps[1..], q')
  }
}

module SendQueueProofs {
  import opened SendQueueSpec

  /** At most one message is in flight, and the current event is its event. */
  ghost predicate OneInFlight(q: Queue) {
    && -1 <= q.inflight <= 1
    && (q.inflight >= 0 ==> |q.unanswered| == q.inflight && q.hist.sent == q.hist.answered + q.unanswered && q.hist.unheard == [])
    && (q.inflight == -1 ==> q.hist.sent == q.hist.answered + q.hist.unheard)
    && (q.inflight == 1 ==> q.curEvent == EventOf(q.unanswered[0]))
  }

  /** Every accepted message was sent, waits, or was dropped: exactly one of these. */
  ghost predicate Conserved(q: Queue) {
    Balanced(q.hist.accepted, q.hist.sent, q.queue, q.held, q.hist.dropped)
  }

  ghost predicate Balanced(all: seq<Id>, a: seq<Id>, b: seq<Id>, c: seq<Id>, d: seq<Id>) {
    multiset(all) == multiset(a) + multiset(b) + multiset(c) + multiset(d)
  }

  /** Ids are given out in increasing order. */
  ghost predicate Increasing(q: Queue) {
    && (forall i :: 0 <= i < |q.hist.accepted| ==> q.hist.accepted[i] < q.nextId)
    && (forall i, j :: 0 <= i < j < |q.hist.accepted| ==> q.hist.accepted[i] < q.hist.accepted[j])
  }

  /** Nobody is forgotten: while messages wait, something is under way that will look at the queue again. */
  ghost predicate WakeUpPending(q: Queue) {
    q.queue != [] && q.inflight == 0 && !q.hist.died ==> q.timeouts > 0 || q.held != []
  }

  /** Messages are dropped only by an abort or because of the death of the VPE. */
  ghost predicate NothingDropped(q: Queue) {
    q.inflight >= 0 && !q.hist.died ==> q.hist.dropped == []
  }

  ghost predicate Inv(q: Queue) {
    OneInFlight(q) && Conserved(q) && Increasing(q) && WakeUpPending(q) && NothingDropped(q)
  }

  lemma WithoutKeeps(s: seq<Id>, i: nat)
    requires i < |s|
    ensures multiset(s) == multiset(Without(s, i)) + multiset{s[i]}
  {
    assert s == s[..i] + [s[i]] + s[i + 1..];
  }

  lemma SendOneInFlight(q: Queue, id: Id)
    requires OneInFlight(q) && q.inflight == 0
    ensures OneInFlight(DoSend(q, id))
  {
    assert q.hist.answered + q.unanswered + [id] == q.hist.answered + (q.unanswered + [id]);
  }

  /** One more message, which is sent or queued. */
  lemma OneMore(all: seq<Id>, a: seq<Id>, b: seq<Id>, c: seq<Id>, d: seq<Id>, id: Id)
    requires Balanced(all, a, b, c, d)
    ensures Balanced(all + [id], a + [id], b, c, d)
    ensures Balanced(all + [id], a, b + [id], c, d)
  {
  }

  lemma SendConserved(q: Queue)
    requires Conserved(q)
    ensures Conserved(Send(q).0)
  {
    OneMore(q.hist.accepted, q.hist.sent, q.queue, q.held, q.hist.dropped, q.nextId);
  }

  lemma SendIncreasing(q: Queue)
    requires Increasing(q)
    ensures Increasing(Send(q).0)
  {
    var q' := Send(q).0;
    if q.inflight != -1 {
      assert q'.hist.accepted == q.hist.accepted + [q.nextId] && q'.nextId == q.nextId + 1;
    }
  }

  lemma SendKeeps(q: Queue)
    requires Inv(q)
    ensures Inv(Send(q).0)
  {
    SendConserved(q);
    SendIncreasing(q);
    assert OneInFlight(Send(q).0) by {
      if q.vpe == Running && q.inflight == 0 {
        SendOneInFlight(Accepted(q), q.nextId);
      }
    }
  }

  lemma BeginKeeps(q: Queue)
    requires OneInFlight(q) && Conserved(q) && Increasing(q) && NothingDropped(q)
    ensures Inv(BeginPending(q))
  {
    if q.queue != [] {
      assert q.queue == [q.queue[0]] + q.queue[1..];
    }
  }

  lemma EndConserved(q: Queue, i: nat)
    requires OneInFlight(q) && Conserved(q) && i < |q.held|
    ensures Conserved(EndPending(q, i))
  {
    WithoutKeeps(q.held, i);
  }

  lemma EndKeeps(q: Queue, i: nat)
    requires Inv(q) && i < |q.held|
    ensures Inv(EndPending(q, i))
  {
    var q1 := q.(held := Without(q.held, i));
    assert Conserved(EndPending(q, i)) by { EndConserved(q, i); }
    if q.inflight == 0 {
      SendOneInFlight(q1, q.held[i]);
    } else {
      assert EndPending(q, i) == q1.(queue := q1.queue + [q.held[i]]);
    }
  }

  lemma GiveUpKeeps(q: Queue, i: nat)
    requires Inv(q) && i < |q.held|
    ensures Inv(GiveUp(q, i))
  {
    WithoutKeeps(q.held, i);
  }

  lemma AnsweredKeeps(q: Queue)
    requires Inv(q) && q.unanswered != [] && q.inflight != -1
    ensures var q1 := Answered(q);
            OneInFlight(q1) && Conserved(q1) && Increasing(q1) && NothingDropped(q1)
  {
    var id := q.unanswered[0];
    assert q.unanswered == [id] + q.unanswered[1..];
    assert q.hist.answered + q.unanswered == (q.hist.answered + [id]) + q.unanswered[1..];
  }

  lemma ReplyKeeps(q: Queue)
    requires Inv(q) && q.unanswered != []
    ensures Inv(ReceivedReply(q))
  {
    if q.inflight != -1 {
      AnsweredKeeps(q);
      BeginKeeps(Answered(q));
    }
  }

  lemma AbortConserved(q: Queue)
    requires Conserved(q)
    ensures Conserved(Abort(q))
  {
    var q' := Abort(q);
    assert q'.hist.dropped == q.hist.dropped + q.queue && q'.queue == [] && q'.hist.sent == q.hist.sent && q'.held == q.held;
  }

  lemma AbortKeeps(q: Queue)
    requires Inv(q)
    ensures Inv(Abort(q))
  {
    AbortConserved(q);
    var q' := Abort(q);
    assert q'.hist.accepted == q.hist.accepted && q'.nextId == q.nextId && q'.hist.sent == q.hist.sent && q'.hist.answered == q.hist.answered;
  }

  /** Another queue takes an id, a timeout is taken off the list, or the VPE changes its state. */
  lemma ElsewhereKeeps(q: Queue, next: Id, timeouts: nat, vpe: Vpe)
    requires OneInFlight(q) && Conserved(q) && Increasing(q) && NothingDropped(q) && next >= q.nextId
    ensures var q' := q.(nextId := next, timeouts := timeouts, vpe := vpe);
            OneInFlight(q') && Conserved(q') && Increasing(q') && NothingDropped(q')
  {
  }

  lemma StepKeeps(q: Queue, s: Step)
    requires Inv(q) && Enabled(q, s)
    ensures Inv(Next(q, s))
  {
    match s
    case SSend => SendKeeps(q);
    case SOther => ElsewhereKeeps(q, q.nextId + 1, q.timeouts, q.vpe);
    case STimeout =>
      ElsewhereKeeps(q, q.nextId, q.timeouts - 1, q.vpe);
      BeginKeeps(q.(timeouts := q.timeouts - 1));
    case SResumed(i) => EndKeeps(q, i);
    case SNotResumed(i) => GiveUpKeeps(q, i);
    case SReply => ReplyKeeps(q);
    case SAbort => AbortKeeps(q);
    case SVpe(state) => ElsewhereKeeps(q, q.nextId, q.timeouts, state);
  }

  lemma {:induction false} RunKeeps(q: Queue, steps: seq<Step>, q': Queue)
    requires Inv(q) && Run(q, steps, q')
    ensures Inv(q')
    decreases |steps|
  {
    if steps != [] {
      StepKeeps(q, steps[0]);
      RunKeeps(Next(q, steps[0]), steps[1..], q');
    }
  }

  // ---------------------------------------------------------------- theorems

  /** In every run there is never more than one message in flight, and the current event is that of the message. */
  lemma NeverTwoInFlight(vpe: Vpe, next: Id, steps: seq<Step>, q: Queue)
    requires Run(Init(vpe, next), steps, q)
    ensures q.inflight >= 0 ==> q.inflight == |q.unanswered| <= 1
    ensures q.inflight == 1 ==> q.curEvent == EventOf(q.unanswered[0])
  {
    RunKeeps(Init(vpe, next), steps, q);
  }

  /** Messages are sent only while the VPE is running. */
  lemma SendsOnlyToRunning(q: Queue, s: Step)
    requires Enabled(q, s) && |Next(q, s).hist.sent| != |q.hist.sent|
    ensures q.vpe == Running && q.inflight == 0
    ensures exists id :: Next(q, s).hist.sent == q.hist.sent + [id]
  {
    if s.SSend? {
      assert Next(q, s).hist.sent == q.hist.sent + [q.nextId];
    } else {
      assert s.SResumed?;
      assert Next(q, s).hist.sent == q.hist.sent + [q.held[s.i]];
    }
  }

  lemma {:induction false} AcceptedOnce(q: Queue, id: Id)
    requires Increasing(q)
    ensures multiset(q.hist.accepted)[id] <= 1
  {
    if multiset(q.hist.accepted)[id] > 1 {
      CountAtLeastTwo(q.hist.accepted, id);
    }
  }

  /** An element that occurs more than once is at two places. */
  lemma {:induction false} CountAtLeastTwo(s: seq<Id>, id: Id)
    requires multiset(s)[id] > 1
    ensures exists i, j :: 0 <= i < j < |s| && s[i] == id && s[j] == id
  {
    var last := |s| - 1;
    assert s == s[..last] + [s[last]];
    if s[last] == id {
      assert id in multiset(s[..last]);
      var i :| 0 <= i < last && s[..last][i] == id;
      assert s[i] == id;
    } else {
      CountAtLeastTwo(s[..last], id);
      var i, j :| 0 <= i < j < last && s[..last][i] == id && s[..last][j] == id;
      assert s[i] == id && s[j] == id;
    }
  }

  /**
   In every run, every accepted message is exactly one of: waiting in the queue, held by a `send_pending`,
   in flight, answered, or lost.  Messages are lost only by an abort or by the death of the VPE, and none is
   ever sent twice.
   */
  lemma ExactlyOneFate(vpe: Vpe, next: Id, steps: seq<Step>, q: Queue, id: Id)
    requires Run(Init(vpe, next), steps, q) && id in q.hist.accepted
    ensures multiset(q.queue)[id] + multiset(q.held)[id] + (if q.inflight >= 0 then multiset(q.unanswered)[id] else 0)
            + multiset(q.hist.answered)[id] + multiset(q.hist.dropped)[id] + multiset(q.hist.unheard)[id] == 1
    ensures q.inflight >= 0 && !q.hist.died ==> q.hist.dropped == [] && q.hist.unheard == []
    ensures multiset(q.hist.sent)[id] + multiset(q.queue)[id] + multiset(q.held)[id] + multiset(q.hist.dropped)[id] == 1
  {
    RunKeeps(Init(vpe, next), steps, q);
    AcceptedOnce(q, id);
    assert id in multiset(q.hist.accepted);
    assert q.inflight >= 0 ==> multiset(q.hist.sent) == multiset(q.hist.answered) + multiset(q.unanswered);
    assert q.inflight == -1 ==> multiset(q.hist.sent) == multiset(q.hist.answered) + multiset(q.hist.unheard);
  }

  /** The messages whose senders were told how it went, in order; an abort tells the one in flight. */
  ghost function Settled(q: Queue): seq<Id> {
    if q.inflight >= 0 then q.hist.answered else q.hist.answered + q.hist.unheard
  }

  /** The events that were notified are those of the settled messages; after an abort there may be others behind them. */
  ghost predicate Notified(q: Queue) {
    && |Settled(q)| <= |q.hist.notified|
    && (forall i :: 0 <= i < |Settled(q)| ==> q.hist.notified[i] == EventOf(Settled(q)[i]))
    && (q.inflight >= 0 ==> |q.hist.notified| == |q.hist.answered|)
  }

  lemma StepNotifies(q: Queue, s: Step)
    requires Inv(q) && Notified(q) && Enabled(q, s)
    ensures Notified(Next(q, s))
  {
  }

  lemma {:induction false} RunNotifies(q: Queue, steps: seq<Step>, q': Queue)
    requires Inv(q) && Notified(q) && Run(q, steps, q')
    ensures Notified(q')
    decreases |steps|
  {
    if steps != [] {
      StepKeeps(q, steps[0]);
      StepNotifies(q, steps[0]);
      RunNotifies(Next(q, steps[0]), steps[1..], q');
    }
  }

  /**
   In every run, each reply wakes up the waiter of the message that it answers, once and in the order of sending,
   and nobody else is woken up before an abort.  An abort wakes up the waiter of the message in flight.
   */
  lemma RepliesReachWaiters(vpe: Vpe, next: Id, steps: seq<Step>, q: Queue)
    requires Run(Init(vpe, next), steps, q)
    ensures Notified(q)
    ensures q.inflight >= 0 ==> Settled(q) == q.hist.answered <= q.hist.sent
    ensures q.inflight == -1 ==> Settled(q) == q.hist.sent
  {
    RunKeeps(Init(vpe, next), steps, q);
    RunNotifies(Init(vpe, next), steps, q);
  }

  /** Different ids have different events, as long as the counter has not used up half of its values. */
  lemma EventsDiffer(a: Id, b: Id)
    requires a < TOP && b < TOP
    ensures EventOf(a) == EventOf(b) <==> a == b
    ensures EventOf(a) == TOP + a
  {
  }

  /** The event of a message is its id with the highest bit set, also behind the end of the counter. */
  lemma EventIsMarked(id: Id)
    ensures TOP <= EventOf(id) < 2 * TOP && EventOf(id) % TOP == id % TOP
  {
  }

  // ---------------------------------------------------------------- aborts and timeouts

  /** Only an abort aborts the queue; before it, a reply and nothing else makes room for the next message. */
  lemma InFlightExactly(q: Queue, s: Step)
    requires Inv(q) && Enabled(q, s)
    ensures Next(q, s).inflight == -1 <==> q.inflight == -1 || s.SAbort?
    ensures q.inflight == 1 ==> (Next(q, s).inflight == 0 <==> s.SReply?)
    ensures q.inflight == 0 ==> (Next(q, s).inflight == 1 <==> |Next(q, s).hist.sent| == |q.hist.sent| + 1)
  {
  }

  /** The first abort tells the waiter of the message in flight, if there is one, and nobody else; all queued messages are dropped. */
  lemma AbortExactly(q: Queue)
    requires Inv(q) && q.inflight >= 0
    ensures var q' := Next(q, SAbort);
            && q'.hist.notified == q.hist.notified + (if q.inflight == 1 then [EventOf(q.unanswered[0])] else [])
            && q'.hist.dropped == q.hist.dropped + q.queue && q'.queue == [] && q'.held == q.held
  {
  }

  /** The timeouts that a step arms, minus those that fire or are cancelled. */
  function Arms(q: Queue, s: Step): int {
    match s
    case SSend => if q.inflight == 0 && q.vpe != Running then 1 else 0
    case STimeout => -1
    case SAbort => if q.timer then -1 else 0
    case _ => 0
  }

  /** `_timeout` is set from arming a timeout until the queue is looked at again or aborted, and is a timeout that is armed. */
  ghost predicate TimerOk(q: Queue) {
    q.timer ==> q.timeouts > 0
  }

  lemma TimeoutsExactly(q: Queue, s: Step)
    requires TimerOk(q) && Enabled(q, s)
    ensures var q' := Next(q, s);
            && q'.timeouts == q.timeouts + Arms(q, s)
            && (q'.timer <==> Arms(q, s) == 1 || (q.timer && !s.STimeout? && !s.SAbort? && !(s.SReply? && q.inflight != -1)))
    ensures TimerOk(Next(q, s))
  {
  }

  function RunArms(q: Queue, steps: seq<Step>): int
    decreases |steps|
  {
    if steps == [] || !Enabled(q, steps[0]) then 0 else Arms(q, steps[0]) + RunArms(Next(q, steps[0]), steps[1..])
  }

  lemma {:induction false} RunArmsTimeouts(q: Queue, steps: seq<Step>, q': Queue)
    requires TimerOk(q) && Run(q, steps, q')
    ensures q'.timeouts == q.timeouts + RunArms(q, steps) && TimerOk(q')
    decreases |steps|
  {
    if steps != [] {
      TimeoutsExactly(q, steps[0]);
      RunArmsTimeouts(Next(q, steps[0]), steps[1..], q');
    }
  }

  /** In every run, as many timeouts are pending as were armed and neither fired nor were cancelled; an abort finds its one. */
  lemma TimeoutsBalance(vpe: Vpe, next: Id, steps: seq<Step>, q: Queue)
    requires Run(Init(vpe, next), steps, q)
    ensures q.timeouts == RunArms(Init(vpe, next), steps) && (q.timer ==> q.timeouts > 0)
    ensures !q.hist.died || exists i :: 0 <= i < |steps| && steps[i].SNotResumed?
  {
    RunArmsTimeouts(Init(vpe, next), steps, q);
    DiedBecause(Init(vpe, next), steps, q);
  }

  lemma {:induction false} DiedBecause(q: Queue, steps: seq<Step>, q': Queue)
    requires Run(q, steps, q')
    ensures q'.hist.died ==> q.hist.died || exists i :: 0 <= i < |steps| && steps[i].SNotResumed?
    decreases |steps|
  {
    if steps != [] && q'.hist.died && !q.hist.died {
      DiedBecause(Next(q, steps[0]), steps[1..], q');
      if !steps[0].SNotResumed? {
        var i :| 0 <= i < |steps[1..]| && steps[1..][i].SNotResumed?;
        assert steps[i + 1].SNotResumed?;
      }
    }
  }

  // ---------------------------------------------------------------- what the senders wait for

  /** `send` accepts one message, unless the queue was aborted, and returns the event of this message. */
  lemma SendReturnsOwnEvent(q: Queue)
    ensures var (q', e) := Send(q);
            if q.inflight == -1 then q' == q && e == 0
            else q'.hist.accepted == q.hist.accepted + [q.nextId] && e == EventOf(q.nextId) && q'.nextId == q.nextId + 1
  {
  }

  /** The events that the calls of `send` in a run return, without those that were refused. */
  function Returned(q: Queue, steps: seq<Step>): seq<Event>
    decreases |steps|
  {
    if steps == [] || !Enabled(q, steps[0]) then []
    else (if steps[0].SSend? && q.inflight != -1 then [Send(q).1] else []) + Returned(Next(q, steps[0]), steps[1..])
  }

  /** A list of events for a list of messages. */
  ghost predicate EventsOf(events: seq<Event>, ids: seq<Id>) {
    |events| == |ids| && forall i :: 0 <= i < |ids| ==> events[i] == EventOf(ids[i])
  }

  lemma OnlySendAccepts(q: Queue, s: Step)
    requires Enabled(q, s)
    ensures Next(q, s).hist.accepted == q.hist.accepted + if s.SSend? && q.inflight != -1 then [q.nextId] else []
  {
    if s.SSend? {
      SendReturnsOwnEvent(q);
    }
  }

  lemma {:induction false} RunReturns(q: Queue, steps: seq<Step>, q': Queue)
    requires Run(q, steps, q')
    ensures q.hist.accepted <= q'.hist.accepted
    ensures EventsOf(Returned(q, steps), q'.hist.accepted[|q.hist.accepted|..])
    decreases |steps|
  {
    if steps != [] {
      OnlySendAccepts(q, steps[0]);
      SendReturnsOwnEvent(q);
      var n, k := Next(q, steps[0]), |q.hist.accepted|;
      RunReturns(n, steps[1..], q');
      if |n.hist.accepted| > k {
        assert q'.hist.accepted[k..] == [q.nextId] + q'.hist.accepted[k + 1..];
      }
    }
  }

  /**
   In every run, the call of `send` for an accepted message returned the event of this message; if it was answered, its
   waiter was notified.
   */
  lemma AnsweredAreTold(vpe: Vpe, next: Id, steps: seq<Step>, q: Queue, i: nat)
    requires Run(Init(vpe, next), steps, q) && i < |q.hist.accepted|
    ensures |Returned(Init(vpe, next), steps)| == |q.hist.accepted|
    ensures Returned(Init(vpe, next), steps)[i] == EventOf(q.hist.accepted[i])
    ensures q.hist.accepted[i] in q.hist.answered ==> Returned(Init(vpe, next), steps)[i] in q.hist.notified
  {
    RunReturns(Init(vpe, next), steps, q);
    assert q.hist.accepted[0..] == q.hist.accepted;
    RepliesReachWaiters(vpe, next, steps, q);
    if q.hist.accepted[i] in q.hist.answered {
      var k :| 0 <= k < |q.hist.answered| && q.hist.answered[k] == q.hist.accepted[i];
      assert Settled(q)[k] == q.hist.answered[k];
    }
  }

  /** `send_pending` takes the oldest message off the queue and sends this one, or puts it behind the others. */
  lemma PendingTakesOldest(q: Queue, i: nat)
    ensures q.queue != [] ==> BeginPending(q).held == q.held + [q.queue[0]] && BeginPending(q).queue == q.queue[1..]
    ensures q.queue == [] ==> BeginPending(q).held == q.held && BeginPending(q).queue == []
    ensures i < |q.held| ==>
              var q' := EndPending(q, i);
              if q.inflight == 0 then
                && q'.hist.sent == q.hist.sent + [q.held[i]] && q'.queue == q.queue && q'.curEvent == EventOf(q.held[i])
              else q'.hist.sent == q.hist.sent && q'.queue == q.queue + [q.held[i]]
  {
  }

  /** Event 0, which belongs to no message, or that of a message that was sent. */
  ghost predicate OfSent(q: Queue, e: Event) {
    e == 0 || exists id :: id in q.hist.sent && EventOf(id) == e
  }

  ghost predicate NotifiesSent(q: Queue) {
    OfSent(q, q.curEvent) && forall i :: 0 <= i < |q.hist.notified| ==> OfSent(q, q.hist.notified[i])
  }

  /** More messages were sent; the current event is the old one or that of one of them. */
  lemma MoreSent(q: Queue, q': Queue)
    requires NotifiesSent(q) && q.hist.sent <= q'.hist.sent && OfSent(q', q'.curEvent)
    requires q'.hist.notified == q.hist.notified || q'.hist.notified == q.hist.notified + [q.curEvent]
    ensures NotifiesSent(q')
  {
    forall e | OfSent(q, e) ensures OfSent(q', e) {
      if e != 0 {
        var id :| id in q.hist.sent && EventOf(id) == e;
        assert id in q'.hist.sent;
      }
    }
  }

  lemma StepNotifiesSent(q: Queue, s: Step)
    requires NotifiesSent(q) && Enabled(q, s)
    ensures NotifiesSent(Next(q, s))
  {
    var q' := Next(q, s);
    if q'.hist.sent == q.hist.sent {
      assert OfSent(q', q.curEvent);
    } else {
      SendsOnlyToRunning(q, s);
      var id := q'.hist.sent[|q.hist.sent|];
      assert id in q'.hist.sent && q'.curEvent == EventOf(id);
    }
    MoreSent(q, q');
  }

  lemma {:induction false} RunNotifiesSent(q: Queue, steps: seq<Step>, q': Queue)
    requires NotifiesSent(q) && Run(q, steps, q')
    ensures NotifiesSent(q')
    decreases |steps|
  {
    if steps != [] {
      StepNotifiesSent(q, steps[0]);
      RunNotifiesSent(Next(q, steps[0]), steps[1..], q');
    }
  }

  lemma DroppedIsNotSent(q: Queue, id: Id, other: Id)
    requires Inv(q) && id in q.hist.dropped && other in q.hist.sent
    ensures id != other && id < q.nextId && other < q.nextId
  {
    AcceptedOnce(q, id);
    assert id in multiset(q.hist.dropped) && other in multiset(q.hist.sent);
    assert id in multiset(q.hist.accepted) && other in multiset(q.hist.accepted);
    assert id in q.hist.accepted && other in q.hist.accepted;
  }

  /** Nobody is told about a message that was dropped: a thread that waits for it is not woken up. */
  lemma DroppedAreNotTold(vpe: Vpe, next: Id, steps: seq<Step>, q: Queue, id: Id)
    requires Run(Init(vpe, next), steps, q) && id in q.hist.dropped && q.nextId <= TOP
    ensures EventOf(id) !in q.hist.notified
  {
    RunKeeps(Init(vpe, next), steps, q);
    RunNotifiesSent(Init(vpe, next), steps, q);
    if EventOf(id) in q.hist.notified {
      var i :| 0 <= i < |q.hist.notified| && q.hist.notified[i] == EventOf(id);
      assert OfSent(q, q.hist.notified[i]);
      var other :| other in q.hist.sent && EventOf(other) == EventOf(id);
      DroppedIsNotSent(q, id, other);
      EventsDiffer(id, other);
    }
  }

  /** A message that waits in the queue of a living VPE is not forgotten. */
  lemma NotForgotten(vpe: Vpe, next: Id, steps: seq<Step>, q: Queue)
    requires Run(Init(vpe, next), steps, q) && q.queue != [] && q.inflight >= 0 && !q.hist.died
    ensures q.inflight == 1 || q.timeouts > 0 || q.held != []
  {
    RunKeeps(Init(vpe, next), steps, q);
  }
}

module SendQueue {
  import opened SendQueueSpec
  import Proofs = SendQueueProofs

  class SendQueue {
    var queue: seq<Id>
    var inflight: int
    var curEvent: Event
    var timer: bool
    var nextId: Id
    var vpe: Vpe
    var timeouts: nat
    var held: seq<Id>
    ghost var unanswered: seq<Id>
    ghost var hist: History

    ghost function State(): Queue
      reads this
    {
      Queue(queue, inflight, curEvent, timer, nextId, vpe, timeouts, held, unanswered, hist)
    }

    constructor (vpe: Vpe, next: Id)
      ensures State() == Init(vpe, next) && Proofs.Inv(State())
    {
      queue, inflight, curEvent, timer, nextId, this.vpe, timeouts, held := [], 0, 0, false, next, vpe, 0, [];
      unanswered, hist := [], History([], [], [], [], [], [], false);
    }

    method DoSend(id: Id) returns (e: Event)
      modifies this
      ensures State() == SendQueueSpec.DoSend(old(State()), id) && e == EventOf(id)
    {
      curEvent := EventOf(id);
      inflight := inflight + 1;
      unanswered, hist := unanswered + [id], hist.(sent := hist.sent + [id]);
      return curEvent;
    }

    method Send() returns (e: Event)
      modifies this
      ensures (State(), e) == SendQueueSpec.Send(old(State()))
      ensures Proofs.Inv(old(State())) ==> Proofs.Inv(State())
    {
      if Proofs.Inv(State()) {
        Proofs.SendKeeps(State());
      }
      if inflight == -1 {
        return 0;
      }
      var id := nextId;
      nextId, hist := nextId + 1, hist.(accepted := hist.accepted + [id]);
      if vpe == Running && inflight == 0 {
        e := DoSend(id);
        return;
      }
      if vpe != Running && inflight == 0 {
        timer, timeouts := true, timeouts + 1;
      }
      queue := queue + [id];
      return EventOf(id);
    }

    /** `send_pending` until the VPE has to be resumed. */
    method BeginPending()
      modifies this
      ensures State() == SendQueueSpec.BeginPending(old(State()))
      ensures Proofs.Inv(old(State())) ==> Proofs.Inv(State())
    {
      if Proofs.Inv(State()) {
        Proofs.BeginKeeps(State());
      }
      timer := false;
      if |queue| == 0 {
        return;
      }
      held := held + [queue[0]];
      queue := queue[1..];
    }

    /** `send_pending` once the VPE is running. */
    method EndPending(i: nat)
      requires i < |held| && vpe == Running
      modifies this
      ensures State() == SendQueueSpec.EndPending(old(State()), i)
      ensures Proofs.Inv(old(State())) ==> Proofs.Inv(State())
    {
      if Proofs.Inv(State()) {
        Proofs.EndKeeps(State(), i);
      }
      var id := held[i];
      held := Without(held, i);
      if inflight != 0 {
        queue := queue + [id];
        return;
      }
      var _ := DoSend(id);
    }

    method ReceivedReply()
      requires unanswered != [] && (inflight != -1 ==> inflight > 0)
      modifies this
      ensures State() == SendQueueSpec.ReceivedReply(old(State()))
      ensures Proofs.Inv(old(State())) ==> Proofs.Inv(State())
    {
      if Proofs.Inv(State()) {
        Proofs.ReplyKeeps(State());
      }
      ghost var id := unanswered[0];
      unanswered, hist := unanswered[1..], hist.(notified := hist.notified + [curEvent]);
      if inflight != -1 {
        inflight, hist := inflight - 1, hist.(answered := hist.answered + [id]);
        BeginPending();
      }
    }

    method Abort()
      modifies this
      ensures State() == SendQueueSpec.Abort(old(State()))
      ensures Proofs.Inv(old(State())) ==> Proofs.Inv(State())
    {
      if Proofs.Inv(State()) {
        Proofs.AbortKeeps(State());
      }
      if inflight != 0 {
        hist := hist.(notified := hist.notified + [curEvent]);
      }
      hist := hist.(dropped := hist.dropped + queue, unheard := if inflight >= 0 then unanswered else hist.unheard);
      inflight := -1;
      queue := [];
      if timer {
        timeouts, timer := if timeouts > 0 then timeouts - 1 else timeouts, false;
      }
    }
  }
}
