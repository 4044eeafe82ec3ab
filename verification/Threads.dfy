/**
 Cooperative threads: the current thread gives up the processor to wait for an event, to let a woken
 thread run, or because it is done.  Threads that are not needed sleep until another one has to wait.
 */
module ThreadSpec {
  import opened Options

  type Thread = nat
  type Event = nat
  type Message = Option<seq<int>>      // no message is a null pointer

  datatype Sched = Sched(
    current: Thread,
    ready: seq<Thread>,
    blocked: seq<Thread>,
    sleep: seq<Thread>,
    event: map<Thread, Event>,         // what a thread subscribed to last
    msg: map<Thread, Message>,         // what it was woken up with last
    alive: set<Thread>,                // history: all threads that were not stopped
    woken: seq<Thread>,                // history: in the order of their notification
    resumed: seq<Thread>               // history: in the order in which they got the processor again
  )

  function Init(main: Thread): Sched {
    Sched(main, [], [], [], map[], map[], {main}, [], [])
  }

  // ---------------------------------------------------------------- operations

  function EventOf(s: Sched, t: Thread): Event {
    if t in s.event then s.event[t] else 0
  }

  /** A new thread sleeps. */
  function Add(s: Sched, t: Thread): Sched {
    s.(sleep := s.sleep + [t], alive := s.alive + {t})
  }

  /** Switches to a ready thread, if there is one, and to a sleeping one otherwise. */
  function SwitchAway(s: Sched): Sched
    requires s.ready != [] || s.sleep != []
  {
    if s.ready != []
    then s.(current := s.ready[0], ready := s.ready[1..], resumed := s.resumed + [s.ready[0]])
    else s.(current := s.sleep[0], sleep := s.sleep[1..])
  }

  /** `wait_for`; without a sleeping thread, the program panics. */
  function WaitFor(s: Sched, e: Event): Sched
    requires s.sleep != []
  {
    SwitchAway(s.(event := s.event[s.current := e], blocked := s.blocked + [s.current]))
  }

  function Yield(s: Sched): Sched {
    if s.ready != [] then SwitchAway(s.(sleep := [s.current] + s.sleep)) else s
  }

  function Stop(s: Sched): Sched
    requires s.ready != [] || s.sleep != []
  {
    SwitchAway(s.(alive := s.alive - {s.current}))
  }

  function Woken(s: Sched, t: Thread, m: Message): Sched {
    s.(msg := s.msg[t := m], ready := s.ready + [t], woken := s.woken + [t])
  }

  /** The loop of `notify` over the blocked threads `rest`: those who wait for the event become ready. */
  function WakeUp(s: Sched, rest: seq<Thread>, e: Event, m: Message): Sched
    decreases |rest|
  {
    if rest == [] then s
    else
      var t := rest[0];
      WakeUp(if EventOf(s, t) == e then Woken(s, t, m) else s.(blocked := s.blocked + [t]), rest[1..], e, m)
  }

  function Notify(s: Sched, e: Event, m: Message): Sched {
    WakeUp(s.(blocked := []), s.blocked, e, m)
  }

  // ---------------------------------------------------------------- runs

  datatype Step = SAdd(t: Thread) | SWaitFor(e: Event) | SYield | SStop | SNotify(e: Event, m: Message)

  predicate Enabled(s: Sched, step: Step) {
    match step
    case SAdd(t) => t !in s.alive
    case SWaitFor(_) => s.sleep != []
    case SYield => true
    case SStop => s.ready != [] || s.sleep != []
    case SNotify(_, _) => true
  }

  function Next(s: Sched, step: Step): Sched
    requires Enabled(s, step)
  {
    match step
    case SAdd(t) => Add(s, t)
    case SWaitFor(e) => WaitFor(s, e)
    case SYield => Yield(s)
    case SStop => Stop(s)
    case SNotify(e, m) => Notify(s, e, m)
  }

  ghost predicate Run(s: Sched, steps: seq<Step>, s': Sched)
    decreases |steps|
  {
    if steps == [] then s == s' else Enabled(s, steps[0]) && Run(Next(s, steps[0]), steps[1..], s')
  }
}

module ThreadProofs {
  import opened ThreadSpec

  /** Every living thread is in exactly one place, and woken threads wait for the processor in order. */
  ghost predicate Inv(s: Sched) {
    && multiset{s.current} + multiset(s.ready) + multiset(s.blocked) + multiset(s.sleep) == multiset(s.alive)
    && s.woken == s.resumed + s.ready
  }

  lemma {:induction false} WakeUpKeeps(s: Sched, rest: seq<Thread>, e: Event, m: Message)
    requires multiset{s.current} + multiset(s.ready) + multiset(s.blocked) + multiset(rest) + multiset(s.sleep) == multiset(s.alive)
    requires s.woken == s.resumed + s.ready
    ensures Inv(WakeUp(s, rest, e, m))
    decreases |rest|
  {
    if rest != [] {
      var t := rest[0];
      assert rest == [t] + rest[1..];
      var n := if EventOf(s, t) == e then Woken(s, t, m) else s.(blocked := s.blocked + [t]);
      WakeUpKeeps(n, rest[1..], e, m);
    }
  }

  /** What becomes of one thread. */
  lemma {:induction false} WakeUpThread(s: Sched, rest: seq<Thread>, e: Event, m: Message, t: Thread)
    ensures var n := WakeUp(s, rest, e, m);
            && n.event == s.event && n.current == s.current
            && (t in s.ready ==> t in n.ready) && (t in s.blocked ==> t in n.blocked)
            && (t in rest ==> if EventOf(s, t) == e then t in n.ready && t in n.msg && n.msg[t] == m else t in n.blocked)
            && (t !in rest && t in s.msg ==> t in n.msg && n.msg[t] == s.msg[t])
            && (t in s.msg && s.msg[t] == m ==> t in n.msg && n.msg[t] == m)
    decreases |rest|
  {
    if rest != [] {
      assert t in rest <==> t == rest[0] || t in rest[1..];
      var n := if EventOf(s, rest[0]) == e then Woken(s, rest[0], m) else s.(blocked := s.blocked + [rest[0]]);
      WakeUpThread(n, rest[1..], e, m, t);
    }
  }

  lemma SwitchKeeps(s: Sched)
    requires s.ready != [] || s.sleep != []
    requires multiset(s.ready) + multiset(s.blocked) + multiset(s.sleep) == multiset(s.alive)
    requires s.woken == s.resumed + s.ready
    ensures Inv(SwitchAway(s))
  {
    if s.ready != [] {
      assert s.ready == [s.ready[0]] + s.ready[1..];
    } else {
      assert s.sleep == [s.sleep[0]] + s.sleep[1..];
    }
  }

  lemma WaitForKeeps(s: Sched, e: Event)
    requires Inv(s) && s.sleep != []
    ensures Inv(WaitFor(s, e))
  {
    SwitchKeeps(s.(event := s.event[s.current := e], blocked := s.blocked + [s.current]));
  }

  lemma StopKeeps(s: Sched)
    requires Inv(s) && (s.ready != [] || s.sleep != [])
    ensures Inv(Stop(s))
  {
    assert s.current in multiset(s.alive);
    assert multiset(s.alive - {s.current}) == multiset(s.alive) - multiset{s.current};
    SwitchKeeps(s.(alive := s.alive - {s.current}));
  }

  lemma NotifyKeeps(s: Sched, e: Event, m: Message)
    requires Inv(s)
    ensures Inv(Notify(s, e, m))
  {
    WakeUpKeeps(s.(blocked := []), s.blocked, e, m);
  }

  lemma StepKeeps(s: Sched, step: Step)
    requires Inv(s) && Enabled(s, step)
    ensures Inv(Next(s, step))
  {
    match step
    case SAdd(t) => assert multiset(s.alive + {t}) == multiset(s.alive) + multiset{t};
    case SWaitFor(e) => WaitForKeeps(s, e);
    case SYield => if s.ready != [] { SwitchKeeps(s.(sleep := [s.current] + s.sleep)); }
    case SStop => StopKeeps(s);
    case SNotify(e, m) => NotifyKeeps(s, e, m);
  }

  lemma {:induction false} RunKeeps(s: Sched, steps: seq<Step>, s': Sched)
    requires Inv(s) && Run(s, steps, s')
    ensures Inv(s')
    decreases |steps|
  {
    if steps != [] {
      StepKeeps(s, steps[0]);
      RunKeeps(Next(s, steps[0]), steps[1..], s');
    }
  }

  /** In every run, each thread that was not stopped is in exactly one of the four places, and there only once. */
  lemma ExactlyOnePlace(main: Thread, steps: seq<Step>, s: Sched, t: Thread)
    requires Run(Init(main), steps, s)
    ensures (if t == s.current then 1 else 0) + multiset(s.ready)[t] + multiset(s.blocked)[t] + multiset(s.sleep)[t]
         == if t in s.alive then 1 else 0
  {
    RunKeeps(Init(main), steps, s);
    assert multiset(s.alive)[t] == if t in s.alive then 1 else 0;
  }

  /** Woken threads get the processor in the order in which they were woken. */
  lemma WokenInOrder(main: Thread, steps: seq<Step>, s: Sched)
    requires Run(Init(main), steps, s)
    ensures s.resumed <= s.woken && s.woken[|s.resumed|..] == s.ready
  {
    RunKeeps(Init(main), steps, s);
  }

  // ---------------------------------------------------------------- waking up

  /** The thread does not run in any of the states before the last one. */
  ghost predicate RunsFirstAtEnd(s: Sched, steps: seq<Step>, t: Thread)
    decreases |steps|
  {
    steps != [] ==> s.current != t && Enabled(s, steps[0]) && RunsFirstAtEnd(Next(s, steps[0]), steps[1..], t)
  }

  lemma InOnePlace(s: Sched, t: Thread)
    requires Inv(s)
    ensures t in s.blocked ==> t != s.current && t !in s.ready && t !in s.sleep
    ensures t in s.ready ==> t != s.current && t !in s.blocked && t !in s.sleep
    ensures t in s.blocked || t in s.ready ==> t in s.alive
  {
    var all := multiset{s.current} + multiset(s.ready) + multiset(s.blocked) + multiset(s.sleep);
    assert all[t] <= 1;
    assert t in s.alive <==> t in multiset(s.alive);
  }

  /** A woken thread stays ready, with its message, until it runs. */
  lemma ReadyStep(s: Sched, step: Step, t: Thread)
    requires Inv(s) && Enabled(s, step) && t in s.ready && t in s.msg
    ensures t in Next(s, step).ready || Next(s, step).current == t
    ensures t in Next(s, step).msg && Next(s, step).msg[t] == s.msg[t]
  {
    InOnePlace(s, t);
    assert s.ready == [s.ready[0]] + s.ready[1..];
    if step.SNotify? {
      WakeUpThread(s.(blocked := []), s.blocked, step.e, step.m, t);
    }
  }

  lemma {:induction false} ReadyKeepsMessage(s: Sched, steps: seq<Step>, s': Sched, t: Thread)
    requires Inv(s) && Run(s, steps, s') && RunsFirstAtEnd(s, steps, t) && s'.current == t
    requires t in s.msg && (t in s.ready || s.current == t)
    ensures t in s'.msg && s'.msg[t] == s.msg[t]
    decreases |steps|
  {
    if steps != [] {
      StepKeeps(s, steps[0]);
      ReadyStep(s, steps[0], t);
      ReadyKeepsMessage(Next(s, steps[0]), steps[1..], s', t);
    }
  }

  /** A notification of the event makes the thread ready, any other step leaves it blocked. */
  lemma BlockedStep(s: Sched, step: Step, t: Thread, e: Event)
    requires Inv(s) && Enabled(s, step) && t in s.blocked && EventOf(s, t) == e
    ensures var n := Next(s, step);
            if step.SNotify? && step.e == e then t in n.ready && t in n.msg && n.msg[t] == step.m
            else t in n.blocked && EventOf(n, t) == e
  {
    InOnePlace(s, t);
    if step.SNotify? {
      WakeUpThread(s.(blocked := []), s.blocked, step.e, step.m, t);
    }
  }

  /**
   A thread that waits for an event runs again only after a notification of that event, and with the
   message of that notification.
   */
  lemma {:induction false} WakeUpNeedsNotify(s: Sched, steps: seq<Step>, s': Sched, t: Thread, e: Event) returns (k: nat)
    requires Inv(s) && Run(s, steps, s') && RunsFirstAtEnd(s, steps, t) && s'.current == t
    requires t in s.blocked && EventOf(s, t) == e
    ensures k < |steps| && steps[k].SNotify? && steps[k].e == e
    ensures t in s'.msg && s'.msg[t] == steps[k].m
    decreases |steps|
  {
    InOnePlace(s, t);
    StepKeeps(s, steps[0]);
    BlockedStep(s, steps[0], t, e);
    if steps[0].SNotify? && steps[0].e == e {
      ReadyKeepsMessage(Next(s, steps[0]), steps[1..], s', t);
      k := 0;
    } else {
      k := WakeUpNeedsNotify(Next(s, steps[0]), steps[1..], s', t, e);
      k := k + 1;
    }
  }

  // ---------------------------------------------------------------- waiting

  /** `wait_for(e)` blocks the current thread for exactly this event; the event of no other thread changes. */
  lemma WaitBlocks(s: Sched, e: Event, t: Thread)
    requires Inv(s) && Enabled(s, SWaitFor(e))
    ensures var n := Next(s, SWaitFor(e));
            && s.current in n.blocked && EventOf(n, s.current) == e && n.current != s.current
            && (t in s.blocked ==> t in n.blocked && EventOf(n, t) == EventOf(s, t))
  {
    InOnePlace(s, t);
    StepKeeps(s, SWaitFor(e));
    InOnePlace(Next(s, SWaitFor(e)), s.current);
  }

  /**
   A call of `wait_for(e)` returns only after a notification of `e`, and the thread then has the message of that
   notification: for every run from the call to the next time that the thread runs.
   */
  lemma WaitNeedsNotify(s: Sched, e: Event, steps: seq<Step>, s': Sched) returns (k: nat)
    requires Inv(s) && Enabled(s, SWaitFor(e)) && Run(Next(s, SWaitFor(e)), steps, s')
    requires RunsFirstAtEnd(Next(s, SWaitFor(e)), steps, s.current) && s'.current == s.current
    ensures k < |steps| && steps[k].SNotify? && steps[k].e == e
    ensures s.current in s'.msg && s'.msg[s.current] == steps[k].m
  {
    StepKeeps(s, SWaitFor(e));
    WaitBlocks(s, e, s.current);
    k := WakeUpNeedsNotify(Next(s, SWaitFor(e)), steps, s', s.current, e);
  }

  // ---------------------------------------------------------------- the processor

  /** The current thread gives up the processor. */
  predicate GivesUp(step: Step) {
    step.SWaitFor? || step.SYield? || step.SStop?
  }

  lemma {:induction false} WakeUpAppends(s: Sched, rest: seq<Thread>, e: Event, m: Message)
    ensures var n := WakeUp(s, rest, e, m); s.ready <= n.ready && n.sleep == s.sleep && n.current == s.current
    decreases |rest|
  {
    if rest != [] {
      var n := if EventOf(s, rest[0]) == e then Woken(s, rest[0], m) else s.(blocked := s.blocked + [rest[0]]);
      WakeUpAppends(n, rest[1..], e, m);
    }
  }

  /**
   If the current thread gives up the processor and others are ready, the first of them runs and the rest moves up; all
   other steps leave the processor and the queue of the ready ones as they are, or append to it.
   */
  lemma ReadyRunsNext(s: Sched, step: Step)
    requires Enabled(s, step)
    ensures GivesUp(step) && s.ready != [] ==> Next(s, step).current == s.ready[0] && Next(s, step).ready == s.ready[1..]
    ensures !GivesUp(step) ==> Next(s, step).current == s.current && s.ready <= Next(s, step).ready
  {
    if step.SNotify? {
      WakeUpAppends(s.(blocked := []), s.blocked, step.e, step.m);
    }
  }

  /** The threads of a list that wait for the event, or for others. */
  function WaitingFor(s: Sched, list: seq<Thread>, e: Event, yes: bool): seq<Thread> {
    if list == [] then []
    else (if (EventOf(s, list[0]) == e) == yes then [list[0]] else []) + WaitingFor(s, list[1..], e, yes)
  }

  lemma {:induction false} WakeUpReady(s: Sched, rest: seq<Thread>, e: Event, m: Message)
    ensures WakeUp(s, rest, e, m).ready == s.ready + WaitingFor(s, rest, e, true)
    decreases |rest|
  {
    if rest != [] {
      var n := if EventOf(s, rest[0]) == e then Woken(s, rest[0], m) else s.(blocked := s.blocked + [rest[0]]);
      SameWaiting(s, n, rest[1..], e);
      WakeUpReady(n, rest[1..], e, m);
    }
  }

  lemma {:induction false} WakeUpBlocked(s: Sched, rest: seq<Thread>, e: Event, m: Message)
    ensures WakeUp(s, rest, e, m).blocked == s.blocked + WaitingFor(s, rest, e, false)
    decreases |rest|
  {
    if rest != [] {
      var n := if EventOf(s, rest[0]) == e then Woken(s, rest[0], m) else s.(blocked := s.blocked + [rest[0]]);
      SameWaiting(s, n, rest[1..], e);
      WakeUpBlocked(n, rest[1..], e, m);
    }
  }

  lemma {:induction false} SameWaiting(s: Sched, n: Sched, list: seq<Thread>, e: Event)
    requires n.event == s.event
    ensures WaitingFor(n, list, e, true) == WaitingFor(s, list, e, true)
    ensures WaitingFor(n, list, e, false) == WaitingFor(s, list, e, false)
    decreases |list|
  {
    if list != [] {
      SameWaiting(s, n, list[1..], e);
    }
  }

  /** A notification makes exactly the threads ready that wait for the event, in the order in which they began to wait. */
  lemma NotifyInOrder(s: Sched, e: Event, m: Message)
    ensures var n := Next(s, SNotify(e, m));
            && n.ready == s.ready + WaitingFor(s, s.blocked, e, true) && n.blocked == WaitingFor(s, s.blocked, e, false)
  {
    WakeUpReady(s.(blocked := []), s.blocked, e, m);
    WakeUpBlocked(s.(blocked := []), s.blocked, e, m);
    SameWaiting(s, s.(blocked := []), s.blocked, e);
  }

  /** The number of times that the processor is given up in a run. */
  function Switches(steps: seq<Step>): nat {
    if steps == [] then 0 else (if GivesUp(steps[0]) then 1 else 0) + Switches(steps[1..])
  }

  /** A ready thread with `i` others in front of it runs after exactly `i + 1` switches. */
  lemma {:induction false} ReadyRuns(s: Sched, i: nat, steps: seq<Step>, s': Sched)
    requires Run(s, steps, s') && i < |s.ready| && Switches(steps) == i + 1 && GivesUp(steps[|steps| - 1])
    ensures s'.current == s.ready[i]
    decreases |steps|
  {
    var n := Next(s, steps[0]);
    ReadyRunsNext(s, steps[0]);
    if |steps| > 1 {
      assert steps[1..][|steps| - 2] == steps[|steps| - 1];
      SwitchAtEnd(steps[1..]);
      ReadyRuns(n, if GivesUp(steps[0]) then i - 1 else i, steps[1..], s');
    } else {
      assert steps[1..] == [];
    }
  }

  lemma {:induction false} SwitchAtEnd(steps: seq<Step>)
    requires steps != [] && GivesUp(steps[|steps| - 1])
    ensures Switches(steps) >= 1
    decreases |steps|
  {
    if |steps| > 1 {
      SwitchAtEnd(steps[1..]);
    }
  }

  /** Without a ready thread, a thread that waits or stops is replaced by the first sleeping one; one that yields goes on. */
  lemma SleepingRunsNext(s: Sched, step: Step)
    requires Enabled(s, step) && GivesUp(step) && s.ready == []
    ensures step.SYield? ==> Next(s, step) == s
    ensures !step.SYield? ==> s.sleep != [] && Next(s, step).current == s.sleep[0] && Next(s, step).sleep == s.sleep[1..]
  {
  }

  /** A thread that yields sleeps, and is the next one to continue if a thread is needed. */
  lemma YieldSleeps(s: Sched)
    requires s.ready != []
    ensures Next(s, SYield).sleep == [s.current] + s.sleep && Next(s, SYield).blocked == s.blocked
  {
  }
}

module ThreadManager {
  import opened ThreadSpec
  import Proofs = ThreadProofs

  class ThreadManager {
    var current: Thread
    var ready: seq<Thread>
    var blocked: seq<Thread>
    var sleep: seq<Thread>
    var event: map<Thread, Event>
    var msg: map<Thread, Message>
    ghost var alive: set<Thread>
    ghost var woken: seq<Thread>
    ghost var resumed: seq<Thread>

    ghost function State(): Sched
      reads this
    {
      Sched(current, ready, blocked, sleep, event, msg, alive, woken, resumed)
    }

    constructor (main: Thread)
      ensures State() == Init(main) && Proofs.Inv(State())
    {
      current, ready, blocked, sleep, event, msg := main, [], [], [], map[], map[];
      alive, woken, resumed := {main}, [], [];
    }

    /** A new thread. */
    method Add(t: Thread)
      requires t !in alive
      modifies this
      ensures State() == ThreadSpec.Add(old(State()), t)
      ensures Proofs.Inv(old(State())) ==> Proofs.Inv(State())
    {
      if Proofs.Inv(State()) {
        Proofs.StepKeeps(State(), SAdd(t));
      }
      sleep, alive := sleep + [t], alive + {t};
    }

    /** The choice that `wait_for` and `stop` make. */
    method SwitchToNext()
      requires ready != [] || sleep != []
      modifies this
      ensures State() == SwitchAway(old(State()))
    {
      if |ready| > 0 {
        current := ready[0];
        resumed := resumed + [ready[0]];
        ready := ready[1..];
      } else {
        current := sleep[0];
        sleep := sleep[1..];
      }
    }

    method WaitFor(e: Event)
      requires sleep != []
      modifies this
      ensures State() == ThreadSpec.WaitFor(old(State()), e)
      ensures Proofs.Inv(old(State())) ==> Proofs.Inv(State())
    {
      if Proofs.Inv(State()) {
        Proofs.StepKeeps(State(), SWaitFor(e));
      }
      event := event[current := e];
      blocked := blocked + [current];
      SwitchToNext();
    }

    method Yield()
      modifies this
      ensures State() == ThreadSpec.Yield(old(State()))
      ensures Proofs.Inv(old(State())) ==> Proofs.Inv(State())
    {
      if Proofs.Inv(State()) {
        Proofs.StepKeeps(State(), SYield);
      }
      if |ready| > 0 {
        sleep := [current] + sleep;
        SwitchToNext();
      }
    }

    method Stop()
      requires ready != [] || sleep != []
      modifies this
      ensures State() == ThreadSpec.Stop(old(State()))
      ensures Proofs.Inv(old(State())) ==> Proofs.Inv(State())
    {
      if Proofs.Inv(State()) {
        Proofs.StepKeeps(State(), SStop);
      }
      alive := alive - {current};
      SwitchToNext();
    }

    method Notify(e: Event, m: Message)
      modifies this
      ensures State() == ThreadSpec.Notify(old(State()), e, m)
      ensures Proofs.Inv(old(State())) ==> Proofs.Inv(State())
    {
      if Proofs.Inv(State()) {
        Proofs.StepKeeps(State(), SNotify(e, m));
      }
      ghost var s := State().(blocked := []);
      var rest := blocked;
      blocked := [];
      while rest != []
        invariant WakeUp(State(), rest, e, m) == WakeUp(s, old(blocked), e, m)
        decreases |rest|
      {
        var t := rest[0];
        if (if t in event then event[t] else 0) == e {
          msg := msg[t := m];
          ready := ready + [t];
          woken := woken + [t];
        } else {
          blocked := blocked + [t];
        }
        rest := rest[1..];
      }
    }
  }
}
