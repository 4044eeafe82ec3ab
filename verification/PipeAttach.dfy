/**
 What depends on attaching to an end of the pipe in time: `PipeData::attach` does not look at the
 end-of-file flags, and nothing resets them.
 */
module PipeAttach {
  import opened Options
  import opened PipeSpec
  import opened PipeProofs
  import opened Fresh
  import R = RingSpec

  /** From the state on: once all writers have closed, nothing is committed anymore. */
  ghost predicate EofIsFinal(p: Pipe) {
    forall steps, p', steps', p'' ::
      Run(p, steps, p') && Run(p', steps', p'') && p'.writeEof ==> p''.hist.committed == p'.hist.committed
  }

  /** From the state on: a writer is refused only if nobody reads. */
  ghost predicate RefusalIsTrue(p: Pipe) {
    forall steps, p', q ::
      Run(p, steps, p') && Refused(p', q) ==> p'.readers == []
  }

  /** The next write is answered with the end of the file. */
  ghost predicate Refused(p: Pipe, q: Request) {
    Enabled(p, SWrite(q, 0, true)) && Next(p, SWrite(q, 0, true)).hist.replies == p.hist.replies + [Reply(q, EndOfFile)]
  }

  // ---------------------------------------------------------------- runs

  lemma {:induction false} RunConcat(p: Pipe, a: seq<Step>, p': Pipe, b: seq<Step>, p'': Pipe)
    requires Run(p, a, p') && Run(p', b, p'')
    ensures Run(p, a + b, p'')
    decreases |a|
  {
    if a == [] {
      assert a + b == b;
    } else {
      assert (a + b)[1..] == a[1..] + b;
      RunConcat(Next(p, a[0]), a[1..], p', b, p'');
    }
  }

  lemma RunOne(p: Pipe, s: Step)
    requires Enabled(p, s)
    ensures Run(p, [s], Next(p, s))
  {
    assert [s][1..] == [];
  }

  lemma RunThree(p0: Pipe, a: Step, p1: Pipe, b: Step, p2: Pipe, c: Step)
    requires Enabled(p0, a) && p1 == Next(p0, a) && Enabled(p1, b) && p2 == Next(p1, b) && Enabled(p2, c)
    ensures Run(p0, [a] + ([b] + [c]), Next(p2, c))
  {
    RunOne(p0, a);
    RunOne(p1, b);
    RunOne(p2, c);
    RunConcat(p1, [b], p2, [c], Next(p2, c));
    RunConcat(p0, [a], p1, [b] + [c], Next(p2, c));
  }

  // ---------------------------------------------------------------- an end that is still open

  /** Without writers nothing is committed. */
  lemma ClosedStep(p: Pipe, s: Step)
    requires Inv(p) && p.writeEof && Enabled(p, s)
    ensures Next(p, s).writeEof && Next(p, s).hist.committed == p.hist.committed
  {
    match s
    case SPendingRead => ServeReadsServes(p); ServeReadsCommitsNothing(p);
    case SPendingWrite => assert p.pendingWrites == [];
    case _ =>
  }

  lemma {:induction false} ServeReadsCommitsNothing(p: Pipe)
    requires p.pendingReads != [] ==> |p.readers| > 0
    ensures ServeReads(p).hist.committed == p.hist.committed
    decreases |p.pendingReads|
  {
    if p.pendingReads != [] && R.Empty(p.ring) && p.writeEof {
      ServeReadsCommitsNothing(Answered(p.(pendingReads := p.pendingReads[1..]), p.pendingReads[0], Window(0, 0)));
    }
  }

  lemma {:induction false} ClosedRun(p: Pipe, steps: seq<Step>, p': Pipe)
    requires Inv(p) && p.writeEof && Run(p, steps, p')
    ensures p'.hist.committed == p.hist.committed
    decreases |steps|
  {
    if steps != [] {
      ClosedStep(p, steps[0]);
      StepKeeps(p, steps[0]);
      ClosedRun(Next(p, steps[0]), steps[1..], p');
    }
  }

  lemma InvIsFinal(p: Pipe)
    requires Inv(p)
    ensures EofIsFinal(p) && RefusalIsTrue(p)
  {
    forall steps, p', steps', p'' | Run(p, steps, p') && Run(p', steps', p'') && p'.writeEof
      ensures p''.hist.committed == p'.hist.committed
    {
      RunKeeps(p, steps, p');
      ClosedRun(p', steps', p'');
    }
    forall steps, p', q | Run(p, steps, p') && Refused(p', q) ensures p'.readers == [] {
      RunKeeps(p, steps, p');
      RefusedExactly(p', q);
    }
  }

  lemma RefusedExactly(p: Pipe, q: Request)
    requires Enabled(p, SWrite(q, 0, true))
    ensures Refused(p, q) <==> p.readEof
  {
    var replies, replies' := p.hist.replies, Next(p, SWrite(q, 0, true)).hist.replies;
    assert !p.readEof && |replies'| > |replies| ==> replies'[|replies|].answer != EndOfFile;
  }

  // ---------------------------------------------------------------- both ends closed

  /** If both ends were closed, no message commits anything and no writer can appear. */
  ghost predicate BothClosed(p: Pipe) {
    p.readEof && p.writeEof
  }

  lemma BothClosedStep(p: Pipe, s: Step)
    requires BothClosed(p) && Enabled(p, s)
    ensures BothClosed(Next(p, s)) && Next(p, s).hist.committed == p.hist.committed
    ensures p.writers == [] ==> Next(p, s).writers == []
  {
    match s
    case SPendingRead => ServeReadsServes(p); ServeReadsCommitsNothing(p);
    case SPendingWrite => RefuseWritesLeavesNothing(p); RefuseWritesCommitsNothing(p);
    case _ =>
  }

  lemma {:induction false} RefuseWritesCommitsNothing(p: Pipe)
    ensures RefuseWrites(p).hist.committed == p.hist.committed
    decreases |p.pendingWrites|
  {
    if p.pendingWrites != [] {
      RefuseWritesCommitsNothing(Answered(p.(pendingWrites := p.pendingWrites[1..]), p.pendingWrites[0], EndOfFile));
    }
  }

  lemma {:induction false} BothClosedRun(p: Pipe, steps: seq<Step>, p': Pipe)
    requires BothClosed(p) && Run(p, steps, p')
    ensures BothClosed(p') && p'.hist.committed == p.hist.committed
    ensures p.writers == [] ==> p'.writers == []
    decreases |steps|
  {
    if steps != [] {
      BothClosedStep(p, steps[0]);
      BothClosedRun(Next(p, steps[0]), steps[1..], p');
    }
  }

  // ---------------------------------------------------------------- a writer behind the end of the file

  /** A writer was attached although the end of the file may have been told; nobody holds a write window. */
  ghost predicate Late(p: Pipe, c: Chan) {
    && R.Inv(p.ring) && |p.mem| == p.ring.size && p.ring.size > 0
    && p.writeEof && !p.readEof && p.writers == [c] && p.lastWriter.None? && p.pendingWrites == []
    && ReaderHolds(p)
  }

  /** All readers but one close; if there is none, one is attached. */
  lemma {:induction false} OneReader(p: Pipe, c: Chan) returns (steps: seq<Step>, p': Pipe)
    requires Late(p, c)
    ensures Run(p, steps, p') && Late(p', c) && |p'.readers| == 1 && p'.hist.committed == p.hist.committed
    decreases |p.readers|
  {
    if |p.readers| == 1 {
      steps, p' := [], p;
    } else if p.readers == [] {
      var r := FreshNat(p.lastAmount.Keys);
      steps, p' := [SAttach(r, true)], Attach(p, r, true);
      RunOne(p, SAttach(r, true));
    } else {
      var x := p.readers[0];
      var p1 := CloseReader(p, x);
      CloseOne(p, c);
      RunOne(p, SCloseReader(x));
      var rest;
      rest, p' := OneReader(p1, c);
      steps := [SCloseReader(x)] + rest;
      RunConcat(p, [SCloseReader(x)], p1, rest, p');
    }
  }

  lemma CloseOne(p: Pipe, c: Chan)
    requires Late(p, c) && |p.readers| > 1
    ensures var p1 := CloseReader(p, p.readers[0]);
            Late(p1, c) && p1.readers == p.readers[1..] && p1.hist.committed == p.hist.committed
  {
    if p.lastReader == Some(p.readers[0]) {
      R.PullDrops(p.ring, p.mem, 0);
    } else if p.lastReader.Some? {
      assert p.readers == [p.readers[0]] + p.readers[1..];
    }
  }

  /** What the current reader does not have yet. */
  ghost function Ungranted(p: Pipe): nat
    requires R.Inv(p.ring) && |p.mem| == p.ring.size && ReaderHolds(p)
  {
    if p.lastReader.None? then |R.Unread(p.ring, p.mem)|
    else
      R.ReadWindow(p.ring, p.mem);
      |R.Unread(p.ring, p.mem)| - Amount(p, p.lastReader.value)
  }

  /** The only reader gives its window back. */
  lemma SettleOne(p: Pipe, c: Chan, q: Request)
    requires Late(p, c) && p.readers == [q.chan]
    ensures var p2 := if p.lastReader.Some? then Settle(Arrived(p, q), Amount(p, q.chan)) else Arrived(p, q);
            && Late(p2, c) && p2.lastReader.None? && p2.readers == p.readers && p2.mem == p.mem
            && p2.hist.committed == p.hist.committed && Ungranted(p2) == Ungranted(p) && p2.ring.size == p.ring.size
  {
    if p.lastReader.Some? {
      R.PullDrops(p.ring, p.mem, Amount(p, q.chan));
    }
  }

  /** And asks for the next one. */
  lemma AskOne(p: Pipe, c: Chan, q: Request)
    requires Late(p, c) && p.readers == [q.chan] && p.lastReader.None?
    ensures var p1 := AskRead(p, q);
            && Late(p1, c) && p1.readers == p.readers && p1.hist.committed == p.hist.committed
            && (if R.Empty(p.ring) then p1.lastReader.None? && R.Empty(p1.ring) else Ungranted(p1) < Ungranted(p))
  {
    if !R.Empty(p.ring) {
      R.ReadWindow(p.ring, p.mem);
      ShareZero(p.ring.size, 1);
    }
  }

  /** One more read of the only reader. */
  lemma ReadOne(p: Pipe, c: Chan)
    requires Late(p, c) && |p.readers| == 1 && (p.lastReader.Some? || !R.Empty(p.ring))
    ensures var p1 := Read(p, Request(p.readers[0], 0), 0, true);
            && Late(p1, c) && p1.readers == p.readers && p1.hist.committed == p.hist.committed
            && (Ungranted(p1) < Ungranted(p) || (p1.lastReader.None? && R.Empty(p1.ring)))
  {
    var q := Request(p.readers[0], 0);
    var p2 := if p.lastReader.Some? then Settle(Arrived(p, q), Amount(p, q.chan)) else Arrived(p, q);
    SettleOne(p, c, q);
    AskOne(p2, c, q);
    assert Read(p, q, 0, true) == AskRead(p2, q);
  }

  /** The only reader reads everything. */
  lemma {:induction false} ReadAll(p: Pipe, c: Chan) returns (steps: seq<Step>, p': Pipe)
    requires Late(p, c) && |p.readers| == 1
    ensures Run(p, steps, p') && Late(p', c) && R.Empty(p'.ring) && p'.hist.committed == p.hist.committed
    decreases Ungranted(p), if p.lastReader.Some? then 1 else 0
  {
    if p.lastReader.None? && R.Empty(p.ring) {
      steps, p' := [], p;
    } else {
      var s := SRead(Request(p.readers[0], 0), 0, true);
      var p1 := Next(p, s);
      ReadOne(p, c);
      RunOne(p, s);
      if p1.lastReader.None? && R.Empty(p1.ring) {
        steps, p' := [s], p1;
      } else {
        var rest;
        rest, p' := ReadAll(p1, c);
        steps := [s] + rest;
        RunConcat(p, [s], p1, rest, p');
      }
    }
  }

  lemma GrantedLate(p: Pipe, c: Chan)
    requires Late(p, c) && R.Empty(p.ring)
    ensures var p1 := Write(p, Request(c, 0), 0, true);
            && p1.lastWriter == Some(c) && p1.writers == [c] && Amount(p1, c) > 0 && !p1.readEof
            && p1.hist.committed == p.hist.committed && p1.hist.writeAt + Amount(p1, c) <= |p1.mem|
  {
    ShareIsSmall(p.ring.size, 1);
    ShareZero(p.ring.size, 1);
    R.EmptyAccepts(p.ring, WriteSize(p));
    R.AlignKeeps(p.ring, p.mem);
    R.SlotIsFree(R.Aligned(p.ring).value, WriteSize(p), 0);
  }

  lemma CommittedLate(p: Pipe, c: Chan)
    requires p.lastWriter == Some(c) && p.writers == [c] && !p.readEof && p.hist.writeAt + Amount(p, c) <= |p.mem|
    ensures |Write(p, Request(c, 1), 0, true).hist.committed| == |p.hist.committed| + Amount(p, c)
  {
  }

  /** Then the late writer gets a window and commits it. */
  lemma CommitLate(p: Pipe, c: Chan) returns (steps: seq<Step>, p': Pipe)
    requires Late(p, c) && R.Empty(p.ring)
    ensures Run(p, steps, p') && p'.hist.committed != p.hist.committed
  {
    var ask, commit := SWrite(Request(c, 0), 0, true), SWrite(Request(c, 1), 0, true);
    GrantedLate(p, c);
    var p1 := Next(p, ask);
    CommittedLate(p1, c);
    steps, p' := [ask] + [commit], Next(p1, commit);
    RunOne(p, ask);
    RunOne(p1, commit);
    RunConcat(p, [ask], p1, [commit], p');
  }

  lemma LateIsNotFinal(p: Pipe, c: Chan)
    requires Late(p, c)
    ensures !EofIsFinal(p)
  {
    var steps, p1 := OneReader(p, c);
    var steps', p2 := ReadAll(p1, c);
    var steps'', p3 := CommitLate(p2, c);
    RunConcat(p, steps, p1, steps', p2);
    assert Run(p, steps + steps', p2) && Run(p2, steps'', p3) && p2.writeEof;
  }

  // ---------------------------------------------------------------- theorems

  /**
   Attaching a writer keeps the promise that the end of the file is final exactly if the write end is still
   open, or if there will be no reader anymore.
   */
  lemma AttachWriterExactly(p: Pipe, c: Chan)
    requires Inv(p) && c !in p.lastAmount && p.ring.size > 0
    ensures EofIsFinal(Attach(p, c, false)) <==> !p.writeEof || p.readEof
  {
    var p' := Attach(p, c, false);
    if !p.writeEof {
      StepKeeps(p, SAttach(c, false));
      InvIsFinal(p');
    } else if p.readEof {
      forall steps, p1, steps', p2 | Run(p', steps, p1) && Run(p1, steps', p2) ensures p2.hist.committed == p1.hist.committed {
        BothClosedRun(p', steps, p1);
        BothClosedRun(p1, steps', p2);
      }
    } else {
      assert p.pendingWrites == [] by { PendingHasChannel(p); }
      LateIsNotFinal(p', c);
    }
  }

  /**
   Attaching a reader keeps the promise that writers are refused only if nobody reads exactly if the read end
   is still open, or if there will be no writer anymore.
   */
  lemma AttachReaderExactly(p: Pipe, c: Chan)
    requires Inv(p) && c !in p.lastAmount
    ensures RefusalIsTrue(Attach(p, c, true)) <==> !p.readEof || p.writeEof
  {
    var p' := Attach(p, c, true);
    if !p.readEof {
      StepKeeps(p, SAttach(c, true));
      InvIsFinal(p');
    } else if p.writeEof {
      forall steps, p1, q | Run(p', steps, p1) ensures !Refused(p1, q) {
        BothClosedRun(p', steps, p1);
      }
    } else {
      LateReader(p, c);
    }
  }

  lemma LateReader(p: Pipe, c: Chan)
    requires c !in p.lastAmount && p.readEof && !p.writeEof
    ensures !RefusalIsTrue(Attach(p, c, true))
  {
    var p' := Attach(p, c, true);
    if p.writers != [] {
      assert Run(p', [], p');
      RefusedExactly(p', Request(p.writers[0], 0));
    } else {
      var w := FreshNat(p'.lastAmount.Keys);
      RunOne(p', SAttach(w, false));
      RefusedExactly(Attach(p', w, false), Request(w, 0));
    }
  }

  /** The first part of the run below: the only writer closes and the reader is told the end of the file. */
  function EofTold(mem: seq<R.Byte>): Pipe {
    Pipe(R.Init(|mem|), mem, [0], [], None, None, map[0 := 0, 1 := 0], [], [], false, true,
         History([], [], 0, 0, multiset{Request(0, 0)}, [Reply(Request(0, 0), Window(0, 0))], []))
  }

  lemma EofToldByRun(mem: seq<R.Byte>)
    requires |mem| == 32
    ensures Run(Init(mem), [SAttach(0, true), SAttach(1, false), SCloseWriter(1), SRead(Request(0, 0), 0, true)], EofTold(mem))
  {
    var steps := [SAttach(0, true), SAttach(1, false), SCloseWriter(1), SRead(Request(0, 0), 0, true)];
    var p1 := Attach(Init(mem), 0, true);
    var p2 := Attach(p1, 1, false);
    var p3 := CloseWriter(p2, 1);
    var p4 := Read(p3, Request(0, 0), 0, true);
    assert p3.readers == [0] && p3.writers == [] && p3.writeEof && p3.pendingReads == [];
    assert p4 == EofTold(mem);
    assert steps[1..][1..][1..] == [steps[3]] && steps[1..][1..] == [steps[2]] + [steps[3]];
    RunOne(p3, steps[3]);
  }

  /**
   A run: the only writer closes and the reader is told the end of the file; then another writer is attached,
   commits, and the next read has a window with its bytes.
   */
  lemma AttachBehindEof(mem: seq<R.Byte>) returns (later: seq<Step>, p: Pipe)
    requires |mem| == 32
    ensures Reachable(EofTold(mem)) && Drained(EofTold(mem))
    ensures Run(Attach(EofTold(mem), 2, false), later, p)
    ensures p.hist.committed == mem[0..8]
    ensures |p.hist.replies| > 0 && p.hist.replies[|p.hist.replies| - 1] == Reply(Request(0, 3), Window(0, 8))
  {
    assert Reachable(EofTold(mem)) by { EofToldByRun(mem); }
    var p0, p1 := Attach(EofTold(mem), 2, false), Granted(mem);
    var ask, commit, again := SWrite(Request(2, 1), 0, true), SWrite(Request(2, 2), 8, true), SRead(Request(0, 3), 0, true);
    GrantedByWrite(mem);
    CommittedByWrite(mem);
    var p2 := Next(p1, commit);
    later, p := [ask] + ([commit] + [again]), Next(p2, again);
    RunThree(p0, ask, p1, commit, p2, again);
    ReadsCommitted(p2);
  }

  lemma ReadsCommitted(p: Pipe)
    requires p.ring == R.Ring(32, 0, 8, 32) && p.lastReader.None? && p.readers == [0] && p.pendingReads == []
    ensures var p' := Read(p, Request(0, 3), 0, true);
            && p'.hist.committed == p.hist.committed
            && p'.hist.replies == p.hist.replies + [Reply(Request(0, 3), Window(0, 8))]
  {
    assert Share(32, 1) == 8;
  }

  /** The state after the late writer got its window. */
  function Granted(mem: seq<R.Byte>): Pipe {
    GrantWrite(Arrived(Attach(EofTold(mem), 2, false), Request(2, 1)), Request(2, 1), 0, 8)
  }

  lemma GrantedByWrite(mem: seq<R.Byte>)
    requires |mem| == 32
    ensures Write(Attach(EofTold(mem), 2, false), Request(2, 1), 0, true) == Granted(mem)
  {
    assert Share(32, 1) == 8;
  }

  lemma CommittedByWrite(mem: seq<R.Byte>)
    requires |mem| == 32
    ensures var p := Write(Granted(mem), Request(2, 2), 8, true);
            && p.ring == R.Ring(32, 0, 8, 32) && p.hist.committed == mem[0..8]
            && p.lastReader.None? && p.readers == [0] && p.pendingReads == []
  {
  }
}
