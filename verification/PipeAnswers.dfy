/**
 What every operation of the pipe server tells the clients and how many bytes it moves, in terms of the bytes that
 were committed and delivered.
 */
module PipeAnswers {
  import opened Options
  import opened PipeSpec
  import opened PipeProofs
  import R = RingSpec

  // ---------------------------------------------------------------- how many bytes a step moves

  /** What the holder of a window settles: what it names or, if it asks for the next window, all of it. */
  function Settled(p: Pipe, c: Chan, commit: nat): nat {
    if commit == 0 then Amount(p, c) else commit
  }

  /** The bytes that a step delivers: only a read by the holder of the read window does. */
  function Taken(p: Pipe, s: Step): nat {
    if s.SRead? && s.active && p.lastReader == Some(s.q.chan) then Settled(p, s.q.chan, s.commit) else 0
  }

  /** The bytes that a step commits: only a write by the holder of the write window does, and only while somebody reads. */
  function Given(p: Pipe, s: Step): nat {
    if s.SWrite? && s.active && !p.readEof && p.lastWriter == Some(s.q.chan) then Settled(p, s.q.chan, s.commit) else 0
  }

  /** The `k` bytes from `at` on. */
  function Slice(mem: seq<R.Byte>, at: nat, k: nat): seq<R.Byte> {
    if k > 0 && at + k <= |mem| then mem[at..at + k] else []
  }

  lemma AskReadMovesNothing(p: Pipe, q: Request)
    requires |p.readers| > 0
    ensures AskRead(p, q).hist.delivered == p.hist.delivered && AskRead(p, q).hist.committed == p.hist.committed
  {
  }

  lemma AskWriteMovesNothing(p: Pipe, q: Request)
    requires |p.writers| > 0
    ensures AskWrite(p, q).hist.delivered == p.hist.delivered && AskWrite(p, q).hist.committed == p.hist.committed
  {
  }

  lemma {:induction false} ServeReadsMovesNothing(p: Pipe)
    requires p.pendingReads != [] ==> |p.readers| > 0
    ensures ServeReads(p).hist.delivered == p.hist.delivered && ServeReads(p).hist.committed == p.hist.committed
    decreases |p.pendingReads|
  {
    if p.pendingReads != [] && R.Empty(p.ring) && p.writeEof {
      ServeReadsMovesNothing(Answered(p.(pendingReads := p.pendingReads[1..]), p.pendingReads[0], Window(0, 0)));
    }
  }

  lemma {:induction false} RefuseWritesMovesNothing(p: Pipe)
    ensures RefuseWrites(p).hist.delivered == p.hist.delivered && RefuseWrites(p).hist.committed == p.hist.committed
    decreases |p.pendingWrites|
  {
    if p.pendingWrites != [] {
      RefuseWritesMovesNothing(Answered(p.(pendingWrites := p.pendingWrites[1..]), p.pendingWrites[0], EndOfFile));
    }
  }

  lemma SettleMoves(p: Pipe, q: Request, k: nat)
    requires Inv(p) && p.lastReader == Some(q.chan) && k <= Amount(p, q.chan)
    ensures p.hist.readAt + k <= |p.mem|
    ensures var p1 := Settle(Arrived(p, q), k);
            p1.hist.delivered == p.hist.delivered + Slice(p.mem, p.hist.readAt, k) && p1.hist.committed == p.hist.committed
  {
    R.PullDrops(p.ring, p.mem, k);
  }

  lemma ReadMoves(p: Pipe, q: Request, commit: nat, active: bool)
    requires Inv(p) && Enabled(p, SRead(q, commit, active))
    ensures var k := Taken(p, SRead(q, commit, active));
            && (k > 0 ==> p.hist.readAt + k <= |p.mem|)
            && Read(p, q, commit, active).hist.delivered == p.hist.delivered + Slice(p.mem, p.hist.readAt, k)
    ensures Read(p, q, commit, active).hist.committed == p.hist.committed
  {
    if active && p.lastReader == Some(q.chan) {
      var k := Settled(p, q.chan, commit);
      SettleMoves(p, q, k);
      AskReadMovesNothing(Settle(Arrived(p, q), k), q);
    } else if active && p.lastReader.None? {
      AskReadMovesNothing(Arrived(p, q), q);
    }
  }

  lemma CommitMoves(p: Pipe, q: Request, k: nat)
    requires Inv(p) && p.lastWriter == Some(q.chan) && k <= Amount(p, q.chan)
    ensures p.hist.writeAt + k <= |p.mem| && R.Inv(R.Push(p.ring, Amount(p, q.chan), k))
    ensures var p1 := Commit(Arrived(p, q), Amount(p, q.chan), k);
            p1.hist.committed == p.hist.committed + Slice(p.mem, p.hist.writeAt, k) && p1.hist.delivered == p.hist.delivered
  {
    R.PushAppends(p.ring, p.mem, Amount(p, q.chan), k);
  }

  lemma WriteMoves(p: Pipe, q: Request, commit: nat, active: bool)
    requires Inv(p) && Enabled(p, SWrite(q, commit, active))
    ensures var k := Given(p, SWrite(q, commit, active));
            && (k > 0 ==> p.hist.writeAt + k <= |p.mem|)
            && Write(p, q, commit, active).hist.committed == p.hist.committed + Slice(p.mem, p.hist.writeAt, k)
    ensures Write(p, q, commit, active).hist.delivered == p.hist.delivered
  {
    if active && !p.readEof && p.lastWriter == Some(q.chan) {
      var k := Settled(p, q.chan, commit);
      CommitMoves(p, q, k);
      AskWriteMovesNothing(Commit(Arrived(p, q), Amount(p, q.chan), k), q);
    } else if active && !p.readEof && p.lastWriter.None? {
      AskWriteMovesNothing(Arrived(p, q), q);
    }
  }

  lemma CloseMovesNothing(p: Pipe, c: Chan)
    ensures CloseReader(p, c).hist.delivered == p.hist.delivered && CloseReader(p, c).hist.committed == p.hist.committed
    ensures CloseWriter(p, c).hist.delivered == p.hist.delivered && CloseWriter(p, c).hist.committed == p.hist.committed
  {
  }

  lemma PendingMovesNothing(p: Pipe)
    requires Enabled(p, SPendingRead) && Enabled(p, SPendingWrite)
    ensures var p' := HandlePendingRead(p); p'.hist.delivered == p.hist.delivered && p'.hist.committed == p.hist.committed
    ensures var p' := HandlePendingWrite(p); p'.hist.delivered == p.hist.delivered && p'.hist.committed == p.hist.committed
  {
    ServeReadsMovesNothing(p);
    RefuseWritesMovesNothing(p);
  }

  lemma OthersMoveNothing(p: Pipe, s: Step)
    requires Inv(p) && Enabled(p, s) && !s.SRead? && !s.SWrite?
    ensures Next(p, s).hist.delivered == p.hist.delivered && Next(p, s).hist.committed == p.hist.committed
  {
    PendingHasChannel(p);
    PendingMovesNothing(p);
    match s
    case SCloseReader(c) => CloseMovesNothing(p, c);
    case SCloseWriter(c) => CloseMovesNothing(p, c);
    case _ =>
  }

  /**
   Every step delivers and commits exactly the bytes that its client settles, from the beginning of its window.
   With `PipeIsFifo`, the next window starts with the byte behind the last one that was settled.
   */
  lemma MovesExactly(p: Pipe, s: Step)
    requires Inv(p) && Enabled(p, s)
    ensures Next(p, s).hist.delivered == p.hist.delivered + Slice(p.mem, p.hist.readAt, Taken(p, s))
    ensures Next(p, s).hist.committed == p.hist.committed + Slice(p.mem, p.hist.writeAt, Given(p, s))
  {
    match s
    case SRead(q, commit, active) => ReadMoves(p, q, commit, active);
    case SWrite(q, commit, active) => WriteMoves(p, q, commit, active);
    case _ => OthersMoveNothing(p, s);
  }

  // ---------------------------------------------------------------- the answers to requests

  /** The request joins the queue without an answer. */
  ghost predicate Waits(p: Pipe, p': Pipe, q: Request, read: bool) {
    && p'.hist.replies == p.hist.replies
    && (if read then p'.pendingReads == p.pendingReads + [q] && p'.pendingWrites == p.pendingWrites
        else p'.pendingWrites == p.pendingWrites + [q] && p'.pendingReads == p.pendingReads)
  }

  /** The request is answered, and no other one. */
  ghost predicate Gets(p: Pipe, p': Pipe, q: Request, a: Answer) {
    && p'.hist.replies == p.hist.replies + [Reply(q, a)]
    && p'.pendingReads == p.pendingReads && p'.pendingWrites == p.pendingWrites
  }

  /** The channel holds the read window with the oldest bytes that were not delivered, as much as it may have. */
  ghost predicate Reads(p: Pipe, c: Chan) {
    && p.lastReader == Some(c) && |p.readers| > 0 && p.hist.readAt == R.ReadPos(p.ring)
    && Amount(p, c) <= ReadSize(p) && Amount(p, c) <= R.Contiguous(p.ring)
    && (Amount(p, c) == ReadSize(p) || Amount(p, c) == R.Contiguous(p.ring))
  }

  /** The channel holds the write window, with its share of the buffer. */
  ghost predicate Writes(p: Pipe, c: Chan) {
    p.lastWriter == Some(c) && |p.writers| > 0 && Amount(p, c) == WriteSize(p)
  }

  lemma AskReadAnswer(p: Pipe, q: Request)
    requires Stream(p) && |p.readers| > 0
    ensures var p' := AskRead(p, q);
            if p.hist.delivered == p.hist.committed then
              if p.writeEof then Gets(p, p', q, Window(0, 0)) else Waits(p, p', q, true)
            else if p.pendingReads != [] && !p.writeEof then Waits(p, p', q, true)
            else Gets(p, p', q, Window(p'.hist.readAt, Amount(p', q.chan))) && Reads(p', q.chan)
  {
    R.EmptyIffNothingUnread(p.ring, p.mem);
  }

  /**
   The answer to a read.  The holder of the window is served at once, others wait for it; a reader that asks for
   bytes gets them exactly if there are some and nobody was there before, and the end of the file exactly if there are
   none left and all writers have closed.
   */
  lemma ReadAnswer(p: Pipe, q: Request, commit: nat, active: bool)
    requires Inv(p) && Enabled(p, SRead(q, commit, active))
    ensures var p' := Next(p, SRead(q, commit, active));
            if !active then Gets(p, p', q, Failed) && p'.lastReader == p.lastReader
            else if p.lastReader.Some? && p.lastReader != Some(q.chan) then
              Waits(p, p', q, true) && p'.lastReader == p.lastReader
            else if commit > 0 then Gets(p, p', q, Committed(p.ring.size)) && p'.lastReader.None?
            else if p'.hist.delivered == p'.hist.committed then
              if p.writeEof then Gets(p, p', q, Window(0, 0)) else Waits(p, p', q, true)
            else if p.pendingReads != [] && !p.writeEof then Waits(p, p', q, true)
            else Gets(p, p', q, Window(p'.hist.readAt, Amount(p', q.chan))) && Reads(p', q.chan)
  {
    if active && commit == 0 && p.lastReader == Some(q.chan) {
      var p1 := Settle(Arrived(p, q), Amount(p, q.chan));
      SettleStream(Arrived(p, q), Amount(p, q.chan));
      AskReadAnswer(p1, q);
      AskReadMovesNothing(p1, q);
    } else if active && commit == 0 && p.lastReader.None? {
      AskReadAnswer(Arrived(p, q), q);
      AskReadMovesNothing(Arrived(p, q), q);
    }
  }

  lemma AskWriteAnswer(p: Pipe, q: Request)
    requires R.Inv(p.ring) && |p.writers| > 0
    ensures var p' := AskWrite(p, q);
            if p.pendingWrites != [] || !R.Offers(p.ring, WriteSize(p)) then Waits(p, p', q, false)
            else Gets(p, p', q, Window(p'.hist.writeAt, Amount(p', q.chan))) && Writes(p', q.chan)
  {
    R.GrantExactly(p.ring, WriteSize(p));
  }

  /** The ring after a write by the holder of the write window has settled its bytes, and as it is otherwise. */
  function RingFor(p: Pipe, q: Request): R.Ring {
    if p.lastWriter.Some? then R.Push(p.ring, Amount(p, q.chan), Amount(p, q.chan)) else p.ring
  }

  /**
   The answer to a write.  After the last reader has closed, everybody is refused; otherwise a writer gets its share
   exactly if nobody holds a window or waits for one, and the buffer has a piece of that size.
   */
  lemma WriteAnswer(p: Pipe, q: Request, commit: nat, active: bool)
    requires Inv(p) && Enabled(p, SWrite(q, commit, active))
    ensures var p' := Next(p, SWrite(q, commit, active));
            if !active then Gets(p, p', q, Failed) && p'.lastWriter == p.lastWriter
            else if p.readEof then Gets(p, p', q, EndOfFile) && p'.lastWriter == p.lastWriter
            else if p.lastWriter.Some? && p.lastWriter != Some(q.chan) then
              Waits(p, p', q, false) && p'.lastWriter == p.lastWriter
            else if commit > 0 then Gets(p, p', q, Committed(p.ring.size)) && p'.lastWriter.None?
            else if p.pendingWrites != [] || !R.Offers(RingFor(p, q), WriteSize(p)) then Waits(p, p', q, false)
            else Gets(p, p', q, Window(p'.hist.writeAt, Amount(p', q.chan))) && Writes(p', q.chan)
  {
    if active && !p.readEof && commit == 0 && (p.lastWriter.None? || p.lastWriter == Some(q.chan)) {
      NextWriteAnswer(p, q);
    }
  }

  lemma NextWriteAnswer(p: Pipe, q: Request)
    requires Inv(p) && Enabled(p, SWrite(q, 0, true)) && !p.readEof && (p.lastWriter.None? || p.lastWriter == Some(q.chan))
    ensures var p' := Write(p, q, 0, true);
            if p.pendingWrites != [] || !R.Offers(RingFor(p, q), WriteSize(p)) then Waits(p, p', q, false)
            else Gets(p, p', q, Window(p'.hist.writeAt, Amount(p', q.chan))) && Writes(p', q.chan)
  {
    if p.lastWriter.Some? {
      CommitMoves(p, q, Amount(p, q.chan));
      AskWriteAnswer(Commit(Arrived(p, q), Amount(p, q.chan), Amount(p, q.chan)), q);
    } else {
      AskWriteAnswer(Arrived(p, q), q);
    }
  }

  // ---------------------------------------------------------------- the waiting requests

  /** The same answer to all requests, in their order. */
  function All(requests: seq<Request>, a: Answer): seq<Reply> {
    if requests == [] then [] else [Reply(requests[0], a)] + All(requests[1..], a)
  }

  lemma {:induction false} ServeReadsAtEnd(p: Pipe)
    requires R.Empty(p.ring) && p.writeEof && (p.pendingReads != [] ==> |p.readers| > 0)
    ensures ServeReads(p).pendingReads == [] && ServeReads(p).lastReader == p.lastReader
    ensures ServeReads(p).hist.replies == p.hist.replies + All(p.pendingReads, Window(0, 0))
    decreases |p.pendingReads|
  {
    if p.pendingReads != [] {
      ServeReadsAtEnd(Answered(p.(pendingReads := p.pendingReads[1..]), p.pendingReads[0], Window(0, 0)));
    }
  }

  /** Waiting readers are served from the front of the queue: one if there are bytes, all of them at the end of the file. */
  lemma PendingReadAnswer(p: Pipe)
    requires Inv(p)
    ensures Enabled(p, SPendingRead)
    ensures var p' := Next(p, SPendingRead);
            if p.lastReader.Some? || p.pendingReads == [] then p' == p
            else if p.hist.delivered != p.hist.committed then
              && p'.pendingReads == p.pendingReads[1..] && Reads(p', p.pendingReads[0].chan)
              && p'.hist.replies == p.hist.replies
                 + [Reply(p.pendingReads[0], Window(p'.hist.readAt, Amount(p', p.pendingReads[0].chan)))]
            else if p.writeEof then
              p'.pendingReads == [] && p'.hist.replies == p.hist.replies + All(p.pendingReads, Window(0, 0))
            else p' == p
  {
    PendingHasChannel(p);
    R.EmptyIffNothingUnread(p.ring, p.mem);
    if p.lastReader.None? && R.Empty(p.ring) && p.writeEof {
      ServeReadsAtEnd(p);
    }
  }

  lemma {:induction false} RefuseWritesAll(p: Pipe)
    ensures RefuseWrites(p).pendingWrites == [] && RefuseWrites(p).lastWriter == p.lastWriter
    ensures RefuseWrites(p).hist.replies == p.hist.replies + All(p.pendingWrites, EndOfFile)
    decreases |p.pendingWrites|
  {
    if p.pendingWrites != [] {
      RefuseWritesAll(Answered(p.(pendingWrites := p.pendingWrites[1..]), p.pendingWrites[0], EndOfFile));
    }
  }

  /** So are waiting writers: the first one if the buffer has room, all of them if nobody reads anymore. */
  lemma PendingWriteAnswer(p: Pipe)
    requires Inv(p)
    ensures Enabled(p, SPendingWrite)
    ensures var p' := Next(p, SPendingWrite);
            if p.lastWriter.Some? || p.pendingWrites == [] then
              p'.hist == p.hist && p'.pendingWrites == p.pendingWrites && p'.lastWriter == p.lastWriter
            else if p.readEof then
              p'.pendingWrites == [] && p'.hist.replies == p.hist.replies + All(p.pendingWrites, EndOfFile)
            else if R.Offers(p.ring, WriteSize(p)) then
              && p'.pendingWrites == p.pendingWrites[1..] && Writes(p', p.pendingWrites[0].chan)
              && p'.hist.replies == p.hist.replies
                 + [Reply(p.pendingWrites[0], Window(p'.hist.writeAt, Amount(p', p.pendingWrites[0].chan)))]
            else p'.hist == p.hist && p'.pendingWrites == p.pendingWrites && p'.lastWriter.None?
  {
    PendingHasChannel(p);
    if p.lastWriter.None? && p.readEof {
      RefuseWritesAll(p);
    } else if p.lastWriter.None? && p.pendingWrites != [] {
      R.GrantExactly(p.ring, WriteSize(p));
    }
  }

  // ---------------------------------------------------------------- windows

  /** The share of a channel is the largest one with which all channels together get no more than a quarter of the buffer. */
  lemma ShareExactly(size: nat, channels: nat)
    requires channels > 0
    ensures (4 * channels) * Share(size, channels) <= size < (4 * channels) * (Share(size, channels) + 1)
  {
    DivFacts(size, 4 * channels);
  }

  /** Somebody on the channel was told this window. */
  ghost predicate WasTold(replies: seq<Reply>, c: Chan, at: nat, len: nat) {
    exists i :: 0 <= i < |replies| && replies[i].to.chan == c && replies[i].answer == Window(at, len)
  }

  ghost predicate HoldersKnow(p: Pipe) {
    && (p.lastReader.Some? ==> WasTold(p.hist.replies, p.lastReader.value, p.hist.readAt, Amount(p, p.lastReader.value)))
    && (p.lastWriter.Some? ==> WasTold(p.hist.replies, p.lastWriter.value, p.hist.writeAt, Amount(p, p.lastWriter.value)))
  }

  /** The last answer of `p'` is the window of the reader or the writer that got one. */
  ghost predicate NewHolder(p: Pipe, p': Pipe, read: bool) {
    && |p'.hist.replies| > |p.hist.replies|
    && var last := p'.hist.replies[|p'.hist.replies| - 1];
       if read then
         p'.lastReader == Some(last.to.chan) && last.answer == Window(p'.hist.readAt, Amount(p', last.to.chan))
       else
         p'.lastWriter == Some(last.to.chan) && last.answer == Window(p'.hist.writeAt, Amount(p', last.to.chan))
  }

  /** The windows of a state are those of the other one. */
  ghost predicate SameReader(p: Pipe, p': Pipe) {
    p'.lastReader.Some? ==>
      p.lastReader == p'.lastReader && p'.hist.readAt == p.hist.readAt
      && Amount(p', p'.lastReader.value) == Amount(p, p'.lastReader.value)
  }

  ghost predicate SameWriter(p: Pipe, p': Pipe) {
    p'.lastWriter.Some? ==>
      p.lastWriter == p'.lastWriter && p'.hist.writeAt == p.hist.writeAt
      && Amount(p', p'.lastWriter.value) == Amount(p, p'.lastWriter.value)
  }

  lemma AskReadHolder(p: Pipe, q: Request)
    requires |p.readers| > 0 && p.lastReader.None? && p.lastWriter != Some(q.chan)
    ensures SameWriter(p, AskRead(p, q)) && (AskRead(p, q).lastReader.None? || NewHolder(p, AskRead(p, q), true))
  {
  }

  lemma ReadHolder(p: Pipe, q: Request, commit: nat, active: bool)
    requires Channels(p) && WriterHolds(p) && Enabled(p, SRead(q, commit, active))
    ensures var p' := Next(p, SRead(q, commit, active));
            SameWriter(p, p') && (SameReader(p, p') || NewHolder(p, p', true))
  {
    assert p.lastWriter != Some(q.chan);
    if active && commit == 0 && p.lastReader == Some(q.chan) {
      AskReadHolder(Settle(Arrived(p, q), Amount(p, q.chan)), q);
    } else if active && commit == 0 && p.lastReader.None? {
      AskReadHolder(Arrived(p, q), q);
    }
  }

  lemma AskWriteHolder(p: Pipe, q: Request)
    requires |p.writers| > 0 && p.lastWriter.None? && p.lastReader != Some(q.chan)
    ensures SameReader(p, AskWrite(p, q)) && (AskWrite(p, q).lastWriter.None? || NewHolder(p, AskWrite(p, q), false))
  {
  }

  lemma WriteHolder(p: Pipe, q: Request, commit: nat, active: bool)
    requires Channels(p) && ReaderHolds(p) && Enabled(p, SWrite(q, commit, active))
    ensures var p' := Next(p, SWrite(q, commit, active));
            SameReader(p, p') && (SameWriter(p, p') || NewHolder(p, p', false))
  {
    assert p.lastReader != Some(q.chan);
    if active && !p.readEof && commit == 0 && p.lastWriter == Some(q.chan) {
      AskWriteHolder(Commit(Arrived(p, q), Amount(p, q.chan), Amount(p, q.chan)), q);
    } else if active && !p.readEof && commit == 0 && p.lastWriter.None? {
      AskWriteHolder(Arrived(p, q), q);
    }
  }

  lemma {:induction false} ServeReadsHolder(p: Pipe)
    requires p.lastReader.None? && (p.pendingReads != [] ==> |p.readers| > 0)
    requires forall i :: 0 <= i < |p.pendingReads| && p.lastWriter.Some? ==> p.pendingReads[i].chan != p.lastWriter.value
    ensures SameWriter(p, ServeReads(p)) && (SameReader(p, ServeReads(p)) || NewHolder(p, ServeReads(p), true))
    decreases |p.pendingReads|
  {
    if p.pendingReads != [] && R.Empty(p.ring) && p.writeEof {
      ServeReadsHolder(Answered(p.(pendingReads := p.pendingReads[1..]), p.pendingReads[0], Window(0, 0)));
    }
  }

  lemma PendingWriteHolder(p: Pipe)
    requires Inv(p) && Enabled(p, SPendingWrite)
    ensures var p' := Next(p, SPendingWrite);
            SameReader(p, p') && (SameWriter(p, p') || NewHolder(p, p', false))
  {
    if p.lastWriter.None? && p.readEof {
      RefuseWritesLeavesNothing(p);
      RefuseWritesKeepsWindows(p);
    }
  }

  lemma {:induction false} RefuseWritesKeepsWindows(p: Pipe)
    ensures RefuseWrites(p).hist.readAt == p.hist.readAt && RefuseWrites(p).hist.writeAt == p.hist.writeAt
    decreases |p.pendingWrites|
  {
    if p.pendingWrites != [] {
      RefuseWritesKeepsWindows(Answered(p.(pendingWrites := p.pendingWrites[1..]), p.pendingWrites[0], EndOfFile));
    }
  }

  lemma OthersKeepWindows(p: Pipe, s: Step)
    requires Channels(p) && ReaderHolds(p) && WriterHolds(p) && Enabled(p, s)
    requires s.SAttach? || s.SCloseReader? || s.SCloseWriter? || s.SStore?
    ensures SameReader(p, Next(p, s)) && SameWriter(p, Next(p, s))
  {
  }

  /** In every step, whoever gets a window is told exactly that one, and all other holders keep theirs. */
  lemma WindowsAreTold(p: Pipe, s: Step)
    requires Inv(p) && Enabled(p, s)
    ensures var p' := Next(p, s);
            && (SameReader(p, p') || NewHolder(p, p', true))
            && (SameWriter(p, p') || NewHolder(p, p', false))
  {
    match s
    case SRead(q, commit, active) => ReadHolder(p, q, commit, active);
    case SWrite(q, commit, active) => WriteHolder(p, q, commit, active);
    case SPendingRead => if p.lastReader.None? { ServeReadsHolder(p); }
    case SPendingWrite => PendingWriteHolder(p);
    case _ => OthersKeepWindows(p, s);
  }

  lemma StepKnows(p: Pipe, s: Step)
    requires Inv(p) && HoldersKnow(p) && Enabled(p, s)
    ensures HoldersKnow(Next(p, s))
  {
    var p' := Next(p, s);
    WindowsAreTold(p, s);
    StepGrows(p, s);
    forall c, at, len | WasTold(p.hist.replies, c, at, len) ensures WasTold(p'.hist.replies, c, at, len) {
      var i :| 0 <= i < |p.hist.replies| && p.hist.replies[i].to.chan == c && p.hist.replies[i].answer == Window(at, len);
      assert p'.hist.replies[i] == p.hist.replies[i];
    }
  }

  lemma {:induction false} RunKnows(p: Pipe, steps: seq<Step>, p': Pipe)
    requires Inv(p) && HoldersKnow(p) && Run(p, steps, p')
    ensures HoldersKnow(p')
    decreases |steps|
  {
    if steps != [] {
      StepKeeps(p, steps[0]);
      StepKnows(p, steps[0]);
      RunKnows(Next(p, steps[0]), steps[1..], p');
    }
  }

  /** In every reachable state, the windows that the server will settle are windows that their holders were told. */
  lemma HoldersWereTold(p: Pipe)
    requires Reachable(p)
    ensures HoldersKnow(p)
  {
    var mem: seq<R.Byte>, steps :| |mem| < R.WORD && |mem| % R.PKG == 0 && Run(Init(mem), steps, p);
    RunKnows(Init(mem), steps, p);
  }

  // ---------------------------------------------------------------- attaching and closing

  lemma {:induction false} WithoutOne(s: seq<Chan>, c: Chan)
    requires c in s
    ensures multiset(Without(s, c)) == multiset(s) - multiset{c}
    decreases |s|
  {
    assert s == [s[0]] + s[1..];
    if s[0] != c {
      WithoutOne(s[1..], c);
    }
  }

  /** A closed reader is gone with its requests and its window, of which nothing was consumed; the last one closes the end. */
  lemma CloseReaderExactly(p: Pipe, c: Chan)
    requires Inv(p) && Enabled(p, SCloseReader(c))
    ensures var p' := Next(p, SCloseReader(c));
            && multiset(p'.readers) == multiset(p.readers) - multiset{c} && p'.writers == p.writers
            && (p'.readEof <==> p'.readers == []) && p'.writeEof == p.writeEof
            && p'.lastReader == (if p.lastReader == Some(c) then None else p.lastReader) && p'.lastWriter == p.lastWriter
            && (forall q :: q in p'.pendingReads <==> q in p.pendingReads && q.chan != c) && p'.pendingWrites == p.pendingWrites
            && p'.hist.delivered == p.hist.delivered && p'.hist.committed == p.hist.committed
            && p'.hist.replies == p.hist.replies
  {
    WithoutOne(p.readers, c);
    forall q ensures q in Others(p.pendingReads, c) <==> q in p.pendingReads && q.chan != c {
      OthersAre(p.pendingReads, c, q);
    }
  }

  /** So is a closed writer. */
  lemma CloseWriterExactly(p: Pipe, c: Chan)
    requires Inv(p) && Enabled(p, SCloseWriter(c))
    ensures var p' := Next(p, SCloseWriter(c));
            && multiset(p'.writers) == multiset(p.writers) - multiset{c} && p'.readers == p.readers
            && (p'.writeEof <==> p'.writers == []) && p'.readEof == p.readEof
            && p'.lastWriter == (if p.lastWriter == Some(c) then None else p.lastWriter) && p'.lastReader == p.lastReader
            && (forall q :: q in p'.pendingWrites <==> q in p.pendingWrites && q.chan != c) && p'.pendingReads == p.pendingReads
            && p'.hist.delivered == p.hist.delivered && p'.hist.committed == p.hist.committed
            && p'.hist.replies == p.hist.replies
  {
    WithoutOne(p.writers, c);
    if p.lastWriter == Some(c) {
      GiveBackKeeps(p, c);
    }
    forall q ensures q in Others(p.pendingWrites, c) <==> q in p.pendingWrites && q.chan != c {
      OthersAre(p.pendingWrites, c, q);
    }
  }

  lemma FlagsStay(p: Pipe, s: Step)
    requires Enabled(p, s)
    ensures p.readEof ==> Next(p, s).readEof
    ensures p.writeEof ==> Next(p, s).writeEof
  {
    match s
    case SPendingRead => ServeReadsServes(p);
    case SPendingWrite => RefuseWritesLeavesNothing(p);
    case _ =>
  }

  lemma {:induction false} FlagsStayInRuns(p: Pipe, steps: seq<Step>, p': Pipe)
    requires Run(p, steps, p')
    ensures p.readEof ==> p'.readEof
    ensures p.writeEof ==> p'.writeEof
    decreases |steps|
  {
    if steps != [] {
      FlagsStay(p, steps[0]);
      FlagsStayInRuns(Next(p, steps[0]), steps[1..], p');
    }
  }

  /** Whatever happens after the last reader has closed, every write is refused, and the waiting ones are. */
  lemma LastReaderRefuses(p: Pipe, c: Chan, steps: seq<Step>, p': Pipe, q: Request, commit: nat)
    requires Inv(p) && p.readers == [c] && Enabled(p, SCloseReader(c)) && Run(Next(p, SCloseReader(c)), steps, p')
    requires Enabled(p', SWrite(q, commit, true))
    ensures var p'' := Next(p', SWrite(q, commit, true));
            Gets(p', p'', q, EndOfFile) && p''.hist.committed == p'.hist.committed
    ensures Enabled(p', SPendingWrite) && (p'.lastWriter.None? ==> Next(p', SPendingWrite).pendingWrites == [])
  {
    CloseReaderKeeps(p, c);
    CloseReaderExactly(p, c);
    assert multiset(p.readers) - multiset{c} == multiset{};
    RunKeeps(Next(p, SCloseReader(c)), steps, p');
    FlagsStayInRuns(Next(p, SCloseReader(c)), steps, p');
    WriteAnswer(p', q, commit, true);
    PendingWriteAnswer(p');
  }

  /** Whatever happens after the last writer has closed, a reader that finds everything delivered is told the end of the file. */
  lemma LastWriterEnds(p: Pipe, c: Chan, steps: seq<Step>, p': Pipe, q: Request)
    requires Inv(p) && p.writers == [c] && Enabled(p, SCloseWriter(c)) && Run(Next(p, SCloseWriter(c)), steps, p')
    requires Enabled(p', SRead(q, 0, true)) && (p'.lastReader.None? || p'.lastReader == Some(q.chan))
    ensures var p'' := Next(p', SRead(q, 0, true));
            p''.hist.delivered == p''.hist.committed ==> Gets(p', p'', q, Window(0, 0))
  {
    CloseWriterKeeps(p, c);
    CloseWriterExactly(p, c);
    assert multiset(p.writers) - multiset{c} == multiset{};
    RunKeeps(Next(p, SCloseWriter(c)), steps, p');
    FlagsStayInRuns(Next(p, SCloseWriter(c)), steps, p');
    ReadAnswer(p', q, 0, true);
  }

  /** An attached channel can send requests to its end, and nothing else changes. */
  lemma AttachExactly(p: Pipe, c: Chan, read: bool, q: Request)
    requires Inv(p) && Enabled(p, SAttach(c, read)) && q.chan == c
    ensures var p' := Next(p, SAttach(c, read));
            && Enabled(p', if read then SRead(q, 0, true) else SWrite(q, 0, true))
            && p'.hist == p.hist && p'.ring == p.ring && p'.lastReader == p.lastReader && p'.lastWriter == p.lastWriter
            && |p'.readers| + |p'.writers| == |p.readers| + |p.writers| + 1 && p.readers <= p'.readers && p.writers <= p'.writers
  {
  }

  /** A new pipe is open at both ends: its first writer gets its share at the beginning of the memory, its first reader waits. */
  lemma NewPipeServes(mem: seq<R.Byte>, c: Chan, d: Chan, q: Request, q': Request)
    requires |mem| < R.WORD && |mem| % R.PKG == 0 && c != d && q.chan == c && q'.chan == d
    ensures var p := Init(mem);
            && Enabled(p, SAttach(c, false)) && var p1 := Next(p, SAttach(c, false));
            && Enabled(p1, SAttach(d, true)) && var p2 := Next(p1, SAttach(d, true));
            && Enabled(p2, SRead(q', 0, true)) && Next(p2, SRead(q', 0, true)).pendingReads == [q']
            && Enabled(p2, SWrite(q, 0, true))
            && Next(p2, SWrite(q, 0, true)).hist.replies == [Reply(q, Window(0, Share(|mem|, 1)))]
  {
    var p2 := Next(Next(Init(mem), SAttach(c, false)), SAttach(d, true));
    ShareIsSmall(|mem|, 1);
    R.GrantExactly(p2.ring, Share(|mem|, 1));
  }
}
