/** The pipe is a byte FIFO, and every request is accounted for, in every run of the protocol. */
module PipeProofs {
  import opened Options
  import opened PipeSpec
  import R = RingSpec

  // ---------------------------------------------------------------- the invariant

  ghost predicate Channels(p: Pipe) {
    && (forall c :: c in p.readers ==> c in p.lastAmount && c !in p.writers)
    && (forall c :: c in p.writers ==> c in p.lastAmount)
    && (forall i :: 0 <= i < |p.pendingReads| ==> p.pendingReads[i].chan in p.readers)
    && (forall i :: 0 <= i < |p.pendingWrites| ==> p.pendingWrites[i].chan in p.writers)
    && (p.readEof ==> p.readers == [])
    && (p.writeEof ==> p.writers == [])
  }

  /** The holder of the read window: what it was told is what the next pull will take. */
  ghost predicate ReaderHolds(p: Pipe) {
    p.lastReader.Some? ==>
      && p.lastReader.value in p.readers
      && !R.Empty(p.ring)
      && p.hist.readAt == R.ReadPos(p.ring)
      && Amount(p, p.lastReader.value) <= R.Contiguous(p.ring)
  }

  /** The holder of the write window: what it was told is where the next push will put the bytes. */
  ghost predicate WriterHolds(p: Pipe) {
    p.lastWriter.Some? ==>
      && p.lastWriter.value in p.writers
      && p.ring.wr % R.PKG == 0
      && R.Slot(p.ring, Amount(p, p.lastWriter.value)) == Some(p.hist.writeAt)
  }

  /** The unread bytes of the buffer are exactly what was committed and not yet delivered. */
  ghost predicate Fifo(p: Pipe)
    requires R.Inv(p.ring) && |p.mem| == p.ring.size
  {
    p.hist.committed == p.hist.delivered + R.Unread(p.ring, p.mem)
  }

  ghost function Told(s: seq<Reply>): multiset<Request> {
    if s == [] then multiset{} else multiset{s[0].to} + Told(s[1..])
  }

  /** Every message that arrived was answered, is waiting, or was discarded: exactly one of these. */
  ghost predicate Accounts(p: Pipe) {
    p.hist.asked
    == Told(p.hist.replies) + multiset(p.pendingReads) + multiset(p.pendingWrites) + multiset(p.hist.discarded)
  }

  ghost predicate Inv(p: Pipe) {
    && R.Inv(p.ring) && |p.mem| == p.ring.size
    && Channels(p) && ReaderHolds(p) && WriterHolds(p) && Fifo(p) && Accounts(p)
  }

  // ---------------------------------------------------------------- lists

  lemma {:induction false} ToldConcat(a: seq<Reply>, b: seq<Reply>)
    ensures Told(a + b) == Told(a) + Told(b)
    decreases |a|
  {
    if a == [] {
      assert a + b == b;
    } else {
      assert (a + b)[1..] == a[1..] + b;
      ToldConcat(a[1..], b);
    }
  }

  lemma {:induction false} SplitByOwner(s: seq<Request>, c: Chan)
    ensures multiset(s) == multiset(Own(s, c)) + multiset(Others(s, c))
  {
    if s != [] {
      SplitByOwner(s[1..], c);
      assert s == [s[0]] + s[1..];
    }
  }

  lemma {:induction false} OthersAre(s: seq<Request>, c: Chan, q: Request)
    ensures q in Others(s, c) <==> q in s && q.chan != c
    ensures q in Own(s, c) <==> q in s && q.chan == c
  {
    if s != [] {
      OthersAre(s[1..], c, q);
      assert q in s <==> q == s[0] || q in s[1..];
    }
  }

  lemma {:induction false} WithoutKeepsOthers(s: seq<Chan>, c: Chan, x: Chan)
    ensures x in Without(s, c) ==> x in s
    ensures x in s && x != c ==> x in Without(s, c)
  {
    if s != [] {
      WithoutKeepsOthers(s[1..], c, x);
    }
  }

  // ---------------------------------------------------------------- parts of the operations

  lemma AnsweredKeeps(p: Pipe, q: Request, a: Answer)
    requires R.Inv(p.ring) && |p.mem| == p.ring.size
    ensures Told(Answered(p, q, a).hist.replies) == Told(p.hist.replies) + multiset{q}
  {
    ToldConcat(p.hist.replies, [Reply(q, a)]);
    assert [Reply(q, a)][1..] == [];
  }

  /** Everything but the account of the message that is being handled. */
  ghost predicate InvFor(p: Pipe, open: multiset<Request>) {
    && R.Inv(p.ring) && |p.mem| == p.ring.size
    && Channels(p) && ReaderHolds(p) && WriterHolds(p) && Fifo(p)
    && p.hist.asked
       == Told(p.hist.replies) + multiset(p.pendingReads) + multiset(p.pendingWrites) + multiset(p.hist.discarded) + open
  }

  lemma MoveFront(s: seq<R.Byte>, u: seq<R.Byte>, k: nat)
    requires k <= |u|
    ensures s + u == (s + u[..k]) + u[k..]
  {
  }

  lemma SettleFifo(p: Pipe, k: nat)
    requires R.Inv(p.ring) && |p.mem| == p.ring.size && Fifo(p) && !R.Empty(p.ring)
    requires p.hist.readAt == R.ReadPos(p.ring) && k <= R.Contiguous(p.ring)
    ensures R.Inv(Settle(p, k).ring) && Settle(p, k).ring.size == p.ring.size && Fifo(Settle(p, k))
  {
    R.PullDrops(p.ring, p.mem, k);
    MoveFront(p.hist.delivered, R.Unread(p.ring, p.mem), k);
  }

  lemma SettleKeeps(p: Pipe, k: nat, open: multiset<Request>)
    requires InvFor(p, open) && p.lastReader.Some? && k <= Amount(p, p.lastReader.value)
    ensures InvFor(Settle(p, k), open)
  {
    SettleFifo(p, k);
    if p.lastWriter.Some? {
      R.PullKeepsSlot(p.ring, Amount(p, p.lastWriter.value), k);
    }
  }

  lemma CommitKeeps(p: Pipe, k: nat, open: multiset<Request>)
    requires InvFor(p, open) && p.lastWriter.Some? && k <= Amount(p, p.lastWriter.value)
    ensures InvFor(Commit(p, Amount(p, p.lastWriter.value), k), open)
  {
    var n := Amount(p, p.lastWriter.value);
    R.PushAppends(p.ring, p.mem, n, k);
    var u := R.Unread(p.ring, p.mem);
    var b := Bytes(p.mem, p.hist.writeAt, k);
    assert (p.hist.delivered + u) + b == p.hist.delivered + (u + b);
    if p.lastReader.Some? {
      R.PushKeepsReadWindow(p.ring, n, k);
    }
  }

  lemma AlignedKeeps(p: Pipe, n: nat, open: multiset<Request>)
    requires InvFor(p, open) && p.lastWriter.None?
    ensures InvFor(p.(ring := R.GetWritePos(p.ring, n).0), open)
    ensures R.GetWritePos(p.ring, n).1.Some? ==> R.GetWritePos(p.ring, n).0.wr % R.PKG == 0
    ensures R.GetWritePos(p.ring, n).0.size == p.ring.size
  {
    if R.Aligned(p.ring).Some? {
      R.AlignKeeps(p.ring, p.mem);
    }
  }

  lemma QueueReadKeeps(p: Pipe, q: Request)
    requires InvFor(p, multiset{q}) && q.chan in p.readers
    ensures Inv(p.(pendingReads := p.pendingReads + [q]))
  {
  }

  lemma QueueWriteKeeps(p: Pipe, q: Request)
    requires InvFor(p, multiset{q}) && q.chan in p.writers
    ensures Inv(p.(pendingWrites := p.pendingWrites + [q]))
  {
    var p' := p.(pendingWrites := p.pendingWrites + [q]);
    assert Channels(p');
    assert Fifo(p');
  }

  lemma ReplyKeeps(p: Pipe, q: Request, a: Answer)
    requires InvFor(p, multiset{q})
    ensures Inv(Answered(p, q, a))
  {
    AnsweredKeeps(p, q, a);
  }

  lemma GrantReadKeeps(p: Pipe, q: Request)
    requires InvFor(p, multiset{q}) && q.chan in p.readers && p.lastReader.None?
    requires R.GetReadPos(p.ring, ReadSize(p)).Some?
    ensures var (at, len) := R.GetReadPos(p.ring, ReadSize(p)).value; Inv(GrantRead(p, q, at, len))
  {
    var (at, len) := R.GetReadPos(p.ring, ReadSize(p)).value;
    var p1 := p.(lastReader := Some(q.chan), lastAmount := p.lastAmount[q.chan := len],
                 hist := p.hist.(readAt := at));
    assert InvFor(p1, multiset{q});
    ReplyKeeps(p1, q, Window(at, len));
  }

  lemma GrantWriteKeeps(p: Pipe, q: Request, at: nat, len: nat)
    requires InvFor(p, multiset{q}) && q.chan in p.writers && p.lastWriter.None?
    requires p.ring.wr % R.PKG == 0 && R.Slot(p.ring, len) == Some(at)
    ensures Inv(GrantWrite(p, q, at, len))
  {
    var p1 := p.(lastWriter := Some(q.chan), lastAmount := p.lastAmount[q.chan := len],
                 hist := p.hist.(writeAt := at));
    assert InvFor(p1, multiset{q});
    ReplyKeeps(p1, q, Window(at, len));
  }

  // ---------------------------------------------------------------- every operation keeps the invariant

  lemma AskReadKeeps(p: Pipe, q: Request)
    requires InvFor(p, multiset{q}) && q.chan in p.readers && p.lastReader.None?
    ensures Inv(AskRead(p, q))
  {
    if (p.pendingReads != [] && !p.writeEof) || (R.Empty(p.ring) && !p.writeEof) {
      QueueReadKeeps(p, q);
    } else if R.Empty(p.ring) {
      ReplyKeeps(p, q, Window(0, 0));
    } else {
      GrantReadKeeps(p, q);
    }
  }

  lemma ReadKeeps(p: Pipe, q: Request, commit: nat, active: bool)
    requires Inv(p) && Enabled(p, SRead(q, commit, active))
    ensures Inv(Read(p, q, commit, active))
  {
    var p0 := Arrived(p, q);
    assert InvFor(p0, multiset{q});
    if !active {
      ReplyKeeps(p0, q, Failed);
    } else if p.lastReader.Some? && p.lastReader != Some(q.chan) {
      QueueReadKeeps(p0, q);
    } else {
      var k := if commit == 0 then Amount(p, q.chan) else commit;
      var p1 := if p.lastReader.Some? then Settle(p0, k) else p0;
      if p.lastReader.Some? {
        SettleKeeps(p0, k, multiset{q});
      }
      if commit > 0 {
        ReplyKeeps(p1, q, Committed(p1.ring.size));
      } else {
        AskReadKeeps(p1, q);
      }
    }
  }

  lemma AskWriteKeeps(p: Pipe, q: Request)
    requires InvFor(p, multiset{q}) && q.chan in p.writers && p.lastWriter.None?
    ensures Inv(AskWrite(p, q))
  {
    if p.pendingWrites != [] {
      QueueWriteKeeps(p, q);
    } else {
      var n := WriteSize(p);
      AlignedKeeps(p, n, multiset{q});
      var (ring, pos) := R.GetWritePos(p.ring, n);
      var p1 := p.(ring := ring);
      assert WriteSize(p1) == n;
      match pos
      case None => QueueWriteKeeps(p1, q);
      case Some(at) => GrantWriteKeeps(p1, q, at, n);
    }
  }

  lemma WriteKeeps(p: Pipe, q: Request, commit: nat, active: bool)
    requires Inv(p) && Enabled(p, SWrite(q, commit, active))
    ensures Inv(Write(p, q, commit, active))
  {
    var p0 := Arrived(p, q);
    assert InvFor(p0, multiset{q});
    if !active {
      ReplyKeeps(p0, q, Failed);
    } else if p.readEof {
      ReplyKeeps(p0, q, EndOfFile);
    } else if p.lastWriter.Some? && p.lastWriter != Some(q.chan) {
      QueueWriteKeeps(p0, q);
    } else {
      var n := Amount(p, q.chan);
      var k := if commit == 0 then n else commit;
      var p1 := if p.lastWriter.Some? then Commit(p0, n, k) else p0;
      if p.lastWriter.Some? {
        CommitKeeps(p0, k, multiset{q});
      }
      if commit > 0 {
        ReplyKeeps(p1, q, Committed(p1.ring.size));
      } else {
        AskWriteKeeps(p1, q);
      }
    }
  }

  lemma DiscardReadsKeeps(p: Pipe, c: Chan)
    requires Inv(p) && c in p.readers
    ensures var p' := p.(pendingReads := Others(p.pendingReads, c),
                         hist := p.hist.(discarded := p.hist.discarded + Own(p.pendingReads, c)));
            Inv(p') && forall q :: q in p'.pendingReads ==> q.chan != c
  {
    var own, others := Own(p.pendingReads, c), Others(p.pendingReads, c);
    forall q ensures q in others ==> q in p.pendingReads && q.chan != c {
      OthersAre(p.pendingReads, c, q);
    }
    var p' := p.(pendingReads := others, hist := p.hist.(discarded := p.hist.discarded + own));
    assert Channels(p');
    assert Accounts(p') by {
      SplitByOwner(p.pendingReads, c);
    }
    assert ReaderHolds(p') && WriterHolds(p') && Fifo(p');
  }

  lemma DetachReadKeeps(p: Pipe, c: Chan)
    requires Inv(p) && c in p.readers && p.lastReader != Some(c)
    requires forall q :: q in p.pendingReads ==> q.chan != c
    ensures Inv(p.(readers := Without(p.readers, c), readEof := Without(p.readers, c) == []))
  {
    var p' := p.(readers := Without(p.readers, c), readEof := Without(p.readers, c) == []);
    forall x ensures x in p'.readers ==> x in p.readers
             ensures x in p.readers && x != c ==> x in p'.readers
    {
      WithoutKeepsOthers(p.readers, c, x);
    }
    assert Channels(p');
    assert Fifo(p');
  }

  lemma CloseReaderKeeps(p: Pipe, c: Chan)
    requires Inv(p) && c in p.readers
    ensures Inv(CloseReader(p, c))
  {
    DiscardReadsKeeps(p, c);
    var p1 := p.(pendingReads := Others(p.pendingReads, c),
                 hist := p.hist.(discarded := p.hist.discarded + Own(p.pendingReads, c)));
    var p2 := if p1.lastReader == Some(c) then Settle(p1, 0) else p1;
    if p1.lastReader == Some(c) {
      SettleKeeps(p1, 0, multiset{});
    }
    DetachReadKeeps(p2, c);
  }

  lemma DiscardWritesKeeps(p: Pipe, c: Chan)
    requires Inv(p) && c in p.writers
    ensures var p' := p.(pendingWrites := Others(p.pendingWrites, c),
                         hist := p.hist.(discarded := p.hist.discarded + Own(p.pendingWrites, c)));
            Inv(p') && forall q :: q in p'.pendingWrites ==> q.chan != c
  {
    var own, others := Own(p.pendingWrites, c), Others(p.pendingWrites, c);
    forall q ensures q in others ==> q in p.pendingWrites && q.chan != c {
      OthersAre(p.pendingWrites, c, q);
    }
    var p' := p.(pendingWrites := others, hist := p.hist.(discarded := p.hist.discarded + own));
    assert Channels(p');
    assert Accounts(p') by {
      SplitByOwner(p.pendingWrites, c);
    }
    assert ReaderHolds(p') && WriterHolds(p') && Fifo(p');
  }

  lemma DetachWriteKeeps(p: Pipe, c: Chan)
    requires Inv(p) && c in p.writers && p.lastWriter != Some(c)
    requires forall q :: q in p.pendingWrites ==> q.chan != c
    ensures Inv(p.(writers := Without(p.writers, c), writeEof := Without(p.writers, c) == []))
  {
    var p' := p.(writers := Without(p.writers, c), writeEof := Without(p.writers, c) == []);
    forall x ensures x in p'.writers ==> x in p.writers
             ensures x in p.writers && x != c ==> x in p'.writers
    {
      WithoutKeepsOthers(p.writers, c, x);
    }
    assert Channels(p');
    assert Fifo(p');
  }

  /** The window of a closing writer is given back with nothing committed. */
  lemma GiveBackKeeps(p: Pipe, c: Chan)
    requires Inv(p) && p.lastWriter == Some(c)
    ensures Amount(p, c) != R.WORD - 1 && Inv(Commit(p, Amount(p, c), 0))
  {
    R.SlotIsFree(p.ring, Amount(p, c), 0);
    CommitKeeps(p, 0, multiset{});
  }

  lemma CloseWriterKeeps(p: Pipe, c: Chan)
    requires Inv(p) && c in p.writers
    ensures Inv(CloseWriter(p, c))
  {
    DiscardWritesKeeps(p, c);
    var p1 := p.(pendingWrites := Others(p.pendingWrites, c),
                 hist := p.hist.(discarded := p.hist.discarded + Own(p.pendingWrites, c)));
    if p1.lastWriter == Some(c) {
      GiveBackKeeps(p1, c);
      DetachWriteKeeps(Commit(p1, Amount(p1, c), 0), c);
    } else {
      DetachWriteKeeps(p1, c);
    }
  }

  lemma {:induction false} ServeReadsKeeps(p: Pipe)
    requires Inv(p) && p.lastReader.None?
    requires p.pendingReads != [] ==> |p.readers| > 0
    ensures Inv(ServeReads(p))
    decreases |p.pendingReads|
  {
    if p.pendingReads != [] {
      var q, rest := p.pendingReads[0], p.(pendingReads := p.pendingReads[1..]);
      assert p.pendingReads == [q] + rest.pendingReads;
      assert InvFor(rest, multiset{q});
      if !R.Empty(p.ring) {
        GrantReadKeeps(rest, q);
      } else if p.writeEof {
        ReplyKeeps(rest, q, Window(0, 0));
        ServeReadsKeeps(Answered(rest, q, Window(0, 0)));
      }
    }
  }

  lemma {:induction false} RefuseWritesKeeps(p: Pipe)
    requires Inv(p)
    ensures Inv(RefuseWrites(p))
    decreases |p.pendingWrites|
  {
    if p.pendingWrites != [] {
      var q, rest := p.pendingWrites[0], p.(pendingWrites := p.pendingWrites[1..]);
      assert p.pendingWrites == [q] + rest.pendingWrites;
      assert InvFor(rest, multiset{q});
      ReplyKeeps(rest, q, EndOfFile);
      RefuseWritesKeeps(Answered(rest, q, EndOfFile));
    }
  }

  lemma ServeWriteKeeps(p: Pipe)
    requires Inv(p) && p.lastWriter.None? && p.pendingWrites != [] && |p.writers| > 0
    requires R.GetWritePos(p.ring, WriteSize(p)).1.Some?
    ensures var (ring, pos) := R.GetWritePos(p.ring, WriteSize(p));
            Inv(GrantWrite(p.(ring := ring, pendingWrites := p.pendingWrites[1..]), p.pendingWrites[0],
                           pos.value, WriteSize(p)))
  {
    var n := WriteSize(p);
    var q, rest := p.pendingWrites[0], p.(pendingWrites := p.pendingWrites[1..]);
    assert p.pendingWrites == [q] + rest.pendingWrites;
    var (ring, pos) := R.GetWritePos(p.ring, n);
    assert Channels(rest);
    assert Fifo(rest);
    assert InvFor(rest, multiset{q});
    AlignedKeeps(rest, n, multiset{q});
    GrantWriteKeeps(rest.(ring := ring), q, pos.value, n);
  }

  lemma HandlePendingWriteKeeps(p: Pipe)
    requires Inv(p) && (p.pendingWrites != [] ==> |p.writers| > 0)
    ensures Inv(HandlePendingWrite(p))
  {
    if p.lastWriter.None? && p.readEof {
      RefuseWritesKeeps(p);
    } else if p.lastWriter.None? && p.pendingWrites != [] {
      if R.GetWritePos(p.ring, WriteSize(p)).1.Some? {
        ServeWriteKeeps(p);
      } else {
        AlignedKeeps(p, WriteSize(p), multiset{});
      }
    }
  }

  lemma StoreKeeps(p: Pipe, c: Chan, at: nat, byte: R.Byte)
    requires Inv(p) && Enabled(p, SStore(c, at, byte))
    ensures Inv(p.(mem := p.mem[at := byte]))
  {
    R.StoreKeepsUnread(p.ring, p.mem, p.mem[at := byte], Amount(p, c));
  }

  lemma StepKeeps(p: Pipe, s: Step)
    requires Inv(p) && Enabled(p, s)
    ensures Inv(Next(p, s))
  {
    match s
    case SAttach(c, read) =>
    case SRead(q, commit, active) => ReadKeeps(p, q, commit, active);
    case SWrite(q, commit, active) => WriteKeeps(p, q, commit, active);
    case SCloseReader(c) => CloseReaderKeeps(p, c);
    case SCloseWriter(c) => CloseWriterKeeps(p, c);
    case SPendingWrite => HandlePendingWriteKeeps(p);
    case SPendingRead => if p.lastReader.None? { ServeReadsKeeps(p); }
    case SStore(c, at, byte) => StoreKeeps(p, c, at, byte);
  }

  /** The assertions of the operations hold: every channel-dependent one has its channel. */
  lemma PendingHasChannel(p: Pipe)
    requires Inv(p)
    ensures Enabled(p, SPendingWrite) && Enabled(p, SPendingRead)
    ensures p.lastReader.Some? ==> !R.Empty(p.ring)
    ensures p.lastWriter.Some? ==> p.ring.wr % R.PKG == 0
  {
    if p.pendingWrites != [] {
      assert p.pendingWrites[0].chan in p.writers;
    }
    if p.pendingReads != [] {
      assert p.pendingReads[0].chan in p.readers;
    }
  }

  // ---------------------------------------------------------------- whole runs

  lemma {:induction false} RunKeeps(p: Pipe, steps: seq<Step>, p': Pipe)
    requires Inv(p) && Run(p, steps, p')
    ensures Inv(p')
    decreases |steps|
  {
    if steps != [] {
      StepKeeps(p, steps[0]);
      RunKeeps(Next(p, steps[0]), steps[1..], p');
    }
  }

  ghost predicate Reachable(p: Pipe) {
    exists mem: seq<R.Byte>, steps ::
      |mem| < R.WORD && |mem| % R.PKG == 0 && Run(Init(mem), steps, p)
  }

  lemma ReachableInv(p: Pipe)
    requires Reachable(p)
    ensures Inv(p)
  {
    var mem: seq<R.Byte>, steps :| |mem| < R.WORD && |mem| % R.PKG == 0 && Run(Init(mem), steps, p);
    RunKeeps(Init(mem), steps, p);
  }

  ghost predicate Apart(a: nat, lenA: nat, b: nat, lenB: nat) {
    lenA == 0 || lenB == 0 || a + lenA <= b || b + lenB <= a
  }

  /**
   The pipe refines an unbounded byte FIFO.  In every reachable state the readers have seen a prefix
   of what the writers committed, in order; the holder of the read window sees the bytes that come
   next; the write window contains no unread byte and therefore no byte of the read window; and the
   buffer looks empty exactly if everything was delivered.
   */
  lemma PipeIsFifo(p: Pipe)
    requires Reachable(p)
    ensures p.hist.delivered <= p.hist.committed
    ensures R.Empty(p.ring) <==> p.hist.delivered == p.hist.committed
    ensures p.lastReader.Some? ==>
              var len := Amount(p, p.lastReader.value);
              && p.hist.readAt + len <= |p.mem|
              && p.hist.delivered + p.mem[p.hist.readAt..p.hist.readAt + len] <= p.hist.committed
    ensures p.lastWriter.Some? ==>
              var len := Amount(p, p.lastWriter.value);
              && p.hist.writeAt + len <= |p.mem|
              && forall i :: p.hist.writeAt <= i < p.hist.writeAt + len ==> !R.IsUnread(p.ring, i)
    ensures p.lastReader.Some? && p.lastWriter.Some? ==>
              Apart(p.hist.writeAt, Amount(p, p.lastWriter.value), p.hist.readAt, Amount(p, p.lastReader.value))
  {
    ReachableInv(p);
    R.EmptyIffNothingUnread(p.ring, p.mem);
    if p.lastReader.Some? {
      R.PullDrops(p.ring, p.mem, Amount(p, p.lastReader.value));
    }
    if p.lastWriter.Some? {
      var len := Amount(p, p.lastWriter.value);
      forall i ensures p.hist.writeAt <= i < p.hist.writeAt + len ==> !R.IsUnread(p.ring, i)
               ensures p.hist.writeAt + len <= |p.mem|
      {
        R.SlotIsFree(p.ring, len, i);
      }
    }
  }

  /** Nothing that was committed, delivered or answered is ever taken back. */
  ghost predicate Grows(p: Pipe, p': Pipe) {
    && p.hist.committed <= p'.hist.committed
    && p.hist.delivered <= p'.hist.delivered
    && p.hist.replies <= p'.hist.replies
    && p.hist.discarded <= p'.hist.discarded
  }

  lemma {:induction false} ServeReadsGrows(p: Pipe)
    requires p.pendingReads != [] ==> |p.readers| > 0
    ensures Grows(p, ServeReads(p)) && ServeReads(p).hist.delivered == p.hist.delivered
    ensures ServeReads(p).hist.discarded == p.hist.discarded
    decreases |p.pendingReads|
  {
    if p.pendingReads != [] && R.Empty(p.ring) && p.writeEof {
      ServeReadsGrows(Answered(p.(pendingReads := p.pendingReads[1..]), p.pendingReads[0], Window(0, 0)));
    }
  }

  lemma {:induction false} RefuseWritesGrows(p: Pipe)
    ensures Grows(p, RefuseWrites(p))
    ensures RefuseWrites(p).hist.discarded == p.hist.discarded
    decreases |p.pendingWrites|
  {
    if p.pendingWrites != [] {
      RefuseWritesGrows(Answered(p.(pendingWrites := p.pendingWrites[1..]), p.pendingWrites[0], EndOfFile));
    }
  }

  lemma ReadGrows(p: Pipe, q: Request, commit: nat, active: bool)
    requires |p.readers| > 0
    ensures Grows(p, Read(p, q, commit, active)) && Read(p, q, commit, active).hist.discarded == p.hist.discarded
  {
  }

  lemma WriteGrows(p: Pipe, q: Request, commit: nat, active: bool)
    requires |p.writers| > 0
    ensures Grows(p, Write(p, q, commit, active)) && Write(p, q, commit, active).hist.discarded == p.hist.discarded
  {
  }

  lemma CloseGrows(p: Pipe, c: Chan)
    ensures Grows(p, CloseReader(p, c)) && CloseReader(p, c).hist.discarded == p.hist.discarded + Own(p.pendingReads, c)
    ensures Grows(p, CloseWriter(p, c)) && CloseWriter(p, c).hist.discarded == p.hist.discarded + Own(p.pendingWrites, c)
  {
  }

  lemma StepGrows(p: Pipe, s: Step)
    requires Enabled(p, s)
    ensures Grows(p, Next(p, s))
  {
    match s
    case SAttach(_, _) =>
    case SStore(_, _, _) =>
    case SRead(q, commit, active) => ReadGrows(p, q, commit, active);
    case SWrite(q, commit, active) => WriteGrows(p, q, commit, active);
    case SCloseReader(c) => CloseGrows(p, c);
    case SCloseWriter(c) => CloseGrows(p, c);
    case SPendingRead => ServeReadsGrows(p);
    case SPendingWrite => RefuseWritesGrows(p);
  }

  /** A waiting request is only ever discarded by the close of its own channel. */
  lemma OnlyOwnCloseDiscards(p: Pipe, s: Step)
    requires Enabled(p, s)
    ensures |p.hist.discarded| <= |Next(p, s).hist.discarded|
    ensures forall i :: |p.hist.discarded| <= i < |Next(p, s).hist.discarded| ==>
              (s.SCloseReader? || s.SCloseWriter?) && Next(p, s).hist.discarded[i].chan == s.c
  {
    match s
    case SAttach(_, _) =>
    case SStore(_, _, _) =>
    case SRead(q, commit, active) => ReadGrows(p, q, commit, active);
    case SWrite(q, commit, active) => WriteGrows(p, q, commit, active);
    case SPendingRead => ServeReadsGrows(p);
    case SPendingWrite => RefuseWritesGrows(p);
    case SCloseReader(c) =>
      CloseGrows(p, c);
      forall q ensures q in Own(p.pendingReads, c) ==> q.chan == c { OthersAre(p.pendingReads, c, q); }
    case SCloseWriter(c) =>
      CloseGrows(p, c);
      forall q ensures q in Own(p.pendingWrites, c) ==> q.chan == c { OthersAre(p.pendingWrites, c, q); }
  }

  /**
   Every request is answered at most once, and in every reachable state each one that arrived is
   exactly one of: answered, waiting for a window, or discarded with its channel.
   */
  lemma ExactlyOneFate(p: Pipe, q: Request)
    requires Reachable(p)
    ensures p.hist.asked[q]
         == Told(p.hist.replies)[q] + multiset(p.pendingReads)[q] + multiset(p.pendingWrites)[q] + multiset(p.hist.discarded)[q]
    ensures q in p.pendingReads ==> q.chan in p.readers
    ensures q in p.pendingWrites ==> q.chan in p.writers
  {
    ReachableInv(p);
  }

  // ---------------------------------------------------------------- end of file

  lemma ShareZero(size: nat, channels: nat)
    requires channels > 0
    ensures Share(size, channels) == 0 <==> size < 4 * channels
  {
    var parts: nat := 4 * channels;
    DivFacts(size, parts);
    assert Share(size, channels) >= 1 ==> parts * Share(size, channels) >= parts;
  }

  /** A window of a non-empty buffer has length 0 exactly if there are too many readers for its size. */
  lemma ZeroWindow(p: Pipe)
    requires R.Inv(p.ring) && !R.Empty(p.ring) && |p.readers| > 0
    ensures R.GetReadPos(p.ring, ReadSize(p)).Some?
    ensures R.GetReadPos(p.ring, ReadSize(p)).value.1 == 0 <==> p.ring.size < 4 * |p.readers|
  {
    assert R.Contiguous(p.ring) > 0;
    ShareZero(p.ring.size, |p.readers|);
  }

  /** A reader is told a window of length 0. */
  predicate TellsEof(p: Pipe, r: Reply) {
    r.to.chan in p.readers && r.answer.Window? && r.answer.len == 0
  }

  ghost predicate Drained(p: Pipe) {
    p.writeEof && p.writers == [] && p.hist.delivered == p.hist.committed
  }

  lemma {:induction false} ServeReadsEof(p: Pipe)
    requires Inv(p) && p.lastReader.None? && 4 * |p.readers| <= p.ring.size
    requires p.pendingReads != [] ==> |p.readers| > 0
    ensures EofIsTrue(p, ServeReads(p))
    decreases |p.pendingReads|
  {
    if p.pendingReads != [] {
      var q, rest := p.pendingReads[0], p.(pendingReads := p.pendingReads[1..]);
      if !R.Empty(p.ring) {
        ZeroWindow(p);
      } else if p.writeEof {
        assert p.pendingReads == [q] + rest.pendingReads;
        assert InvFor(rest, multiset{q});
        ReplyKeeps(rest, q, Window(0, 0));
        ServeReadsEof(Answered(rest, q, Window(0, 0)));
        ServeReadsDrained(Answered(rest, q, Window(0, 0)));
      }
    }
  }

  lemma {:induction false} ServeReadsDrained(p: Pipe)
    requires Inv(p) && R.Empty(p.ring) && p.writeEof
    requires p.pendingReads != [] ==> |p.readers| > 0
    ensures Drained(ServeReads(p)) && ServeReads(p).hist.committed == p.hist.committed
    decreases |p.pendingReads|
  {
    if p.pendingReads != [] {
      var q, rest := p.pendingReads[0], p.(pendingReads := p.pendingReads[1..]);
      assert p.pendingReads == [q] + rest.pendingReads;
      assert InvFor(rest, multiset{q});
      ReplyKeeps(rest, q, Window(0, 0));
      ServeReadsDrained(Answered(rest, q, Window(0, 0)));
    }
  }

  /** The replies that were added between two states. */
  ghost predicate EofIsTrue(p: Pipe, p': Pipe) {
    forall i :: |p.hist.replies| <= i < |p'.hist.replies| && TellsEof(p, p'.hist.replies[i]) ==> Drained(p')
  }

  /** What the end of the file depends on. */
  ghost predicate Stream(p: Pipe) {
    R.Inv(p.ring) && |p.mem| == p.ring.size && Fifo(p) && (p.writeEof ==> p.writers == [])
  }

  lemma EmptyIsDrained(p: Pipe)
    requires Stream(p) && R.Empty(p.ring) && p.writeEof
    ensures Drained(p)
  {
    R.EmptyIffNothingUnread(p.ring, p.mem);
  }

  lemma AskReadEof(p: Pipe, q: Request)
    requires Stream(p) && q.chan in p.readers && 4 * |p.readers| <= p.ring.size
    ensures EofIsTrue(p, AskRead(p, q))
  {
    if !R.Empty(p.ring) {
      ZeroWindow(p);
    } else if p.writeEof {
      EmptyIsDrained(p);
    }
  }

  lemma SettleStream(p: Pipe, k: nat)
    requires Stream(p) && ReaderHolds(p) && p.lastReader.Some? && k <= Amount(p, p.lastReader.value)
    ensures Stream(Settle(p, k)) && Settle(p, k).ring.size == p.ring.size
  {
    SettleFifo(p, k);
  }

  lemma ReadEof(p: Pipe, q: Request, commit: nat, active: bool)
    requires Stream(p) && ReaderHolds(p) && q.chan in p.readers && 4 * |p.readers| <= p.ring.size
    ensures EofIsTrue(p, Read(p, q, commit, active))
  {
    if active && commit == 0 && p.lastReader == Some(q.chan) {
      SettleStream(p, Amount(p, q.chan));
      AskReadEof(Settle(Arrived(p, q), Amount(p, q.chan)), q);
    } else if active && commit == 0 && p.lastReader.None? {
      AskReadEof(Arrived(p, q), q);
    }
  }

  lemma WriteTellsNoReader(p: Pipe, q: Request, commit: nat, active: bool)
    requires Inv(p) && q.chan in p.writers
    ensures EofIsTrue(p, Write(p, q, commit, active))
  {
  }

  lemma PendingWriteTellsNoReader(p: Pipe)
    requires Inv(p) && (p.pendingWrites != [] ==> |p.writers| > 0)
    ensures EofIsTrue(p, HandlePendingWrite(p))
  {
    if p.lastWriter.None? && p.readEof {
      RefuseWritesTell(p);
    }
  }

  /**
   As long as the buffer has four bytes per reader, a step tells a reader the end of the file only if
   all writers have closed and every committed byte was delivered.
   */
  lemma EofOnlyWhenDrained(p: Pipe, s: Step)
    requires Reachable(p) && Enabled(p, s) && 4 * |p.readers| <= p.ring.size
    ensures EofIsTrue(p, Next(p, s))
  {
    ReachableInv(p);
    match s
    case SAttach(_, _) =>
    case SStore(_, _, _) =>
    case SRead(q, commit, active) => ReadEof(p, q, commit, active);
    case SWrite(q, commit, active) => WriteTellsNoReader(p, q, commit, active);
    case SCloseReader(c) =>
    case SCloseWriter(c) =>
    case SPendingRead => if p.lastReader.None? { ServeReadsEof(p); }
    case SPendingWrite => PendingWriteTellsNoReader(p);
  }

  lemma {:induction false} RefuseWritesTell(p: Pipe)
    ensures var p' := RefuseWrites(p);
            && |p.hist.replies| <= |p'.hist.replies|
            && forall i :: |p.hist.replies| <= i < |p'.hist.replies| ==> p'.hist.replies[i].answer.EndOfFile?
    decreases |p.pendingWrites|
  {
    if p.pendingWrites != [] {
      var p1 := Answered(p.(pendingWrites := p.pendingWrites[1..]), p.pendingWrites[0], EndOfFile);
      RefuseWritesTell(p1);
      RefuseWritesGrows(p1);
      assert p1.hist.replies[|p.hist.replies|].answer.EndOfFile?;
    }
  }

  lemma DrainedStep(p: Pipe, s: Step)
    requires Inv(p) && Drained(p) && Enabled(p, s)
    ensures Drained(Next(p, s)) && Next(p, s).hist.committed == p.hist.committed
  {
    assert R.Empty(p.ring) by { R.EmptyIffNothingUnread(p.ring, p.mem); }
    match s
    case SPendingRead => ServeReadsDrained(p);
    case SPendingWrite => assert p.pendingWrites == [];
    case _ =>
  }

  /** Once told, the end of the file is final: in no later state anything more is committed or delivered. */
  lemma {:induction false} DrainedIsFinal(p: Pipe, steps: seq<Step>, p': Pipe)
    requires Inv(p) && Drained(p) && Run(p, steps, p')
    ensures Drained(p') && p'.hist.committed == p.hist.committed && p'.hist.delivered == p.hist.delivered
    decreases |steps|
  {
    if steps != [] {
      StepKeeps(p, steps[0]);
      DrainedStep(p, steps[0]);
      DrainedIsFinal(Next(p, steps[0]), steps[1..], p');
    }
  }

  // ---------------------------------------------------------------- progress

  lemma WritersWaitOnlyForReaders(p: Pipe)
    requires Inv(p) && (p.pendingWrites != [] ==> |p.writers| > 0)
    ensures var p1 := HandlePendingWrite(p);
            && p1.readers == p.readers && p1.pendingReads == p.pendingReads
            && (p1.lastWriter.None? && p1.pendingWrites != [] ==> !R.Empty(p1.ring))
  {
    if p.lastWriter.None? && p.readEof {
      RefuseWritesLeavesNothing(p);
    } else if p.lastWriter.None? && p.pendingWrites != [] && R.Empty(p.ring) {
      ShareIsSmall(p.ring.size, |p.writers|);
      R.EmptyAccepts(p.ring, WriteSize(p));
    }
  }

  lemma ShareIsSmall(size: nat, channels: nat)
    requires channels > 0
    ensures 4 * Share(size, channels) <= size
  {
    var parts: nat := 4 * channels;
    DivFacts(size, parts);
    assert parts * Share(size, channels) == 4 * Share(size, channels) + 4 * ((channels - 1) * Share(size, channels));
    assert (channels - 1) * Share(size, channels) >= 0;
  }

  /**
   After the work item ran, readers are only left waiting without a holder if there is nothing to read
   and more may come, and writers only if there is something to read.  So never both.
   */
  lemma NoDeadlock(p: Pipe)
    requires Inv(p) && (p.pendingWrites != [] ==> |p.writers| > 0) && (p.pendingReads != [] ==> |p.readers| > 0)
    ensures var p1 := HandlePendingWrite(p);
            && (p1.pendingReads != [] ==> |p1.readers| > 0)
            && var p2 := HandlePendingRead(p1);
            && (p2.lastReader.None? && p2.pendingReads != [] ==> R.Empty(p2.ring) && !p2.writeEof)
            && (p2.lastWriter.None? && p2.pendingWrites != [] ==> !R.Empty(p2.ring))
            && !(p2.lastReader.None? && p2.pendingReads != [] && p2.lastWriter.None? && p2.pendingWrites != [])
  {
    WritersWaitOnlyForReaders(p);
    var p1 := HandlePendingWrite(p);
    if p1.lastReader.None? {
      ServeReadsServes(p1);
    }
  }

  lemma {:induction false} RefuseWritesLeavesNothing(p: Pipe)
    ensures RefuseWrites(p) == p.(pendingWrites := [], hist := RefuseWrites(p).hist)
    decreases |p.pendingWrites|
  {
    if p.pendingWrites != [] {
      RefuseWritesLeavesNothing(Answered(p.(pendingWrites := p.pendingWrites[1..]), p.pendingWrites[0], EndOfFile));
    }
  }

  lemma {:induction false} ServeReadsServes(p: Pipe)
    requires p.pendingReads != [] ==> |p.readers| > 0
    ensures var p' := ServeReads(p);
            && (p'.lastReader.None? && p'.pendingReads != [] ==> R.Empty(p'.ring) && !p'.writeEof)
            && p' == p.(lastReader := p'.lastReader, pendingReads := p'.pendingReads,
                        lastAmount := p'.lastAmount, hist := p'.hist)
    decreases |p.pendingReads|
  {
    if p.pendingReads != [] && R.Empty(p.ring) && p.writeEof {
      ServeReadsServes(Answered(p.(pendingReads := p.pendingReads[1..]), p.pendingReads[0], Window(0, 0)));
    }
  }

  // ---------------------------------------------------------------- what the clients have to guarantee

  /** The server does not check the committed amount: one that exceeds the grant overruns unread bytes. */
  lemma OvercommitLosesBytes(mem: seq<R.Byte>)
    requires |mem| == 32
    ensures var r := R.Ring(32, 16, 8, 32);
            && R.Inv(r) && R.Slot(r, 4) == Some(8)
            && R.Inv(R.Push(r, 4, 16))
            && |R.Unread(r, mem)| == 24 && |R.Unread(R.Push(r, 4, 16), mem)| == 8
  {
  }
}
