/** The objects of the pipe server: `PipeData` with its ring buffer, channels and pending requests. */
module PipeServer {
  import opened Options
  import opened PipeSpec
  import opened RingBuffer
  import R = RingSpec
  import Proofs = PipeProofs

  /** `remove_pending`: drops the requests of one channel from a list. */
  method RemovePending(list: seq<Request>, c: Chan) returns (left: seq<Request>, ghost dropped: seq<Request>)
    ensures left == Others(list, c) && dropped == Own(list, c)
  {
    left, dropped := [], [];
    var i := 0;
    while i < |list|
      invariant 0 <= i <= |list|
      invariant Others(list, c) == left + Others(list[i..], c)
      invariant Own(list, c) == dropped + Own(list[i..], c)
    {
      assert list[i..][1..] == list[i + 1..];
      if list[i].chan == c {
        dropped := dropped + [list[i]];
      } else {
        left := left + [list[i]];
      }
      i := i + 1;
    }
  }

  class PipeData {
    const rbuf: VarRingBuf
    var readers: seq<Chan>
    var writers: seq<Chan>
    var lastReader: Option<Chan>
    var lastWriter: Option<Chan>
    var lastAmount: map<Chan, nat>
    var pendingReads: seq<Request>
    var pendingWrites: seq<Request>
    var readEof: bool
    var writeEof: bool
    ghost var mem: seq<R.Byte>
    ghost var hist: History

    ghost function State(): Pipe
      reads this, rbuf
    {
      Pipe(rbuf.State(), mem, readers, writers, lastReader, lastWriter, lastAmount,
           pendingReads, pendingWrites, readEof, writeEof, hist)
    }

    constructor (size: nat, ghost mem: seq<R.Byte>)
      requires |mem| == size
      ensures fresh(rbuf) && State() == Init(mem)
    {
      rbuf := new VarRingBuf(size);
      readers, writers, lastReader, lastWriter, lastAmount := [], [], None, None, map[];
      pendingReads, pendingWrites, readEof, writeEof := [], [], false, false;
      this.mem := mem;
      hist := History([], [], 0, 0, multiset{}, [], []);
    }

    method Attach(c: Chan, read: bool)
      modifies this
      ensures State() == PipeSpec.Attach(old(State()), c, read)
    {
      lastAmount := lastAmount[c := 0];
      if read {
        readers := readers + [c];
      } else {
        writers := writers + [c];
      }
    }

    method Respond(q: Request, a: Answer)
      modifies this
      ensures State() == Answered(old(State()), q, a)
    {
      hist := hist.(replies := hist.replies + [Reply(q, a)]);
    }

    method HandOutRead(q: Request, at: nat, len: nat)
      modifies this
      ensures State() == GrantRead(old(State()), q, at, len)
    {
      lastReader := Some(q.chan);
      lastAmount := lastAmount[q.chan := len];
      hist := hist.(readAt := at);
      Respond(q, Window(at, len));
    }

    method HandOutWrite(q: Request, at: nat, len: nat)
      modifies this
      ensures State() == GrantWrite(old(State()), q, at, len)
    {
      lastWriter := Some(q.chan);
      lastAmount := lastAmount[q.chan := len];
      hist := hist.(writeAt := at);
      Respond(q, Window(at, len));
    }

    method PullAmount(k: nat)
      requires !R.Empty(rbuf.State())
      modifies this, rbuf
      ensures State() == Settle(old(State()), k)
    {
      hist := hist.(delivered := hist.delivered + Bytes(mem, hist.readAt, k));
      rbuf.Pull(k);
      lastReader := None;
    }

    method PushAmount(req: nat, k: nat)
      requires rbuf.wrpos % R.PKG == 0
      modifies this, rbuf
      ensures State() == Commit(old(State()), req, k)
    {
      hist := hist.(committed := hist.committed + Bytes(mem, hist.writeAt, k));
      rbuf.Push(req, k);
      lastWriter := None;
    }

    /** `PipeReadChannel::read`. */
    method Read(q: Request, commit: nat, active: bool)
      requires q.chan in readers && q.chan in lastAmount
      requires lastReader.Some? ==> !R.Empty(rbuf.State())
      modifies this, rbuf
      ensures State() == PipeSpec.Read(old(State()), q, commit, active)
    {
      hist := hist.(asked := hist.asked + multiset{q});
      if !active {
        Respond(q, Failed);
        return;
      }
      if lastReader.Some? {
        if lastReader != Some(q.chan) {
          pendingReads := pendingReads + [q];
          return;
        }
        PullAmount(if commit == 0 then lastAmount[q.chan] else commit);
      }
      if commit > 0 {
        Respond(q, Committed(rbuf.size));
        return;
      }
      AskRead(q);
    }

    /** The second half of `read`: ask for a new window. */
    method AskRead(q: Request)
      requires |readers| > 0
      modifies this
      ensures State() == PipeSpec.AskRead(old(State()), q)
    {
      if |pendingReads| > 0 {
        if !writeEof {
          pendingReads := pendingReads + [q];
          return;
        }
      }
      var window := rbuf.GetReadPos(Share(rbuf.size, |readers|));
      if window.None? {
        if writeEof {
          Respond(q, Window(0, 0));
        } else {
          pendingReads := pendingReads + [q];
        }
      } else {
        HandOutRead(q, window.value.0, window.value.1);
      }
    }

    /** `PipeWriteChannel::write`. */
    method Write(q: Request, commit: nat, active: bool)
      requires q.chan in writers && q.chan in lastAmount
      requires lastWriter.Some? ==> rbuf.wrpos % R.PKG == 0
      modifies this, rbuf
      ensures State() == PipeSpec.Write(old(State()), q, commit, active)
    {
      hist := hist.(asked := hist.asked + multiset{q});
      if !active || readEof {
        Respond(q, if !active then Failed else EndOfFile);
        return;
      }
      if lastWriter.Some? {
        if lastWriter != Some(q.chan) {
          pendingWrites := pendingWrites + [q];
          return;
        }
        PushAmount(lastAmount[q.chan], if commit == 0 then lastAmount[q.chan] else commit);
      }
      if commit > 0 {
        Respond(q, Committed(rbuf.size));
        return;
      }
      AskWrite(q);
    }

    method AskWrite(q: Request)
      requires |writers| > 0
      modifies this, rbuf
      ensures State() == PipeSpec.AskWrite(old(State()), q)
    {
      if |pendingWrites| > 0 {
        pendingWrites := pendingWrites + [q];
        return;
      }
      var amount := Share(rbuf.size, |writers|);
      var pos := rbuf.GetWritePos(amount);
      if pos.None? {
        pendingWrites := pendingWrites + [q];
      } else {
        HandOutWrite(q, pos.value, amount);
      }
    }

    /** `PipeReadChannel::close`; fails if the end was closed before. */
    method CloseReader(c: Chan) returns (ok: bool)
      requires lastReader.Some? ==> !R.Empty(rbuf.State())
      modifies this, rbuf
      ensures State() == PipeSpec.CloseReader(old(State()), c)
      ensures ok == !old(readEof)
    {
      var left, dropped := RemovePending(pendingReads, c);
      pendingReads := left;
      hist := hist.(discarded := hist.discarded + dropped);
      if readEof {
        return false;
      }
      if lastReader == Some(c) {
        PullAmount(0);
      }
      readers := Without(readers, c);
      if |readers| > 0 {
        return true;
      }
      readEof := true;
      return true;
    }

    method CloseWriter(c: Chan) returns (ok: bool)
      requires c in lastAmount && (lastWriter.Some? ==> rbuf.wrpos % R.PKG == 0)
      modifies this, rbuf
      ensures State() == PipeSpec.CloseWriter(old(State()), c)
      ensures ok == !old(writeEof)
    {
      var left, dropped := RemovePending(pendingWrites, c);
      pendingWrites := left;
      hist := hist.(discarded := hist.discarded + dropped);
      if writeEof {
        return false;
      }
      if lastWriter == Some(c) && lastAmount[c] != R.WORD - 1 {
        PushAmount(lastAmount[c], 0);
      }
      writers := Without(writers, c);
      if |writers| > 0 {
        return true;
      }
      writeEof := true;
      return true;
    }

    method HandlePendingRead()
      requires pendingReads != [] ==> |readers| > 0
      modifies this
      ensures State() == PipeSpec.HandlePendingRead(old(State()))
    {
      if lastReader.Some? {
        return;
      }
      while |pendingReads| > 0
        invariant unchanged(rbuf)
        invariant State().pendingReads != [] ==> |State().readers| > 0
        invariant ServeReads(State()) == ServeReads(old(State()))
        decreases |pendingReads|
      {
        var q := pendingReads[0];
        var window := rbuf.GetReadPos(Share(rbuf.size, |readers|));
        if window.Some? {
          pendingReads := pendingReads[1..];
          HandOutRead(q, window.value.0, window.value.1);
          return;
        } else if writeEof {
          pendingReads := pendingReads[1..];
          Respond(q, Window(0, 0));
        } else {
          return;
        }
      }
    }

    method HandlePendingWrite()
      requires pendingWrites != [] ==> |writers| > 0
      modifies this, rbuf
      ensures State() == PipeSpec.HandlePendingWrite(old(State()))
    {
      if lastWriter.Some? {
        return;
      }
      if readEof {
        while |pendingWrites| > 0
          invariant unchanged(rbuf)
          invariant RefuseWrites(State()) == RefuseWrites(old(State()))
          decreases |pendingWrites|
        {
          var q := pendingWrites[0];
          pendingWrites := pendingWrites[1..];
          Respond(q, EndOfFile);
        }
      } else if |pendingWrites| > 0 {
        var amount := Share(rbuf.size, |writers|);
        var pos := rbuf.GetWritePos(amount);
        if pos.Some? {
          var q := pendingWrites[0];
          pendingWrites := pendingWrites[1..];
          HandOutWrite(q, pos.value, amount);
        }
      }
    }

    /** A message of a client, a work item or a store: whatever the clients may do keeps the invariant. */
    method Serve(s: Step)
      requires Proofs.Inv(State()) && Enabled(State(), s)
      modifies this, rbuf
      ensures Proofs.Inv(State()) && State() == Next(old(State()), s)
    {
      Proofs.StepKeeps(State(), s);
      Proofs.PendingHasChannel(State());
      match s
      case SAttach(c, read) => Attach(c, read);
      case SRead(q, commit, active) => Read(q, commit, active);
      case SWrite(q, commit, active) => Write(q, commit, active);
      case SCloseReader(c) => var _ := CloseReader(c);
      case SCloseWriter(c) => var _ := CloseWriter(c);
      case SPendingWrite => HandlePendingWrite();
      case SPendingRead => HandlePendingRead();
      case SStore(_, at, byte) => mem := mem[at := byte];
    }

    /** `WorkItem::work`: writers first, then readers. */
    method Work()
      requires Proofs.Inv(State())
      modifies this, rbuf
      ensures Proofs.Inv(State())
      ensures lastReader.None? && pendingReads != [] ==> R.Empty(rbuf.State()) && !writeEof
      ensures lastWriter.None? && pendingWrites != [] ==> !R.Empty(rbuf.State())
    {
      Proofs.PendingHasChannel(State());
      Proofs.NoDeadlock(State());
      Proofs.StepKeeps(State(), SPendingWrite);
      HandlePendingWrite();
      Proofs.StepKeeps(State(), SPendingRead);
      HandlePendingRead();
    }
  }
}
