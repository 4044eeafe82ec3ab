/**
 The channel protocol of the pipe server as functions on values: which request gets which answer
 and what happens to the ring buffer, the pending requests and the end-of-file flags.

 The shared memory and a history are part of the state.  No operation looks at the history; it
 records which bytes were committed, which bytes the readers saw, and what became of every request.
 */
module PipeSpec {
  import opened Options
  import R = RingSpec

  type Chan = nat
  type Msg = nat

  datatype Request = Request(chan: Chan, msg: Msg)

  /** What the client is told.  The end of the file is told to a reader as a window of length 0. */
  datatype Answer = Window(pos: nat, len: nat) | Committed(size: nat) | EndOfFile | Failed

  datatype Reply = Reply(to: Request, answer: Answer)

  datatype History = History(
    committed: seq<R.Byte>,     // everything that was pushed so far
    delivered: seq<R.Byte>,     // everything that was pulled so far, as found in the memory
    readAt: nat,                // the position that the current reader was told
    writeAt: nat,               // the position that the current writer was told
    asked: multiset<Request>,   // the requests that arrived
    replies: seq<Reply>,        // the answers, in the order in which they were sent
    discarded: seq<Request>     // requests whose channel was closed while they were waiting
  )

  datatype Pipe = Pipe(
    ring: R.Ring,
    mem: seq<R.Byte>,
    readers: seq<Chan>,
    writers: seq<Chan>,
    lastReader: Option<Chan>,
    lastWriter: Option<Chan>,
    lastAmount: map<Chan, nat>,
    pendingReads: seq<Request>,
    pendingWrites: seq<Request>,
    readEof: bool,
    writeEof: bool,
    hist: History
  )

  function Init(mem: seq<R.Byte>): Pipe {
    Pipe(R.Init(|mem|), mem, [], [], None, None, map[], [], [], false, false,
         History([], [], 0, 0, multiset{}, [], []))
  }

  // ---------------------------------------------------------------- parts of the operations

  function Answered(p: Pipe, q: Request, a: Answer): Pipe {
    p.(hist := p.hist.(replies := p.hist.replies + [Reply(q, a)]))
  }

  function Arrived(p: Pipe, q: Request): Pipe {
    p.(hist := p.hist.(asked := p.hist.asked + multiset{q}))
  }

  function Amount(p: Pipe, c: Chan): nat {
    if c in p.lastAmount then p.lastAmount[c] else 0
  }

  /** The bytes of a window, as far as the memory goes. */
  function Bytes(mem: seq<R.Byte>, at: nat, len: nat): seq<R.Byte> {
    if at + len <= |mem| then mem[at..at + len] else []
  }

  /** The list without the first occurrence of `c` (`SList::remove`). */
  function Without(s: seq<Chan>, c: Chan): seq<Chan> {
    if s == [] then [] else if s[0] == c then s[1..] else [s[0]] + Without(s[1..], c)
  }

  /** The requests of other channels (`remove_pending`). */
  function Others(s: seq<Request>, c: Chan): seq<Request> {
    if s == [] then []
    else if s[0].chan == c then Others(s[1..], c)
    else [s[0]] + Others(s[1..], c)
  }

  function Own(s: seq<Request>, c: Chan): seq<Request> {
    if s == [] then []
    else if s[0].chan == c then [s[0]] + Own(s[1..], c)
    else Own(s[1..], c)
  }

  /** Division of natural numbers. */
  lemma DivFacts(a: nat, b: nat)
    requires b > 0
    ensures 0 <= a / b && b * (a / b) <= a < b * (a / b) + b
  {
    var q := a / b;
    assert a == b * q + a % b;
    assert q < 0 ==> b * (q + 1) <= 0;
  }

  /** A quarter of the buffer, divided by the number of channels. */
  function Share(size: nat, channels: nat): nat
    requires channels > 0
  {
    var parts: nat := 4 * channels;
    DivFacts(size, parts);
    size / parts
  }

  /** `get_read_size`; the source asserts the precondition. */
  function ReadSize(p: Pipe): nat
    requires |p.readers| > 0
  {
    Share(p.ring.size, |p.readers|)
  }

  function WriteSize(p: Pipe): nat
    requires |p.writers| > 0
  {
    Share(p.ring.size, |p.writers|)
  }

  /** The reader gives its window back; the first `k` bytes of it were consumed. */
  function Settle(p: Pipe, k: nat): Pipe {
    p.(ring := R.Pull(p.ring, k), lastReader := None,
       hist := p.hist.(delivered := p.hist.delivered + Bytes(p.mem, p.hist.readAt, k)))
  }

  /** The writer gives its window of `req` bytes back; the first `k` bytes of it are committed. */
  function Commit(p: Pipe, req: nat, k: nat): Pipe {
    p.(ring := R.Push(p.ring, req, k), lastWriter := None,
       hist := p.hist.(committed := p.hist.committed + Bytes(p.mem, p.hist.writeAt, k)))
  }

  function GrantRead(p: Pipe, q: Request, at: nat, len: nat): Pipe {
    Answered(p.(lastReader := Some(q.chan), lastAmount := p.lastAmount[q.chan := len],
                hist := p.hist.(readAt := at)), q, Window(at, len))
  }

  function GrantWrite(p: Pipe, q: Request, at: nat, len: nat): Pipe {
    Answered(p.(lastWriter := Some(q.chan), lastAmount := p.lastAmount[q.chan := len],
                hist := p.hist.(writeAt := at)), q, Window(at, len))
  }

  // ---------------------------------------------------------------- operations

  function Attach(p: Pipe, c: Chan, read: bool): Pipe {
    var p := p.(lastAmount := p.lastAmount[c := 0]);
    if read then p.(readers := p.readers + [c]) else p.(writers := p.writers + [c])
  }

  /** The second half of `PipeReadChannel::read`: ask for a new window. */
  function AskRead(p: Pipe, q: Request): Pipe
    requires |p.readers| > 0
  {
    if p.pendingReads != [] && !p.writeEof then p.(pendingReads := p.pendingReads + [q])
    else
      match R.GetReadPos(p.ring, ReadSize(p))
      case None =>
        if p.writeEof then Answered(p, q, Window(0, 0)) else p.(pendingReads := p.pendingReads + [q])
      case Some((at, len)) => GrantRead(p, q, at, len)
  }

  /** `PipeReadChannel::read`; `commit` is 0 for a plain read, `active` says that `activate` succeeded. */
  function Read(p: Pipe, q: Request, commit: nat, active: bool): Pipe
    requires |p.readers| > 0
  {
    var p := Arrived(p, q);
    if !active then Answered(p, q, Failed)
    else if p.lastReader.Some? && p.lastReader != Some(q.chan) then p.(pendingReads := p.pendingReads + [q])
    else
      var p := if p.lastReader.Some? then Settle(p, if commit == 0 then Amount(p, q.chan) else commit) else p;
      if commit > 0 then Answered(p, q, Committed(p.ring.size)) else AskRead(p, q)
  }

  function AskWrite(p: Pipe, q: Request): Pipe
    requires |p.writers| > 0
  {
    if p.pendingWrites != [] then p.(pendingWrites := p.pendingWrites + [q])
    else
      var (ring, pos) := R.GetWritePos(p.ring, WriteSize(p));
      var p := p.(ring := ring);
      match pos
      case None => p.(pendingWrites := p.pendingWrites + [q])
      case Some(at) => GrantWrite(p, q, at, WriteSize(p))
  }

  /** `PipeWriteChannel::write`. */
  function Write(p: Pipe, q: Request, commit: nat, active: bool): Pipe
    requires |p.writers| > 0
  {
    var p := Arrived(p, q);
    if !active then Answered(p, q, Failed)
    else if p.readEof then Answered(p, q, EndOfFile)
    else if p.lastWriter.Some? && p.lastWriter != Some(q.chan) then p.(pendingWrites := p.pendingWrites + [q])
    else
      var p := if p.lastWriter.Some?
               then Commit(p, Amount(p, q.chan), if commit == 0 then Amount(p, q.chan) else commit)
               else p;
      if commit > 0 then Answered(p, q, Committed(p.ring.size)) else AskWrite(p, q)
  }

  function CloseReader(p: Pipe, c: Chan): Pipe {
    var p := p.(pendingReads := Others(p.pendingReads, c),
                hist := p.hist.(discarded := p.hist.discarded + Own(p.pendingReads, c)));
    if p.readEof then p
    else
      var p := if p.lastReader == Some(c) then Settle(p, 0) else p;
      var left := Without(p.readers, c);
      p.(readers := left, readEof := left == [])
  }

  function CloseWriter(p: Pipe, c: Chan): Pipe {
    var p := p.(pendingWrites := Others(p.pendingWrites, c),
                hist := p.hist.(discarded := p.hist.discarded + Own(p.pendingWrites, c)));
    if p.writeEof then p
    else
      var p := if p.lastWriter == Some(c) && Amount(p, c) != R.WORD - 1 then Commit(p, Amount(p, c), 0) else p;
      var left := Without(p.writers, c);
      p.(writers := left, writeEof := left == [])
  }

  /** The loop of `handle_pending_read`. */
  function ServeReads(p: Pipe): Pipe
    requires p.pendingReads != [] ==> |p.readers| > 0
    decreases |p.pendingReads|
  {
    if p.pendingReads == [] then p
    else
      var q, rest := p.pendingReads[0], p.(pendingReads := p.pendingReads[1..]);
      match R.GetReadPos(p.ring, ReadSize(p))
      case Some((at, len)) => GrantRead(rest, q, at, len)
      case None => if p.writeEof then ServeReads(Answered(rest, q, Window(0, 0))) else p
  }

  function HandlePendingRead(p: Pipe): Pipe
    requires p.pendingReads != [] ==> |p.readers| > 0
  {
    if p.lastReader.Some? then p else ServeReads(p)
  }

  /** All waiting writers learn that nobody reads anymore. */
  function RefuseWrites(p: Pipe): Pipe
    decreases |p.pendingWrites|
  {
    if p.pendingWrites == [] then p
    else RefuseWrites(Answered(p.(pendingWrites := p.pendingWrites[1..]), p.pendingWrites[0], EndOfFile))
  }

  function HandlePendingWrite(p: Pipe): Pipe
    requires p.pendingWrites != [] ==> |p.writers| > 0
  {
    if p.lastWriter.Some? then p
    else if p.readEof then RefuseWrites(p)
    else if p.pendingWrites == [] then p
    else
      var (ring, pos) := R.GetWritePos(p.ring, WriteSize(p));
      match pos
      case None => p.(ring := ring)
      case Some(at) =>
        GrantWrite(p.(ring := ring, pendingWrites := p.pendingWrites[1..]), p.pendingWrites[0], at, WriteSize(p))
  }

  // ---------------------------------------------------------------- runs

  datatype Step =
    | SAttach(c: Chan, read: bool)
    | SRead(q: Request, commit: nat, active: bool)
    | SWrite(q: Request, commit: nat, active: bool)
    | SCloseReader(c: Chan)
    | SCloseWriter(c: Chan)
    | SPendingWrite
    | SPendingRead
    | SStore(c: Chan, at: nat, byte: R.Byte)     // a writer fills a byte of its window

  /**
   What the clients and the rest of the server guarantee: a new channel has a new number and is not
   attached to an end that already saw its last close; requests come from attached channels; nobody
   commits more than it was granted; only the holder of a write window stores, and only into it.
   */
  predicate Enabled(p: Pipe, s: Step) {
    match s
    case SAttach(c, read) => c !in p.lastAmount && (if read then !p.readEof else !p.writeEof)
    case SRead(q, commit, _) => q.chan in p.readers && (p.lastReader == Some(q.chan) ==> commit <= Amount(p, q.chan))
    case SWrite(q, commit, _) => q.chan in p.writers && (p.lastWriter == Some(q.chan) ==> commit <= Amount(p, q.chan))
    case SCloseReader(c) => c in p.readers
    case SCloseWriter(c) => c in p.writers
    case SPendingWrite => p.pendingWrites != [] ==> |p.writers| > 0
    case SPendingRead => p.pendingReads != [] ==> |p.readers| > 0
    case SStore(c, at, _) =>
      p.lastWriter == Some(c) && p.hist.writeAt <= at < p.hist.writeAt + Amount(p, c) && at < |p.mem|
  }

  function Next(p: Pipe, s: Step): Pipe
    requires Enabled(p, s)
  {
    match s
    case SAttach(c, read) => Attach(p, c, read)
    case SRead(q, commit, active) => Read(p, q, commit, active)
    case SWrite(q, commit, active) => Write(p, q, commit, active)
    case SCloseReader(c) => CloseReader(p, c)
    case SCloseWriter(c) => CloseWriter(p, c)
    case SPendingWrite => HandlePendingWrite(p)
    case SPendingRead => HandlePendingRead(p)
    case SStore(_, at, byte) => p.(mem := p.mem[at := byte])
  }

  ghost predicate Run(p: Pipe, steps: seq<Step>, p': Pipe)
    decreases |steps|
  {
    if steps == [] then p == p'
    else Enabled(p, steps[0]) && Run(Next(p, steps[0]), steps[1..], p')
  }
}
