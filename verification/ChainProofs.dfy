/** The chain writes exactly the stages applied in order to every chunk, and never gets stuck. */
module ChainProofs {
  import opened ChainSpec

  /** All stages from `i` on, applied in order. */
  ghost function Through(f: Stages, n: nat, i: nat, d: Data): Data
    decreases n - i
  {
    if i >= n then d else Through(f, n, i + 1, f(i, d))
  }

  /** The output for a list of chunks. */
  ghost function Expected(f: Stages, n: nat, chunks: seq<Data>): Data {
    if chunks == [] then []
    else Expected(f, n, chunks[..|chunks| - 1]) + Through(f, n, 0, chunks[|chunks| - 1])
  }

  /** Every accelerator writes as much as it got. */
  ghost predicate KeepsLength(f: Stages) {
    forall i, d :: |f(i, d)| == |d|
  }

  // ---------------------------------------------------------------- the invariant

  /** Stage `i` finished computing, but the next stage was not idle: the forward is still to come. */
  predicate Deferred(c: Chain, i: nat)
    requires Shape(c) && i < |c.ops|
  {
    c.ops[i] == Compute && c.accels[i].Off?
  }

  ghost predicate StageOk(c: Chain, i: nat)
    requires Shape(c) && i < |c.ops|
  {
    var n, size := |c.ops|, |c.bufs[i]|;
    && (c.ops[i] != Idle ==> size > 0)
    && match c.ops[i]
       case Idle => c.accels[i].Off?
       case Compute =>
         || c.accels[i] == Busy(Compute, size)
         || c.accels[i] == Done(size)
         || (c.accels[i].Off? && i < n - 1 && c.ops[i + 1] != Idle && c.sizes[i + 1] == size)
       case Forward =>
         && i < n - 1 && c.ops[i + 1] == Idle
         && (|| c.accels[i] == Busy(Forward, size)
             || (c.accels[i] == Done(size) && c.bufs[i + 1] == c.bufs[i]))
  }

  ghost predicate SizeOk(c: Chain, i: nat)
    requires Shape(c) && i < |c.ops|
  {
    c.sizes[i] > 0 ==> i > 0 && Deferred(c, i - 1)
  }

  /** What the chunk in stage `i` will contribute to the output. */
  ghost function Piece(f: Stages, c: Chain, i: nat): Data
    requires Shape(c) && i < |c.ops|
  {
    if c.ops[i] == Idle then []
    else if c.accels[i] == Busy(Compute, |c.bufs[i]|) then Through(f, |c.ops|, i, c.bufs[i])
    else Through(f, |c.ops|, i + 1, c.bufs[i])
  }

  /** The contributions of the stages `lo` to `hi - 1`; the later stages hold the earlier chunks. */
  ghost function Pieces(f: Stages, c: Chain, lo: nat, hi: nat): Data
    requires Shape(c) && hi <= |c.ops|
  {
    if hi <= lo then [] else Piece(f, c, hi - 1) + Pieces(f, c, lo, hi - 1)
  }

  ghost predicate StagesOk(c: Chain) {
    && Shape(c)
    && (forall i {:trigger StageOk(c, i)} :: 0 <= i < |c.ops| ==> StageOk(c, i))
    && (forall i {:trigger SizeOk(c, i)} :: 0 <= i < |c.ops| ==> SizeOk(c, i))
  }

  ghost predicate Flow(f: Stages, c: Chain)
    requires Shape(c)
  {
    c.out + Pieces(f, c, 0, |c.ops|) == Expected(f, |c.ops|, c.fed)
  }

  ghost function Length(chunks: seq<Data>): nat {
    if chunks == [] then 0 else Length(chunks[..|chunks| - 1]) + |chunks[|chunks| - 1]|
  }

  ghost predicate Inv(f: Stages, c: Chain) {
    && StagesOk(c) && Flow(f, c)
    && c.total == Length(c.fed) && c.seen == |c.out|
    && (c.eof ==> c.input == [])
    && (c.eof || c.ops[0] != Idle)
    && (forall k :: 0 <= k < |c.input| ==> |c.input[k]| > 0)
  }

  // ---------------------------------------------------------------- pieces

  lemma {:induction false} PiecesSplit(f: Stages, c: Chain, lo: nat, mid: nat, hi: nat)
    requires Shape(c) && lo <= mid <= hi <= |c.ops|
    ensures Pieces(f, c, lo, hi) == Pieces(f, c, mid, hi) + Pieces(f, c, lo, mid)
    decreases hi
  {
    if mid < hi {
      PiecesSplit(f, c, lo, mid, hi - 1);
      var p := Piece(f, c, hi - 1);
      assert p + (Pieces(f, c, mid, hi - 1) + Pieces(f, c, lo, mid)) == (p + Pieces(f, c, mid, hi - 1)) + Pieces(f, c, lo, mid);
    } else {
      assert Pieces(f, c, mid, hi) == [];
    }
  }

  lemma {:induction false} PiecesFrame(f: Stages, c: Chain, c': Chain, lo: nat, hi: nat)
    requires Shape(c) && Shape(c') && |c.ops| == |c'.ops| && hi <= |c.ops|
    requires forall i {:trigger Piece(f, c', i)} :: lo <= i < hi ==> Piece(f, c', i) == Piece(f, c, i)
    ensures Pieces(f, c', lo, hi) == Pieces(f, c, lo, hi)
    decreases hi
  {
    if lo < hi {
      PiecesFrame(f, c, c', lo, hi - 1);
      assert Piece(f, c', hi - 1) == Piece(f, c, hi - 1);
    }
  }

  lemma PiecesTop(f: Stages, c: Chain, i: nat)
    requires Shape(c) && i + 1 < |c.ops|
    ensures Pieces(f, c, 0, |c.ops|)
         == Pieces(f, c, i + 2, |c.ops|) + (Piece(f, c, i + 1) + (Piece(f, c, i) + Pieces(f, c, 0, i)))
  {
    PiecesSplit(f, c, 0, i + 2, |c.ops|);
  }

  lemma MoveUp(top: Data, p: Data, below: Data, more: Data)
    requires more == [] || below == []
    ensures top + (p + (more + below)) == (top + ([] + (p + below))) + more
  {
  }

  /** Only the stages `i` and `i + 1` change, and what the one loses the other one gets. */
  lemma PiecesMove(f: Stages, c: Chain, c': Chain, i: nat, more: Data)
    requires Shape(c) && Shape(c') && |c.ops| == |c'.ops| && i + 1 < |c.ops|
    requires forall k {:trigger Piece(f, c', k)} ::
               0 <= k < |c.ops| && k != i && k != i + 1 ==> Piece(f, c', k) == Piece(f, c, k)
    requires Piece(f, c, i + 1) == [] && Piece(f, c', i + 1) == Piece(f, c, i)
    requires Piece(f, c', i) == more && (more == [] || i == 0)
    ensures Pieces(f, c', 0, |c.ops|) == Pieces(f, c, 0, |c.ops|) + more
  {
    PiecesTop(f, c, i);
    PiecesTop(f, c', i);
    PiecesFrame(f, c, c', i + 2, |c.ops|);
    PiecesFrame(f, c, c', 0, i);
    MoveUp(Pieces(f, c, i + 2, |c.ops|), Piece(f, c, i), Pieces(f, c, 0, i), more);
  }

  /** The last stage hands over its chunk. */
  lemma PiecesOut(f: Stages, c: Chain, c': Chain)
    requires Shape(c) && Shape(c') && |c.ops| == |c'.ops|
    requires forall k {:trigger Piece(f, c', k)} :: 0 <= k < |c.ops| - 1 ==> Piece(f, c', k) == Piece(f, c, k)
    requires Piece(f, c', |c.ops| - 1) == []
    ensures Pieces(f, c, 0, |c.ops|) == Piece(f, c, |c.ops| - 1) + Pieces(f, c', 0, |c.ops|)
  {
    var n := |c.ops|;
    PiecesFrame(f, c, c', 0, n - 1);
  }

  // ---------------------------------------------------------------- an accelerator finishes

  lemma FinishStages(f: Stages, c: Chain, i: nat)
    requires StagesOk(c) && KeepsLength(f) && i < |c.ops| && c.accels[i].Busy?
    ensures StagesOk(Finish(f, c, i))
  {
    var c' := Finish(f, c, i);
    assert StageOk(c, i);
    forall k | 0 <= k < |c.ops| ensures StageOk(c', k) {
      assert StageOk(c, k);
    }
    forall k | 0 <= k < |c.ops| ensures SizeOk(c', k) {
      assert SizeOk(c, k);
    }
  }

  lemma FinishFlow(f: Stages, c: Chain, i: nat)
    requires StagesOk(c) && KeepsLength(f) && Flow(f, c) && i < |c.ops| && c.accels[i].Busy?
    ensures Flow(f, Finish(f, c, i))
  {
    var c' := Finish(f, c, i);
    assert StageOk(c, i);
    forall k | 0 <= k < |c.ops| ensures Piece(f, c', k) == Piece(f, c, k) {
      assert StageOk(c, k);
    }
    PiecesFrame(f, c, c', 0, |c.ops|);
  }

  // ---------------------------------------------------------------- a message arrives

  /** A stage other than the last has computed. */
  lemma ReplyComputed(f: Stages, c: Chain, i: nat)
    requires StagesOk(c) && Flow(f, c) && i < |c.ops| - 1 && c.accels[i].Done? && c.ops[i] == Compute
    ensures StagesOk(Reply(c, i)) && Flow(f, Reply(c, i))
  {
    var c' := Reply(c, i);
    assert StageOk(c, i);
    forall k | 0 <= k < |c.ops| ensures StageOk(c', k) {
      assert StageOk(c, k) && StageOk(c, i);
    }
    forall k | 0 <= k < |c.ops| ensures SizeOk(c', k) {
      assert SizeOk(c, k);
    }
    forall k | 0 <= k < |c.ops| ensures Piece(f, c', k) == Piece(f, c, k) {
      assert StageOk(c, k);
    }
    PiecesFrame(f, c, c', 0, |c.ops|);
  }

  /** A stage in the middle has forwarded its chunk; the stage in front of it may now forward as well. */
  lemma ReplyForwardedStages(c: Chain, i: nat)
    requires StagesOk(c) && 0 < i < |c.ops| - 1 && c.accels[i].Done? && c.ops[i] == Forward
    ensures StagesOk(Reply(c, i))
  {
    var c' := Reply(c, i);
    assert StageOk(c, i) && SizeOk(c, i) && StageOk(c, i - 1) && StageOk(c, i + 1);
    forall k | 0 <= k < |c.ops| ensures StageOk(c', k) {
      assert StageOk(c, k);
    }
    forall k | 0 <= k < |c.ops| ensures SizeOk(c', k) {
      assert SizeOk(c, k);
      assert k > 0 ==> StageOk(c, k - 1);
    }
  }

  lemma ReplyForwardedFlow(f: Stages, c: Chain, i: nat)
    requires StagesOk(c) && Flow(f, c) && 0 < i < |c.ops| - 1 && c.accels[i].Done? && c.ops[i] == Forward
    ensures Flow(f, Reply(c, i))
  {
    var c' := Reply(c, i);
    assert StageOk(c, i) && SizeOk(c, i) && StageOk(c, i - 1) && StageOk(c, i + 1);
    forall k | 0 <= k < |c.ops| && k != i && k != i + 1 ensures Piece(f, c', k) == Piece(f, c, k) {
      assert StageOk(c, k);
    }
    PiecesMove(f, c, c', i, []);
  }

  /** The first stage has forwarded its chunk and gets the next one. */
  lemma ReplyFirstStages(c: Chain)
    requires StagesOk(c) && c.accels[0].Done? && c.ops[0] == Forward
    requires forall k :: 0 <= k < |c.input| ==> |c.input[k]| > 0
    ensures StagesOk(Reply(c, 0))
  {
    var c' := Reply(c, 0);
    assert StageOk(c, 0) && SizeOk(c, 0) && StageOk(c, 1) && SizeOk(c, 1);
    forall k | 0 <= k < |c.ops| ensures StageOk(c', k) {
      assert StageOk(c, k);
    }
    forall k | 0 <= k < |c.ops| ensures SizeOk(c', k) {
      assert SizeOk(c, k);
      assert k > 0 ==> StageOk(c, k - 1);
    }
  }

  lemma ReplyFirstPieces(f: Stages, c: Chain)
    requires StagesOk(c) && c.accels[0].Done? && c.ops[0] == Forward
    requires forall k :: 0 <= k < |c.input| ==> |c.input[k]| > 0
    ensures Pieces(f, Reply(c, 0), 0, |c.ops|)
            == Pieces(f, c, 0, |c.ops|) + if c.input == [] then [] else Through(f, |c.ops|, 0, c.input[0])
  {
    var c', n := Reply(c, 0), |c.ops|;
    assert StageOk(c, 0) && SizeOk(c, 0) && StageOk(c, 1);
    var more := if c.input == [] then [] else Through(f, n, 0, c.input[0]);
    forall k | 0 <= k < n && k != 0 && k != 1 ensures Piece(f, c', k) == Piece(f, c, k) {
      assert StageOk(c, k);
    }
    PiecesMove(f, c, c', 0, more);
  }

  lemma ReplyFirstFlow(f: Stages, c: Chain)
    requires StagesOk(c) && Flow(f, c) && c.accels[0].Done? && c.ops[0] == Forward
    requires forall k :: 0 <= k < |c.input| ==> |c.input[k]| > 0
    ensures Flow(f, Reply(c, 0))
  {
    var c', n := Reply(c, 0), |c.ops|;
    ReplyFirstPieces(f, c);
    if c.input != [] {
      var more := Through(f, n, 0, c.input[0]);
      assert c'.fed[..|c'.fed| - 1] == c.fed;
      assert (c.out + Pieces(f, c, 0, n)) + more == c.out + (Pieces(f, c, 0, n) + more);
    }
  }

  /** The last stage is done with its chunk, which goes to the output file. */
  lemma ReplyLastStages(c: Chain)
    requires StagesOk(c) && c.accels[|c.ops| - 1].Done?
    ensures StagesOk(Reply(c, |c.ops| - 1))
  {
    var i := |c.ops| - 1;
    var c' := Reply(c, i);
    assert StageOk(c, i) && SizeOk(c, i) && StageOk(c, i - 1);
    forall k | 0 <= k < |c.ops| ensures StageOk(c', k) {
      assert StageOk(c, k);
    }
    forall k | 0 <= k < |c.ops| ensures SizeOk(c', k) {
      assert SizeOk(c, k);
      assert k > 0 ==> StageOk(c, k - 1);
    }
  }

  lemma ReplyLastFlow(f: Stages, c: Chain)
    requires StagesOk(c) && Flow(f, c) && c.accels[|c.ops| - 1].Done?
    ensures Flow(f, Reply(c, |c.ops| - 1))
    ensures Reply(c, |c.ops| - 1).seen == c.seen + |Reply(c, |c.ops| - 1).out| - |c.out|
  {
    var i := |c.ops| - 1;
    var c' := Reply(c, i);
    assert StageOk(c, i) && SizeOk(c, i) && StageOk(c, i - 1);
    forall k | 0 <= k < i ensures Piece(f, c', k) == Piece(f, c, k) {
      assert StageOk(c, k);
    }
    PiecesOut(f, c, c');
    assert Piece(f, c, i) == c.bufs[i] && c'.out == c.out + c.bufs[i];
    assert (c.out + c.bufs[i]) + Pieces(f, c', 0, |c.ops|) == c.out + (c.bufs[i] + Pieces(f, c', 0, |c.ops|));
  }

  lemma ReplyKeeps(f: Stages, c: Chain, i: nat)
    requires Inv(f, c) && i < |c.ops| && c.accels[i].Done?
    ensures Inv(f, Reply(c, i))
  {
    var c' := Reply(c, i);
    assert StageOk(c, i) && SizeOk(c, i);
    if i < |c.ops| - 1 && c.ops[i] == Compute {
      ReplyComputed(f, c, i);
    } else if i == |c.ops| - 1 {
      ReplyLastStages(c);
      ReplyLastFlow(f, c);
      assert StageOk(c, i - 1);
    } else if i == 0 {
      ReplyFirstStages(c);
      ReplyFirstFlow(f, c);
      if c.input != [] {
        assert c'.fed[..|c'.fed| - 1] == c.fed;
      }
    } else {
      ReplyForwardedStages(c, i);
      ReplyForwardedFlow(f, c, i);
      assert StageOk(c, i - 1);
    }
  }

  lemma StepKeeps(f: Stages, c: Chain, i: nat)
    requires Inv(f, c) && KeepsLength(f) && Enabled(c, i)
    ensures Inv(f, Next(f, c, i))
  {
    if c.accels[i].Busy? {
      FinishStages(f, c, i);
      FinishFlow(f, c, i);
    } else {
      ReplyKeeps(f, c, i);
    }
  }

  // ---------------------------------------------------------------- safety and progress

  ghost predicate AllIdle(c: Chain) {
    forall i :: 0 <= i < |c.ops| ==> c.ops[i] == Idle
  }

  /** A stage only ever forwards into an idle stage, and only the memory of idle stages is written to. */
  lemma ForwardsIntoIdle(f: Stages, c: Chain, i: nat)
    requires Inv(f, c) && i < |c.ops| && c.accels[i].Busy? && c.accels[i].op == Forward
    ensures i + 1 < |c.ops| && c.ops[i + 1] == Idle && c.accels[i + 1].Off?
  {
    assert StageOk(c, i);
    assert StageOk(c, i + 1);
  }

  /** As long as a chunk is in the chain, a message is outstanding: the last non-empty stage has one. */
  lemma {:induction false} AlwaysOutstanding(f: Stages, c: Chain, i: nat) returns (k: nat)
    requires Inv(f, c) && i < |c.ops| && c.ops[i] != Idle
    ensures Enabled(c, k)
    decreases |c.ops| - i
  {
    assert StageOk(c, i);
    if Deferred(c, i) {
      k := AlwaysOutstanding(f, c, i + 1);
    } else {
      k := i;
    }
  }

  lemma {:induction false} ThroughLength(f: Stages, n: nat, i: nat, d: Data)
    requires KeepsLength(f)
    ensures |Through(f, n, i, d)| == |d|
    decreases n - i
  {
    if i < n {
      ThroughLength(f, n, i + 1, f(i, d));
    }
  }

  lemma {:induction false} ExpectedLength(f: Stages, n: nat, chunks: seq<Data>)
    requires KeepsLength(f)
    ensures |Expected(f, n, chunks)| == Length(chunks)
  {
    if chunks != [] {
      ExpectedLength(f, n, chunks[..|chunks| - 1]);
      ThroughLength(f, n, 0, chunks[|chunks| - 1]);
    }
  }

  /** The difference of the two counters is the number of bytes that are still in the chain. */
  lemma BytesInFlight(f: Stages, c: Chain)
    requires Inv(f, c) && KeepsLength(f)
    ensures c.total - c.seen == |Pieces(f, c, 0, |c.ops|)|
  {
    ExpectedLength(f, |c.ops|, c.fed);
  }

  lemma {:induction false} EmptyPieces(f: Stages, c: Chain, hi: nat)
    requires StagesOk(c) && KeepsLength(f) && hi <= |c.ops|
    ensures Pieces(f, c, 0, hi) == [] <==> forall i :: 0 <= i < hi ==> c.ops[i] == Idle
    decreases hi
  {
    if hi > 0 {
      EmptyPieces(f, c, hi - 1);
      assert StageOk(c, hi - 1);
      ThroughLength(f, |c.ops|, hi - 1, c.bufs[hi - 1]);
      ThroughLength(f, |c.ops|, hi, c.bufs[hi - 1]);
    }
  }

  /** The result of `handle_msg` for the message of accelerator `i`. */
  predicate Active(c: Chain, i: nat)
    requires Shape(c) && i < |c.ops| && c.accels[i].Done?
  {
    (i < |c.ops| - 1 && c.ops[i] == Compute) || Reply(c, i).seen < Reply(c, i).total
  }

  /** `handle_msg` returns false exactly if the input is exhausted and no chunk is left in the chain. */
  lemma InactiveExactly(f: Stages, c: Chain, i: nat)
    requires Inv(f, c) && KeepsLength(f) && i < |c.ops| && c.accels[i].Done?
    ensures var c' := Reply(c, i); !Active(c, i) <==> c'.eof && c'.input == [] && AllIdle(c')
  {
    ReplyKeeps(f, c, i);
    var c' := Reply(c, i);
    BytesInFlight(f, c');
    EmptyPieces(f, c', |c'.ops|);
    if i < |c.ops| - 1 && c.ops[i] == Compute {
      assert StageOk(c, i);
      assert c'.ops[i] != Idle;
    }
  }

  /** An empty chain has written exactly the stages, applied in order, to each chunk of the input. */
  lemma OutputIsComplete(f: Stages, c: Chain)
    requires Inv(f, c) && KeepsLength(f) && AllIdle(c)
    ensures c.eof && c.out == Expected(f, |c.ops|, c.fed + c.input)
  {
    EmptyPieces(f, c, |c.ops|);
    assert c.fed + c.input == c.fed;
  }

  /** What is in the input file does not depend on the steps. */
  lemma StepKeepsInput(f: Stages, c: Chain, i: nat)
    requires Shape(c) && Enabled(c, i)
    ensures Next(f, c, i).fed + Next(f, c, i).input == c.fed + c.input
    ensures |Next(f, c, i).ops| == |c.ops|
  {
    if c.input != [] {
      assert c.input == [c.input[0]] + c.input[1..];
      assert c.fed + ([c.input[0]] + c.input[1..]) == (c.fed + [c.input[0]]) + c.input[1..];
    }
  }

  // ---------------------------------------------------------------- termination

  /** How many steps the chunk in stage `i` still needs. */
  ghost function Steps(c: Chain, i: nat): nat
    requires Shape(c) && i < |c.ops|
  {
    var all := 4 * (|c.ops| - i);
    match c.ops[i]
    case Idle => 0
    case Compute => if c.accels[i].Busy? then all else if c.accels[i].Done? then all - 1 else all - 2
    case Forward => if c.accels[i].Busy? then all - 2 else all - 3
  }

  ghost function StepsBelow(c: Chain, hi: nat): nat
    requires Shape(c) && hi <= |c.ops|
  {
    if hi == 0 then 0 else StepsBelow(c, hi - 1) + Steps(c, hi - 1)
  }

  ghost function Work(c: Chain): nat
    requires Shape(c)
  {
    |c.input| * (4 * |c.ops| + 1) + StepsBelow(c, |c.ops|)
  }

  /** Only the stages `i` and `i + 1` need a different number of steps. */
  lemma {:induction false} StepsChange(c: Chain, c': Chain, i: nat, hi: nat)
    requires Shape(c) && Shape(c') && |c.ops| == |c'.ops| && i < |c.ops| && hi <= |c.ops|
    requires forall k {:trigger Steps(c', k)} :: 0 <= k < hi && k != i && k != i + 1 ==> Steps(c', k) == Steps(c, k)
    ensures StepsBelow(c', hi) - StepsBelow(c, hi)
         == (if i < hi then Steps(c', i) - Steps(c, i) else 0)
          + (if i + 1 < hi then Steps(c', i + 1) - Steps(c, i + 1) else 0)
    decreases hi
  {
    if hi > 0 {
      StepsChange(c, c', i, hi - 1);
      assert hi - 1 != i && hi - 1 != i + 1 ==> Steps(c', hi - 1) == Steps(c, hi - 1);
    }
  }

  lemma FinishWork(f: Stages, c: Chain, i: nat)
    requires Inv(f, c) && i < |c.ops| && c.accels[i].Busy?
    ensures Work(Finish(f, c, i)) < Work(c)
  {
    var c' := Finish(f, c, i);
    assert StageOk(c, i);
    assert i + 1 < |c.ops| ==> Steps(c', i + 1) == Steps(c, i + 1);
    StepsChange(c, c', i, |c.ops|);
  }

  lemma ReplyComputedWork(f: Stages, c: Chain, i: nat)
    requires Inv(f, c) && i < |c.ops| - 1 && c.accels[i].Done? && c.ops[i] == Compute
    ensures Work(Reply(c, i)) < Work(c)
  {
    var c' := Reply(c, i);
    assert StageOk(c, i);
    assert Steps(c', i + 1) == Steps(c, i + 1);
    StepsChange(c, c', i, |c.ops|);
  }

  lemma ReplyLastWork(f: Stages, c: Chain)
    requires Inv(f, c) && c.accels[|c.ops| - 1].Done?
    ensures Work(Reply(c, |c.ops| - 1)) < Work(c)
  {
    var i := |c.ops| - 1;
    var c' := Reply(c, i);
    assert StageOk(c, i) && SizeOk(c, i) && StageOk(c, i - 1);
    assert Steps(c', i - 1) == Steps(c, i - 1);
    StepsChange(c, c', i, |c.ops|);
  }

  lemma ReplyForwardedWork(f: Stages, c: Chain, i: nat)
    requires Inv(f, c) && 0 < i < |c.ops| - 1 && c.accels[i].Done? && c.ops[i] == Forward
    ensures Work(Reply(c, i)) < Work(c)
  {
    var c' := Reply(c, i);
    assert StageOk(c, i) && SizeOk(c, i) && StageOk(c, i - 1) && StageOk(c, i + 1);
    assert Steps(c', i - 1) == Steps(c, i - 1);
    StepsChange(c, c', i, |c.ops|);
  }

  lemma ReplyFirstWork(f: Stages, c: Chain)
    requires Inv(f, c) && c.accels[0].Done? && c.ops[0] == Forward
    ensures Work(Reply(c, 0)) < Work(c)
  {
    var c' := Reply(c, 0);
    assert StageOk(c, 0) && SizeOk(c, 0) && StageOk(c, 1);
    StepsChange(c, c', 0, |c.ops|);
    if c.input != [] {
      OneLess(|c.input|, 4 * |c.ops| + 1);
    }
  }

  lemma OneLess(k: nat, w: nat)
    requires k > 0
    ensures k * w == (k - 1) * w + w
  {
  }

  /** Every step brings the chain closer to its end: it needs a bounded number of messages. */
  lemma WorkDecreases(f: Stages, c: Chain, i: nat)
    requires Inv(f, c) && Enabled(c, i)
    ensures Shape(Next(f, c, i)) && Work(Next(f, c, i)) < Work(c)
  {
    assert StageOk(c, i) && SizeOk(c, i);
    if c.accels[i].Busy? {
      FinishWork(f, c, i);
    } else if i < |c.ops| - 1 && c.ops[i] == Compute {
      ReplyComputedWork(f, c, i);
    } else if i == |c.ops| - 1 {
      ReplyLastWork(f, c);
    } else if i == 0 {
      ReplyFirstWork(f, c);
    } else {
      ReplyForwardedWork(f, c, i);
    }
  }
}
