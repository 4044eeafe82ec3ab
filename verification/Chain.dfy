/** The host side of the accelerator chains: the `IndirChain` object and the event loop over several chains. */
module ChainHost {
  import opened ChainSpec
  import opened ChainProofs

  // ---------------------------------------------------------------- labels

  /** `idx_to_label`: label 0 is special. */
  function Label(chain: nat, n: nat, i: nat): nat {
    1 + chain * n + i
  }

  lemma Multiples(k: int, n: nat)
    ensures k >= 1 ==> k * n >= n
    ensures k <= -1 ==> k * n <= -(n as int)
  {
    assert k >= 1 ==> (k - 1) * n >= 0;
    assert k <= -1 ==> (-1 - k) * n >= 0;
  }

  /** The event loop recovers the chain and the accelerator from the label. */
  lemma LabelRoundTrip(chain: nat, n: nat, i: nat)
    requires i < n
    ensures (Label(chain, n, i) - 1) / n == chain && (Label(chain, n, i) - 1) % n == i
  {
    var q, r := (chain * n + i) / n, (chain * n + i) % n;
    assert q * n + r == chain * n + i;
    assert (q - chain) * n == i - r;
    Multiples(q - chain, n);
  }

  // ---------------------------------------------------------------- the object

  class IndirChain {
    const ops: array<Op>
    const sizes: array<nat>
    var total: nat
    var seen: nat
    var accels: seq<Accel>
    var bufs: seq<Data>
    var input: seq<Data>
    var eof: bool
    var out: Data
    ghost var fed: seq<Data>

    ghost function State(): Chain
      reads this, ops, sizes
    {
      Chain(ops[..], sizes[..], total, seen, accels, bufs, input, eof, out, fed)
    }

    ghost predicate Ready()
      reads this, ops, sizes
    {
      Shape(State()) && (ops as object) != sizes
    }

    constructor (n: nat, input: seq<Data>)
      requires n >= 2
      ensures Ready() && State() == Init(n, input) && fresh(ops) && fresh(sizes)
    {
      ops, sizes := new Op[n](_ => Idle), new nat[n](_ => 0);
      total, seen, eof := 0, 0, false;
      accels, bufs := seq(n, _ => Off), seq(n, _ => []);
      this.input, out, fed := input, [], [];
      new;
      assert ops[..] == seq(n, _ => Idle) && sizes[..] == seq(n, _ => 0);
      assert State() == Init(n, input);
    }

    method Start(i: nat, op: Op, size: nat)
      requires Ready() && i < ops.Length
      modifies this, ops
      ensures Ready() && State() == Invoke(old(State()), i, op, size)
    {
      accels := accels[i := Busy(op, size)];
      ops[i] := op;
    }

    method ReadNext() returns (more: bool)
      requires Ready()
      modifies this, ops
      ensures Ready() && State() == ChainSpec.ReadNext(old(State()))
      ensures more == (old(input) != [])
    {
      if input == [] {
        eof := true;
        return false;
      }
      var d := input[0];
      bufs := bufs[0 := d];
      input, fed := input[1..], fed + [d];
      total := total + |d|;
      Start(0, Compute, |d|);
      return true;
    }

    method HandleMsg(idx: nat, written: nat) returns (active: bool)
      requires Ready() && idx < ops.Length && sizes[0] == 0
      modifies this, ops, sizes
      ensures Ready() && State() == ChainSpec.HandleMsg(old(State()), idx, written)
      ensures active == ((idx < ops.Length - 1 && old(ops[idx]) == Compute) || seen < total)
    {
      var n := ops.Length;
      if idx < n - 1 && ops[idx] == Compute {
        if ops[idx + 1] == Idle {
          Start(idx, Forward, written);
        } else {
          sizes[idx + 1] := written;
        }
        return true;
      }
      ops[idx] := Idle;
      if idx == n - 1 {
        out := out + Prefix(bufs[idx], written);
        seen := seen + written;
      } else if idx == 0 {
        Start(1, Compute, written);
        var _ := ReadNext();
      } else {
        Start(idx + 1, Compute, written);
      }
      if sizes[idx] > 0 {
        var deferred := sizes[idx];
        sizes[idx] := 0;
        Start(idx - 1, Forward, deferred);
      }
      return seen < total;
    }

    /** Accelerator `i` works or has a message for the host. */
    predicate Pending(i: nat)
      reads this
    {
      i < |accels| && !accels[i].Off?
    }

    /** What accelerator `i` does on its own. */
    method Finish(f: Stages, i: nat)
      requires Ready() && i < |accels| && accels[i].Busy?
      modifies this
      ensures Ready() && State() == ChainSpec.Finish(f, old(State()), i)
    {
      if accels[i].op == Compute {
        bufs := bufs[i := f(i, bufs[i])];
      } else if accels[i].op == Forward && i + 1 < |accels| {
        bufs := bufs[i + 1 := bufs[i]];
      }
      accels := accels[i := Done(accels[i].size)];
    }

    /** The host receives the message of accelerator `i`. */
    method Receive(i: nat) returns (written: nat)
      requires Ready() && i < |accels| && accels[i].Done?
      modifies this
      ensures Ready() && State() == old(State()).(accels := old(accels)[i := Off]) && written == old(accels)[i].written
    {
      written := accels[i].written;
      accels := accels[i := Off];
    }
  }

  // ---------------------------------------------------------------- several objects

  ghost function Arrays(objs: seq<IndirChain>): set<object> {
    (set k | 0 <= k < |objs| :: objs[k].ops as object) + (set k | 0 <= k < |objs| :: objs[k].sizes as object)
  }

  /** The objects have no memory in common. */
  ghost predicate Apart(objs: seq<IndirChain>) {
    forall j, k :: 0 <= j < |objs| && 0 <= k < |objs| && j != k ==>
      && objs[j] != objs[k] && objs[j].ops != objs[k].ops && objs[j].sizes != objs[k].sizes
      && (objs[j].ops as object) != objs[k].sizes
  }

  /** The states of the objects. */
  ghost predicate Are(objs: seq<IndirChain>, cs: seq<Chain>)
    reads objs, Arrays(objs)
  {
    |objs| == |cs| && forall k :: 0 <= k < |objs| ==> objs[k].Ready() && objs[k].State() == cs[k]
  }

  // ---------------------------------------------------------------- the event loop

  ghost predicate Shapes(cs: seq<Chain>) {
    forall k :: 0 <= k < |cs| ==> Shape(cs[k])
  }

  ghost function TotalWork(cs: seq<Chain>): nat
    requires Shapes(cs)
  {
    if cs == [] then 0 else TotalWork(cs[..|cs| - 1]) + Work(cs[|cs| - 1])
  }

  lemma {:induction false} TotalWorkDecreases(cs: seq<Chain>, k: nat, c: Chain)
    requires k < |cs| && Shape(c) && Shapes(cs) && Work(c) < Work(cs[k])
    ensures TotalWork(cs[k := c]) < TotalWork(cs)
  {
    var last := |cs| - 1;
    if k == last {
      assert cs[k := c][..last] == cs[..last];
    } else {
      assert cs[k := c][..last] == cs[..last][k := c];
      TotalWorkDecreases(cs[..last], k, c);
    }
  }

  /** The input of a chain: what the reads return until the end of the file. */
  ghost predicate Chunks(input: seq<Data>) {
    forall k :: 0 <= k < |input| ==> |input[k]| > 0
  }

  /** A chain on its way from the given input. */
  ghost predicate Working(f: Stages, n: nat, c: Chain, input: seq<Data>) {
    Inv(f, c) && |c.ops| == n && c.fed + c.input == input
  }

  lemma StartedStages(n: nat, input: seq<Data>)
    requires n >= 2 && Chunks(input) && input != []
    ensures Shape(Init(n, input)) && StagesOk(ReadNext(Init(n, input)))
  {
    var c := ReadNext(Init(n, input));
    forall i | 0 <= i < n ensures StageOk(c, i) {
    }
    forall i | 0 <= i < n ensures SizeOk(c, i) {
    }
  }

  lemma ExpectedOne(f: Stages, n: nat, d: Data)
    ensures Expected(f, n, [d]) == Through(f, n, 0, d) && Length([d]) == |d|
  {
    assert [d][..0] == [];
  }

  lemma StartedChain(f: Stages, n: nat, input: seq<Data>)
    requires n >= 2 && Chunks(input) && input != []
    ensures Shape(Init(n, input))
    ensures var c := ReadNext(Init(n, input)); Working(f, n, c, input) && c.ops[0] != Idle
  {
    StartedStages(n, input);
    var c := ReadNext(Init(n, input));
    NothingBehindFirst(f, c, n);
    assert c.fed == [input[0]];
    ExpectedOne(f, n, input[0]);
    assert c.out + Pieces(f, c, 0, n) == Pieces(f, c, 0, n);
    assert c.fed + c.input == input;
  }

  lemma {:induction false} NothingBehindFirst(f: Stages, c: Chain, hi: nat)
    requires Shape(c) && 1 <= hi <= |c.ops| && forall i :: 1 <= i < hi ==> c.ops[i] == Idle
    ensures Pieces(f, c, 0, hi) == Piece(f, c, 0)
  {
    if hi > 1 {
      NothingBehindFirst(f, c, hi - 1);
    } else {
      assert Pieces(f, c, 0, 0) == [];
    }
  }

  /** All chains are at work, and the active ones are those with chunks in them. */
  ghost predicate LoopOk(f: Stages, n: nat, inputs: seq<seq<Data>>, cs: seq<Chain>, active: set<nat>) {
    && |cs| == |inputs|
    && (forall k {:trigger Working(f, n, cs[k], inputs[k])} :: 0 <= k < |cs| ==> Working(f, n, cs[k], inputs[k]))
    && (forall k :: k in active ==> k < |cs|)
    && (forall k {:trigger AllIdle(cs[k])} :: 0 <= k < |cs| ==> (k in active <==> !AllIdle(cs[k])))
  }

  lemma SomethingToDo(f: Stages, c: Chain) returns (i: nat)
    requires Inv(f, c) && !AllIdle(c)
    ensures Enabled(c, i)
  {
    var k :| 0 <= k < |c.ops| && c.ops[k] != Idle;
    i := AlwaysOutstanding(f, c, k);
  }

  /** As long as a chain is active, there is an event for some active chain. */
  lemma SomeEvent(f: Stages, n: nat, inputs: seq<seq<Data>>, cs: seq<Chain>, active: set<nat>) returns (ch: nat, i: nat)
    requires LoopOk(f, n, inputs, cs, active) && active != {}
    ensures ch in active && ch < |cs| && Shape(cs[ch]) && |cs[ch].ops| == n && Enabled(cs[ch], i)
  {
    ch :| ch in active;
    assert !AllIdle(cs[ch]) && Working(f, n, cs[ch], inputs[ch]);
    i := SomethingToDo(f, cs[ch]);
  }

  /** One step of one chain. */
  lemma ChainStep(f: Stages, n: nat, input: seq<Data>, c: Chain, i: nat)
    requires KeepsLength(f) && Working(f, n, c, input) && Enabled(c, i)
    ensures Working(f, n, Next(f, c, i), input) && Work(Next(f, c, i)) < Work(c)
    ensures !AllIdle(c)
    ensures c.accels[i].Busy? ==> !AllIdle(Next(f, c, i))
    ensures c.accels[i].Done? ==> (Active(c, i) <==> !AllIdle(Next(f, c, i)))
  {
    StepKeeps(f, c, i);
    StepKeepsInput(f, c, i);
    WorkDecreases(f, c, i);
    assert StageOk(c, i);
    if c.accels[i].Busy? {
      assert Finish(f, c, i).ops[i] != Idle;
    } else {
      InactiveExactly(f, c, i);
    }
  }

  /** Replacing one chain by its successor. */
  lemma LoopReplace(f: Stages, n: nat, inputs: seq<seq<Data>>, cs: seq<Chain>, active: set<nat>, ch: nat, c: Chain)
    requires LoopOk(f, n, inputs, cs, active) && ch in active && Working(f, n, c, inputs[ch])
    ensures LoopOk(f, n, inputs, cs[ch := c], if AllIdle(c) then active - {ch} else active)
  {
    var cs' := cs[ch := c];
    forall k | 0 <= k < |cs| ensures Working(f, n, cs'[k], inputs[k]) {
      assert Working(f, n, cs[k], inputs[k]);
    }
    forall k | 0 <= k < |cs| && k != ch ensures AllIdle(cs'[k]) == AllIdle(cs[k]) {
    }
  }

  lemma LoopStep(f: Stages, n: nat, inputs: seq<seq<Data>>, cs: seq<Chain>, active: set<nat>, ch: nat, i: nat)
    requires KeepsLength(f) && LoopOk(f, n, inputs, cs, active) && ch in active && Shape(cs[ch]) && Enabled(cs[ch], i)
    ensures var cs' := cs[ch := Next(f, cs[ch], i)];
            && LoopOk(f, n, inputs, cs', if cs[ch].accels[i].Done? && !Active(cs[ch], i) then active - {ch} else active)
            && Shapes(cs) && Shapes(cs') && TotalWork(cs') < TotalWork(cs)
  {
    assert Working(f, n, cs[ch], inputs[ch]);
    ChainStep(f, n, inputs[ch], cs[ch], i);
    var c' := Next(f, cs[ch], i);
    LoopReplace(f, n, inputs, cs, active, ch, c');
    ShapesOk(f, n, inputs, cs, active);
    TotalWorkDecreases(cs, ch, c');
  }

  lemma ShapesOk(f: Stages, n: nat, inputs: seq<seq<Data>>, cs: seq<Chain>, active: set<nat>)
    requires LoopOk(f, n, inputs, cs, active)
    ensures Shapes(cs)
  {
    forall k | 0 <= k < |cs| ensures Shape(cs[k]) {
      assert Working(f, n, cs[k], inputs[k]);
    }
  }

  /** One more chain. */
  lemma OneMore(f: Stages, n: nat, inputs: seq<seq<Data>>, cs: seq<Chain>, active: set<nat>, input: seq<Data>, c: Chain)
    requires LoopOk(f, n, inputs, cs, active) && Working(f, n, c, input) && !AllIdle(c)
    ensures LoopOk(f, n, inputs + [input], cs + [c], active + {|cs|})
  {
    var cs', inputs' := cs + [c], inputs + [input];
    forall k | 0 <= k < |cs'| ensures Working(f, n, cs'[k], inputs'[k]) {
      if k < |cs| {
        assert Working(f, n, cs[k], inputs[k]);
      }
    }
    forall k | 0 <= k < |cs'| ensures k in active + {|cs|} <==> !AllIdle(cs'[k]) {
      if k < |cs| {
        assert k in active <==> !AllIdle(cs[k]);
      }
    }
  }

  lemma ArraysMore(objs: seq<IndirChain>, obj: IndirChain)
    ensures Arrays(objs + [obj]) == Arrays(objs) + {obj.ops as object, obj.sizes as object}
  {
    var objs' := objs + [obj];
    assert forall k :: 0 <= k < |objs| ==> objs'[k] == objs[k];
    assert objs'[|objs|] == obj;
  }

  /** One more chain. */
  method CreateChain(n: nat, objs: seq<IndirChain>, ghost cs: seq<Chain>, input: seq<Data>) returns (obj: IndirChain)
    requires n >= 2 && Apart(objs) && Are(objs, cs)
    ensures fresh(obj) && fresh(obj.ops) && fresh(obj.sizes) && Apart(objs + [obj]) && Are(objs + [obj], cs + [Init(n, input)])
  {
    obj := new IndirChain(n, input);
  }

  /** Creates the chains. */
  method CreateChains(n: nat, inputs: seq<seq<Data>>) returns (objs: seq<IndirChain>, ghost cs: seq<Chain>)
    requires n >= 2
    ensures |objs| == |inputs| && Apart(objs) && Are(objs, cs) && fresh(objs) && fresh(Arrays(objs))
    ensures forall k :: 0 <= k < |inputs| ==> cs[k] == Init(n, inputs[k])
  {
    objs, cs := [], [];
    while |objs| < |inputs|
      invariant |objs| <= |inputs| && Apart(objs) && Are(objs, cs) && fresh(objs) && fresh(Arrays(objs))
      invariant forall k :: 0 <= k < |objs| ==> cs[k] == Init(n, inputs[k])
    {
      var obj := CreateChain(n, objs, cs, inputs[|objs|]);
      ArraysMore(objs, obj);
      objs, cs := objs + [obj], cs + [Init(n, inputs[|objs|])];
    }
  }

  /** The first chunk of chain `ch`. */
  method Feed(objs: seq<IndirChain>, ghost cs: seq<Chain>, ch: nat) returns (more: bool)
    requires Apart(objs) && Are(objs, cs) && ch < |objs|
    modifies objs, Arrays(objs)
    ensures Shape(cs[ch]) && Are(objs, cs[ch := ReadNext(cs[ch])])
    ensures more == (cs[ch].input != [])
  {
    assert objs[ch].Ready();
    more := objs[ch].ReadNext();
  }

  /** The first `i` chains have started, the others not yet. */
  ghost predicate Started(f: Stages, n: nat, inputs: seq<seq<Data>>, cs: seq<Chain>, active: set<nat>, i: nat) {
    && i <= |inputs| == |cs| && LoopOk(f, n, inputs[..i], cs[..i], active)
    && (forall k :: i <= k < |inputs| ==> cs[k] == Init(n, inputs[k]))
    && forall k :: 0 <= k < i ==> inputs[k] != []
  }

  lemma StartNext(f: Stages, n: nat, inputs: seq<seq<Data>>, cs: seq<Chain>, active: set<nat>, i: nat)
    requires n >= 2 && i < |inputs| && Started(f, n, inputs, cs, active, i) && Chunks(inputs[i]) && inputs[i] != []
    ensures Shape(cs[i]) && Started(f, n, inputs, cs[i := ReadNext(cs[i])], active + {i}, i + 1)
  {
    StartedChain(f, n, inputs[i]);
    var c := ReadNext(cs[i]);
    OneMore(f, n, inputs[..i], cs[..i], active, inputs[i], c);
    assert inputs[..i] + [inputs[i]] == inputs[..i + 1];
    assert cs[i := c][..i + 1] == cs[..i] + [c];
  }

  /** Gives every chain its first chunk; fails if there is none. */
  method StartChains(f: Stages, n: nat, inputs: seq<seq<Data>>, objs: seq<IndirChain>, ghost init: seq<Chain>)
    returns (ok: bool, active: set<nat>, ghost cs: seq<Chain>)
    requires n >= 2 && Apart(objs) && Are(objs, init) && Started(f, n, inputs, init, {}, 0)
    requires forall k :: 0 <= k < |inputs| ==> Chunks(inputs[k])
    modifies objs, Arrays(objs)
    ensures ok <==> forall k :: 0 <= k < |inputs| ==> inputs[k] != []
    ensures ok ==> Are(objs, cs) && Started(f, n, inputs, cs, active, |inputs|)
  {
    active, cs := {}, init;
    var i := 0;
    while i < |inputs|
      invariant 0 <= i <= |inputs| && Are(objs, cs) && Started(f, n, inputs, cs, active, i)
    {
      var more := Feed(objs, cs, i);
      if !more {
        return false, {}, cs;
      }
      StartNext(f, n, inputs, cs, active, i);
      active, cs, i := active + {i}, cs[i := ReadNext(cs[i])], i + 1;
    }
    return true, active, cs;
  }

  /** Something happens at accelerator `i` of chain `ch`; the result says whether the chain is still active. */
  method Progress(f: Stages, n: nat, objs: seq<IndirChain>, ghost cs: seq<Chain>, ch: nat, i: nat) returns (more: bool)
    requires Apart(objs) && Are(objs, cs) && ch < |objs| && Shape(cs[ch]) && |cs[ch].ops| == n && cs[ch].sizes[0] == 0
    requires Enabled(cs[ch], i)
    modifies objs, Arrays(objs)
    ensures Are(objs, cs[ch := Next(f, cs[ch], i)])
    ensures more == (cs[ch].accels[i].Busy? || Active(cs[ch], i))
  {
    assert objs[ch].Ready();
    if objs[ch].accels[i].Busy? {
      objs[ch].Finish(f, i);
      return true;
    }
    LabelRoundTrip(ch, n, i);
    var tag := Label(ch, n, i);
    var chain, accel := (tag - 1) / n, (tag - 1) % n;
    var written := objs[chain].Receive(accel);
    more := objs[chain].HandleMsg(accel, written);
  }

  /** The next event: any accelerator of an active chain that finishes or whose message arrives. */
  method NextEvent(f: Stages, n: nat, ghost inputs: seq<seq<Data>>, objs: seq<IndirChain>, ghost cs: seq<Chain>, active: set<nat>)
    returns (ch: nat, i: nat)
    requires LoopOk(f, n, inputs, cs, active) && Are(objs, cs) && active != {}
    ensures ch in active && ch < |cs| && Shape(cs[ch]) && |cs[ch].ops| == n && cs[ch].sizes[0] == 0 && Enabled(cs[ch], i)
  {
    ghost var some, j := SomeEvent(f, n, inputs, cs, active);
    assert objs[some].State() == cs[some] && objs[some].Pending(j);
    ch, i :| ch in active && i < n && objs[ch].Pending(i);
    assert objs[ch].Pending(i);
    assert objs[ch].State() == cs[ch];
    assert Working(f, n, cs[ch], inputs[ch]) && SizeOk(cs[ch], 0);
  }

  /** One round of the event loop. */
  method HandleEvent(f: Stages, n: nat, ghost inputs: seq<seq<Data>>, objs: seq<IndirChain>, ghost cs: seq<Chain>, active: set<nat>)
    returns (active': set<nat>, ghost cs': seq<Chain>)
    requires KeepsLength(f) && LoopOk(f, n, inputs, cs, active) && Apart(objs) && Are(objs, cs) && active != {}
    modifies objs, Arrays(objs)
    ensures LoopOk(f, n, inputs, cs', active') && Are(objs, cs')
    ensures Shapes(cs) && Shapes(cs') && TotalWork(cs') < TotalWork(cs)
  {
    var ch, i := NextEvent(f, n, inputs, objs, cs, active);
    LoopStep(f, n, inputs, cs, active, ch, i);
    var more := Progress(f, n, objs, cs, ch, i);
    cs' := cs[ch := Next(f, cs[ch], i)];
    active' := if more then active else active - {ch};
  }

  /**
   The event loop: whichever accelerator is next to finish or to have its message received, the loop
   terminates with all chains empty.
   */
  method EventLoop(f: Stages, n: nat, ghost inputs: seq<seq<Data>>, objs: seq<IndirChain>, ghost start: seq<Chain>, chains: set<nat>)
    returns (ghost cs: seq<Chain>)
    requires KeepsLength(f) && LoopOk(f, n, inputs, start, chains) && Apart(objs) && Are(objs, start)
    modifies objs, Arrays(objs)
    ensures LoopOk(f, n, inputs, cs, {}) && Are(objs, cs)
  {
    cs := start;
    var active := chains;
    ShapesOk(f, n, inputs, cs, active);
    while active != {}
      invariant LoopOk(f, n, inputs, cs, active) && Shapes(cs) && Are(objs, cs)
      decreases TotalWork(cs)
    {
      active, cs := HandleEvent(f, n, inputs, objs, cs, active);
    }
  }

  /** The contents of the output files. */
  method Outputs(f: Stages, n: nat, inputs: seq<seq<Data>>, objs: seq<IndirChain>, ghost cs: seq<Chain>) returns (outs: seq<Data>)
    requires KeepsLength(f) && LoopOk(f, n, inputs, cs, {}) && Are(objs, cs)
    ensures |outs| == |inputs| && forall k :: 0 <= k < |inputs| ==> outs[k] == Expected(f, n, inputs[k])
  {
    outs := [];
    while |outs| < |objs|
      invariant |outs| <= |objs| && forall k :: 0 <= k < |outs| ==> outs[k] == Expected(f, n, inputs[k])
    {
      ghost var k := |outs|;
      assert Working(f, n, cs[k], inputs[k]) && AllIdle(cs[k]) && objs[k].State() == cs[k];
      OutputIsComplete(f, cs[k]);
      outs := outs + [objs[|outs|].out];
    }
  }

  /**
   `chain_indirect`: if every input file has a first chunk, every chain ends up with all stages applied,
   in order, to each chunk of its input.
   */
  method ChainIndirect(f: Stages, n: nat, inputs: seq<seq<Data>>) returns (ok: bool, outs: seq<Data>)
    requires n >= 2 && KeepsLength(f) && forall k :: 0 <= k < |inputs| ==> Chunks(inputs[k])
    ensures ok <==> forall k :: 0 <= k < |inputs| ==> inputs[k] != []
    ensures ok ==> |outs| == |inputs| && forall k :: 0 <= k < |inputs| ==> outs[k] == Expected(f, n, inputs[k])
  {
    var objs, active;
    ghost var cs;
    objs, cs := CreateChains(n, inputs);
    assert Started(f, n, inputs, cs, {}, 0);
    ok, active, cs := StartChains(f, n, inputs, objs, cs);
    if !ok {
      return false, [];
    }
    assert inputs[..|inputs|] == inputs && cs[..|inputs|] == cs;
    cs := EventLoop(f, n, inputs, objs, cs, active);
    outs := Outputs(f, n, inputs, objs, cs);
  }
}
