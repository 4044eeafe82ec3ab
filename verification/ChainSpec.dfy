/**
 A chain of accelerators (`IndirChain`): the host feeds chunks of a file into the first accelerator,
 lets every accelerator compute in place and forward the result to the next one, and writes what the
 last one produced.  The host learns from messages when an operation is finished.

 Accelerators are modelled with their memory: `Finish` is what an accelerator does on its own, `Reply`
 is the arrival of its message at the host.
 */
module ChainSpec {

  type Data = seq<int>

  /** What stage `i` computes. */
  type Stages = (nat, Data) -> Data

  datatype Op = Idle | Compute | Forward

  /** An accelerator: not invoked, working on an operation, or with a message on its way to the host. */
  datatype Accel = Off | Busy(op: Op, size: nat) | Done(written: nat)

  datatype Chain = Chain(
    ops: seq<Op>,
    sizes: seq<nat>,
    total: nat,
    seen: nat,
    accels: seq<Accel>,
    bufs: seq<Data>,          // the memory of the accelerators
    input: seq<Data>,         // what the next reads of the input file return
    eof: bool,                // a read has returned nothing
    out: Data,                // what was written to the output file
    fed: seq<Data>            // the chunks that were read so far
  )

  ghost predicate Shape(c: Chain) {
    |c.ops| >= 2 && |c.sizes| == |c.ops| && |c.accels| == |c.ops| && |c.bufs| == |c.ops|
  }

  function Init(n: nat, input: seq<Data>): Chain {
    Chain(seq(n, _ => Idle), seq(n, _ => 0), 0, 0, seq(n, _ => Off), seq(n, _ => []), input, false, [], [])
  }

  // ---------------------------------------------------------------- the host

  function Invoke(c: Chain, i: nat, op: Op, size: nat): Chain
    requires Shape(c) && i < |c.ops|
    ensures Shape(Invoke(c, i, op, size))
  {
    c.(accels := c.accels[i := Busy(op, size)], ops := c.ops[i := op])
  }

  function ReadNext(c: Chain): Chain
    requires Shape(c)
  {
    if c.input == [] then c.(eof := true)
    else
      var d := c.input[0];
      Invoke(c.(bufs := c.bufs[0 := d], total := c.total + |d|, input := c.input[1..], fed := c.fed + [d]),
             0, Compute, |d|)
  }

  function Prefix(d: Data, n: nat): Data {
    if n <= |d| then d[..n] else d
  }

  function HandleMsg(c: Chain, idx: nat, written: nat): Chain
    requires Shape(c) && idx < |c.ops|
  {
    var n := |c.ops|;
    if idx < n - 1 && c.ops[idx] == Compute then
      if c.ops[idx + 1] == Idle then Invoke(c, idx, Forward, written)
      else c.(sizes := c.sizes[idx + 1 := written])
    else
      var c1 := c.(ops := c.ops[idx := Idle]);
      var c2 :=
        if idx == n - 1 then c1.(out := c1.out + Prefix(c1.bufs[idx], written), seen := c1.seen + written)
        else if idx == 0 then ReadNext(Invoke(c1, 1, Compute, written))
        else Invoke(c1, idx + 1, Compute, written);
      if c2.sizes[idx] > 0 && idx > 0
      then Invoke(c2.(sizes := c2.sizes[idx := 0]), idx - 1, Forward, c2.sizes[idx])
      else c2
  }

  // ---------------------------------------------------------------- the steps of the system

  function Finish(f: Stages, c: Chain, i: nat): Chain
    requires Shape(c) && i < |c.ops| && c.accels[i].Busy?
  {
    var done := c.(accels := c.accels[i := Done(c.accels[i].size)]);
    match c.accels[i].op
    case Compute => done.(bufs := c.bufs[i := f(i, c.bufs[i])])
    case Forward => if i + 1 < |c.ops| then done.(bufs := c.bufs[i + 1 := c.bufs[i]]) else done
    case Idle => done
  }

  function Reply(c: Chain, i: nat): Chain
    requires Shape(c) && i < |c.ops| && c.accels[i].Done?
  {
    HandleMsg(c.(accels := c.accels[i := Off]), i, c.accels[i].written)
  }

  /** Something happens at accelerator `i`. */
  predicate Enabled(c: Chain, i: nat)
    requires Shape(c)
  {
    i < |c.ops| && !c.accels[i].Off?
  }

  function Next(f: Stages, c: Chain, i: nat): Chain
    requires Shape(c) && Enabled(c, i)
  {
    if c.accels[i].Busy? then Finish(f, c, i) else Reply(c, i)
  }
}
