/**
 The metadata cache of m3fs: a fixed number of buffers, a write-back policy, and pins for the buffers
 that a request is using.  Seen from outside, it is a plain map from block numbers to contents.
 */
module MetaBufferSpec {
  import opened Options

  type Data = int

  /** A buffer head; key 0 means that it holds no block. */
  datatype Head = Head(key: nat, dirty: bool, links: nat, data: Data)

  /** `index` is the tree `ht`: the head of each cached block. */
  datatype Cache = Cache(heads: seq<Head>, index: map<nat, nat>, lru: seq<nat>, disk: map<nat, Data>)

  function OnDisk(c: Cache, b: nat): Data {
    if b in c.disk then c.disk[b] else 0
  }

  /** What block `b` contains, as far as the users of the cache are concerned. */
  function Logical(c: Cache, b: nat): Data {
    if b in c.index && c.index[b] < |c.heads| then c.heads[c.index[b]].data else OnDisk(c, b)
  }

  // ---------------------------------------------------------------- operations

  function Remove(s: seq<nat>, i: nat): seq<nat> {
    if s == [] then [] else if s[0] == i then s[1..] else [s[0]] + Remove(s[1..], i)
  }

  function MoveToEnd(s: seq<nat>, i: nat): seq<nat> {
    Remove(s, i) + [i]
  }

  /** The first head in the list that nobody uses. */
  function Victim(heads: seq<Head>, lru: seq<nat>): Option<nat> {
    if lru == [] then None
    else if lru[0] < |heads| && heads[lru[0]].links == 0 then Some(lru[0])
    else Victim(heads, lru[1..])
  }

  /** `flush_chunk`. */
  function FlushChunk(c: Cache, i: nat): Cache
    requires i < |c.heads|
  {
    c.(disk := c.disk[c.heads[i].key := c.heads[i].data], heads := c.heads[i := c.heads[i].(dirty := false)])
  }

  /** Write-back of one head, if necessary. */
  function Flushed(c: Cache, i: nat): Cache
    requires i < |c.heads|
  {
    if c.heads[i].dirty then FlushChunk(c, i) else c
  }

  /** Takes the head away from the block that it holds. */
  function Evicted(c: Cache, i: nat): Cache
    requires i < |c.heads|
  {
    if c.heads[i].key != 0 then Flushed(c.(index := c.index - {c.heads[i].key}), i) else c
  }

  function Loaded(c: Cache, i: nat, b: nat, dirty: bool): Cache
    requires i < |c.heads|
  {
    c.(heads := c.heads[i := Head(b, dirty, 1, OnDisk(c, b))], index := c.index[b := i], lru := MoveToEnd(c.lru, i))
  }

  /** `get_block`; the result is the head, and None if all heads are in use: the source then follows a null pointer. */
  function GetBlock(c: Cache, b: nat, dirty: bool): (Cache, Option<nat>) {
    if b in c.index && c.index[b] < |c.heads| then
      var i := c.index[b];
      var h := c.heads[i];
      (c.(heads := c.heads[i := h.(links := h.links + 1, dirty := h.dirty || dirty)], lru := MoveToEnd(c.lru, i)), Some(i))
    else
      match Victim(c.heads, c.lru)
      case None => (c, None)
      case Some(i) => if i < |c.heads| then (Loaded(Evicted(c, i), i, b, dirty), Some(i)) else (c, None)
  }

  function Quit(c: Cache, i: nat): Cache
    requires i < |c.heads| && c.heads[i].links > 0
  {
    c.(heads := c.heads[i := c.heads[i].(links := c.heads[i].links - 1)])
  }

  function WriteBack(c: Cache, b: nat): Cache {
    if b in c.index && c.index[b] < |c.heads| then Flushed(c, c.index[b]) else c
  }

  function MarkDirty(c: Cache, b: nat): Cache {
    if b in c.index && c.index[b] < |c.heads|
    then c.(heads := c.heads[c.index[b] := c.heads[c.index[b]].(dirty := true)])
    else c
  }

  /** A request changes a block that it has pinned. */
  function Modify(c: Cache, i: nat, d: Data): Cache
    requires i < |c.heads|
  {
    c.(heads := c.heads[i := c.heads[i].(data := d)])
  }

  function Init(n: nat, disk: map<nat, Data>): Cache {
    Cache(seq(n, _ => Head(0, false, 0, 0)), map[], seq(n, i requires 0 <= i => i), disk)
  }

  // ---------------------------------------------------------------- invariant

  ghost predicate IndexOk(c: Cache, b: nat)
    requires b in c.index
  {
    b != 0 && c.index[b] < |c.heads| && c.heads[c.index[b]].key == b
  }

  ghost predicate HeadOk(c: Cache, i: nat)
    requires i < |c.heads|
  {
    var h := c.heads[i];
    && i in c.lru
    && (h.key == 0 ==> h.links == 0 && !h.dirty)
    && (h.key != 0 ==> h.key in c.index && c.index[h.key] == i)
    && (h.key != 0 && !h.dirty ==> h.data == OnDisk(c, h.key))
  }

  ghost predicate Inv(c: Cache) {
    && (forall b {:trigger IndexOk(c, b)} :: b in c.index ==> IndexOk(c, b))
    && (forall i {:trigger HeadOk(c, i)} :: 0 <= i < |c.heads| ==> HeadOk(c, i))
  }

  // ---------------------------------------------------------------- steps

  datatype Step =
    | SGet(b: nat, dirty: bool)
    | SQuit(i: nat)
    | SWriteBack(b: nat)
    | SMarkDirty(b: nat)
    | SModify(i: nat, d: Data)

  /**
   What the requests guarantee: block 0 is never asked for; not all heads are in use when another block is
   needed; only a pinned block is released or modified, and modified only while it is marked dirty.
   */
  predicate Enabled(c: Cache, s: Step) {
    match s
    case SGet(b, dirty) => b != 0 && GetBlock(c, b, dirty).1.Some?
    case SQuit(i) => i < |c.heads| && c.heads[i].links > 0
    case SWriteBack(_) => true
    case SMarkDirty(_) => true
    case SModify(i, _) => i < |c.heads| && c.heads[i].links > 0 && c.heads[i].dirty
  }

  function Next(c: Cache, s: Step): Cache
    requires Enabled(c, s)
  {
    match s
    case SGet(b, dirty) => GetBlock(c, b, dirty).0
    case SQuit(i) => Quit(c, i)
    case SWriteBack(b) => WriteBack(c, b)
    case SMarkDirty(b) => MarkDirty(c, b)
    case SModify(i, d) => Modify(c, i, d)
  }

  /** What a plain map from blocks to contents would do. */
  ghost predicate Plain(c: Cache, s: Step, c': Cache)
    requires Enabled(c, s)
  {
    forall b :: b != 0 ==>
      Logical(c', b) == if s.SModify? && c.heads[s.i].key == b then s.d else Logical(c, b)
  }

  ghost predicate Run(c: Cache, steps: seq<Step>, c': Cache)
    decreases |steps|
  {
    if steps == [] then c == c' else Enabled(c, steps[0]) && Run(Next(c, steps[0]), steps[1..], c')
  }
}

module MetaBufferProofs {
  import opened Options
  import opened MetaBufferSpec

  lemma {:induction false} VictimIsFree(heads: seq<Head>, lru: seq<nat>)
    ensures var v := Victim(heads, lru); v.Some? ==> v.value < |heads| && heads[v.value].links == 0
    ensures Victim(heads, lru).None? ==> forall i :: i in lru && i < |heads| ==> heads[i].links > 0
  {
    if lru != [] {
      VictimIsFree(heads, lru[1..]);
    }
  }

  lemma {:induction false} MoveKeepsMembers(s: seq<nat>, i: nat, x: nat)
    ensures x in s && x != i ==> x in Remove(s, i)
    ensures x in s || x == i ==> x in MoveToEnd(s, i)
  {
    if s != [] {
      MoveKeepsMembers(s[1..], i, x);
    }
  }

  lemma FlushKeeps(c: Cache, i: nat)
    requires Inv(c) && i < |c.heads| && c.heads[i].key != 0
    ensures Inv(Flushed(c, i)) && !Flushed(c, i).heads[i].dirty
    ensures forall b :: Logical(Flushed(c, i), b) == Logical(c, b)
    ensures OnDisk(Flushed(c, i), c.heads[i].key) == c.heads[i].data
  {
    var c' := Flushed(c, i);
    assert HeadOk(c, i);
    forall b | b in c'.index ensures IndexOk(c', b) {
      assert IndexOk(c, b);
    }
    forall k | 0 <= k < |c'.heads| ensures HeadOk(c', k) {
      assert HeadOk(c, k);
    }
    forall b ensures Logical(c', b) == Logical(c, b) {
      assert b in c.index ==> IndexOk(c, b);
    }
  }

  /** Loading a block into a free head, after writing back what it held. */
  lemma LoadKeeps(c: Cache, i: nat, b: nat, dirty: bool)
    requires Inv(c) && i < |c.heads| && c.heads[i].links == 0 && b != 0 && b !in c.index
    ensures var c' := Loaded(Evicted(c, i), i, b, dirty);
            && Inv(c') && (forall x :: Logical(c', x) == Logical(c, x))
            && c'.heads[i].data == Logical(c, b)
  {
    var e := Evicted(c, i);
    var c' := Loaded(e, i, b, dirty);
    var key := c.heads[i].key;
    assert HeadOk(c, i);
    forall x | x in c'.index ensures IndexOk(c', x) {
      if x != b {
        assert IndexOk(c, x);
      }
    }
    forall k | 0 <= k < |c'.heads| ensures HeadOk(c', k) {
      MoveKeepsMembers(c.lru, i, k);
      assert HeadOk(c, k);
    }
    forall x ensures Logical(c', x) == Logical(c, x) {
      assert x in c.index ==> IndexOk(c, x);
    }
  }

  lemma GetKeeps(c: Cache, b: nat, dirty: bool)
    requires Inv(c) && Enabled(c, SGet(b, dirty))
    ensures var (c', i) := GetBlock(c, b, dirty);
            && Inv(c') && (forall x :: Logical(c', x) == Logical(c, x))
            && i.Some? && i.value < |c'.heads| && c'.heads[i.value].key == b
            && c'.heads[i.value].links > 0 && (dirty ==> c'.heads[i.value].dirty)
            && c'.heads[i.value].data == Logical(c, b)
  {
    var (c', r) := GetBlock(c, b, dirty);
    if b in c.index {
      assert IndexOk(c, b);
      var i := c.index[b];
      forall x | x in c'.index ensures IndexOk(c', x) {
        assert IndexOk(c, x);
      }
      forall k | 0 <= k < |c'.heads| ensures HeadOk(c', k) {
        MoveKeepsMembers(c.lru, i, k);
        assert HeadOk(c, k);
      }
      forall x ensures Logical(c', x) == Logical(c, x) {
        assert x in c.index ==> IndexOk(c, x);
      }
    } else {
      VictimIsFree(c.heads, c.lru);
      LoadKeeps(c, r.value, b, dirty);
    }
  }

  /** Changing the pins, the dirty flag or the contents of one head. */
  lemma HeadChangeKeeps(c: Cache, i: nat, h: Head)
    requires Inv(c) && i < |c.heads| && c.heads[i].key != 0 && h.key == c.heads[i].key
    requires !h.dirty ==> !c.heads[i].dirty && h.data == c.heads[i].data
    ensures Inv(c.(heads := c.heads[i := h]))
    ensures forall b :: Logical(c.(heads := c.heads[i := h]), b) == if b == h.key then h.data else Logical(c, b)
  {
    var c' := c.(heads := c.heads[i := h]);
    assert HeadOk(c, i);
    forall b | b in c'.index ensures IndexOk(c', b) {
      assert IndexOk(c, b);
    }
    forall k | 0 <= k < |c'.heads| ensures HeadOk(c', k) {
      assert HeadOk(c, k);
    }
    forall b ensures Logical(c', b) == if b == h.key then h.data else Logical(c, b) {
      assert b in c.index ==> IndexOk(c, b);
    }
  }

  /** Every step keeps the invariant and does what a plain map would do. */
  lemma StepIsPlain(c: Cache, s: Step)
    requires Inv(c) && Enabled(c, s)
    ensures Inv(Next(c, s)) && Plain(c, s, Next(c, s))
  {
    match s
    case SGet(b, dirty) => GetKeeps(c, b, dirty);
    case SQuit(i) =>
      assert HeadOk(c, i);
      HeadChangeKeeps(c, i, c.heads[i].(links := c.heads[i].links - 1));
      OwnContent(c, i);
    case SWriteBack(b) => if b in c.index { assert IndexOk(c, b); FlushKeeps(c, c.index[b]); }
    case SMarkDirty(b) =>
      if b in c.index {
        assert IndexOk(c, b);
        HeadChangeKeeps(c, c.index[b], c.heads[c.index[b]].(dirty := true));
        OwnContent(c, c.index[b]);
      }
    case SModify(i, d) =>
      assert HeadOk(c, i);
      HeadChangeKeeps(c, i, c.heads[i].(data := d));
  }

  lemma OwnContent(c: Cache, i: nat)
    requires Inv(c) && i < |c.heads| && c.heads[i].key != 0
    ensures Logical(c, c.heads[i].key) == c.heads[i].data
  {
    assert HeadOk(c, i);
  }

  // ---------------------------------------------------------------- runs

  type BlockMap = map<nat, Data>

  function Get(p: BlockMap, b: nat): Data {
    if b in p then p[b] else 0
  }

  /** The run of a plain map that goes along with a run of the cache. */
  function PlainRun(c: Cache, p: BlockMap, steps: seq<Step>): BlockMap
    decreases |steps|
  {
    if steps == [] || !Enabled(c, steps[0]) then p
    else
      var s := steps[0];
      PlainRun(Next(c, s), if s.SModify? then p[c.heads[s.i].key := s.d] else p, steps[1..])
  }

  ghost predicate Matches(c: Cache, p: BlockMap) {
    forall b :: b != 0 ==> Logical(c, b) == Get(p, b)
  }

  /** Transparency: in every run the cache shows what a plain map of blocks would contain. */
  lemma {:induction false} RunIsPlain(c: Cache, p: BlockMap, steps: seq<Step>, c': Cache)
    requires Inv(c) && Matches(c, p) && Run(c, steps, c')
    ensures Inv(c') && Matches(c', PlainRun(c, p, steps))
    decreases |steps|
  {
    if steps != [] {
      var s := steps[0];
      StepIsPlain(c, s);
      RunIsPlain(Next(c, s), if s.SModify? then p[c.heads[s.i].key := s.d] else p, steps[1..], c');
    }
  }

  lemma InitMatches(n: nat, disk: BlockMap)
    ensures Inv(Init(n, disk)) && Matches(Init(n, disk), disk)
  {
    var c := Init(n, disk);
    forall i | 0 <= i < n ensures HeadOk(c, i) {
      assert c.lru[i] == i;
    }
  }

  /** From an empty cache on. */
  lemma EveryRunIsPlain(n: nat, disk: BlockMap, steps: seq<Step>, c: Cache)
    requires Run(Init(n, disk), steps, c)
    ensures Inv(c) && Matches(c, PlainRun(Init(n, disk), disk, steps))
  {
    InitMatches(n, disk);
    RunIsPlain(Init(n, disk), disk, steps, c);
  }

  /** What a request has pinned stays where it is until that request releases or changes it. */
  lemma PinnedStays(c: Cache, s: Step, i: nat)
    requires Inv(c) && Enabled(c, s) && i < |c.heads| && c.heads[i].links > 0
    ensures |Next(c, s).heads| == |c.heads| && Next(c, s).heads[i].key == c.heads[i].key
    ensures !(s.SModify? && s.i == i) ==> Next(c, s).heads[i].data == c.heads[i].data
    ensures !(s.SQuit? && s.i == i) ==> Next(c, s).heads[i].links >= c.heads[i].links
  {
    if s.SGet? {
      VictimIsFree(c.heads, c.lru);
    }
  }

  /** `get_block` has no head to use exactly if the block is not cached and all heads are pinned. */
  lemma ExhaustedExactly(c: Cache, b: nat, dirty: bool)
    requires Inv(c)
    ensures GetBlock(c, b, dirty).1.None? <==> b !in c.index && forall i :: 0 <= i < |c.heads| ==> c.heads[i].links > 0
  {
    VictimIsFree(c.heads, c.lru);
    if b in c.index {
      assert IndexOk(c, b);
    } else if Victim(c.heads, c.lru).None? {
      forall i | 0 <= i < |c.heads| ensures c.heads[i].links > 0 {
        assert HeadOk(c, i);
      }
    }
  }

  // ---------------------------------------------------------------- pins and dirty blocks

  /** What a step adds to the pins of head `i`: a get one, a release takes one away. */
  function Pins(c: Cache, s: Step, i: nat): int {
    match s
    case SGet(b, dirty) => if GetBlock(c, b, dirty).1 == Some(i) then 1 else 0
    case SQuit(k) => if k == i then -1 else 0
    case _ => 0
  }

  lemma PinsExactly(c: Cache, s: Step, i: nat)
    requires Enabled(c, s) && i < |c.heads|
    ensures |Next(c, s).heads| == |c.heads| && Next(c, s).heads[i].links == c.heads[i].links + Pins(c, s, i)
  {
    VictimIsFree(c.heads, c.lru);
  }

  function RunPins(c: Cache, steps: seq<Step>, i: nat): int
    decreases |steps|
  {
    if steps == [] || !Enabled(c, steps[0]) then 0 else Pins(c, steps[0], i) + RunPins(Next(c, steps[0]), steps[1..], i)
  }

  /** In every run, a head is pinned as often as it was handed out and not yet released. */
  lemma {:induction false} PinsBalance(c: Cache, steps: seq<Step>, c': Cache, i: nat)
    requires Run(c, steps, c') && i < |c.heads|
    ensures |c'.heads| == |c.heads| && c'.heads[i].links == c.heads[i].links + RunPins(c, steps, i)
    decreases |steps|
  {
    if steps != [] {
      PinsExactly(c, steps[0], i);
      PinsBalance(Next(c, steps[0]), steps[1..], c', i);
    }
  }

  /** `write_back` of a cached block brings its contents to the disk; the head is clean then, and stays cached and pinned. */
  lemma WriteBackStores(c: Cache, b: nat)
    requires Inv(c) && b != 0
    ensures var c' := WriteBack(c, b);
            && OnDisk(c', b) == Logical(c, b) && c'.index == c.index && c'.lru == c.lru
            && (b in c.index ==>
                  && c.index[b] < |c.heads| && c'.heads == c.heads[c.index[b] := c.heads[c.index[b]].(dirty := false)])
            && forall x :: x != b ==> OnDisk(c', x) == OnDisk(c, x)
  {
    if b in c.index {
      assert IndexOk(c, b) && HeadOk(c, c.index[b]);
    }
  }

  /** After `mark_dirty` a cached block that is in use can be changed. */
  lemma MarkedCanChange(c: Cache, b: nat, d: Data)
    requires Inv(c) && b in c.index
    ensures c.index[b] < |c.heads|
    ensures c.heads[c.index[b]].links > 0 ==> Enabled(MarkDirty(c, b), SModify(c.index[b], d))
  {
    assert IndexOk(c, b);
  }

  // ---------------------------------------------------------------- the least recently used head

  /** The number of the last step that got head `i`, counted from `n` on; `before` is that of an earlier one. */
  function LastUse(c: Cache, steps: seq<Step>, n: nat, i: nat, before: nat): nat
    decreases |steps|
  {
    if steps == [] || !Enabled(c, steps[0]) then before
    else LastUse(Next(c, steps[0]), steps[1..], n + 1, i, if Pins(c, steps[0], i) == 1 then n else before)
  }

  /** No number is in the list twice, and they are in the order of `times`. */
  ghost predicate InOrder(s: seq<nat>, times: map<nat, nat>) {
    && (forall p :: 0 <= p < |s| ==> s[p] in times)
    && (forall p, q :: 0 <= p < q < |s| ==> s[p] != s[q] && times[s[p]] <= times[s[q]])
  }

  /** The list contains exactly the heads. */
  ghost predicate Complete(s: seq<nat>, n: nat) {
    (forall i: nat :: i < n ==> i in s) && forall p :: 0 <= p < |s| ==> s[p] < n
  }

  ghost predicate Ordered(c: Cache, times: map<nat, nat>) {
    Complete(c.lru, |c.heads|) && InOrder(c.lru, times)
  }

  lemma {:induction false} RemoveIsCut(s: seq<nat>, i: nat) returns (k: nat)
    requires i in s
    ensures k < |s| && s[k] == i && Remove(s, i) == s[..k] + s[k + 1..]
    decreases |s|
  {
    if s[0] == i {
      k := 0;
    } else {
      k := RemoveIsCut(s[1..], i);
      assert s[1..][..k] == s[1..k + 1] && [s[0]] + s[1..k + 1] == s[..k + 1];
      k := k + 1;
    }
  }

  /** Where an element was before it or another one moved to the end. */
  lemma MoveToEndAt(s: seq<nat>, i: nat) returns (k: nat)
    requires i in s
    ensures k < |s| && s[k] == i && |MoveToEnd(s, i)| == |s|
    ensures forall p :: 0 <= p < |s| ==> MoveToEnd(s, i)[p] == s[if p < k then p else if p < |s| - 1 then p + 1 else k]
  {
    k := RemoveIsCut(s, i);
    assert MoveToEnd(s, i) == s[..k] + s[k + 1..] + [i];
  }

  lemma MoveKeepsOrder(s: seq<nat>, i: nat, times: map<nat, nat>, now: nat)
    requires InOrder(s, times) && i in s && forall k :: k in times ==> times[k] <= now
    ensures InOrder(MoveToEnd(s, i), times[i := now])
  {
    var k := MoveToEndAt(s, i);
  }

  lemma MoveKeepsComplete(s: seq<nat>, i: nat, n: nat)
    requires Complete(s, n) && i in s
    ensures Complete(MoveToEnd(s, i), n)
  {
    var k := MoveToEndAt(s, i);
    forall x: nat | x < n ensures x in MoveToEnd(s, i) {
      MoveKeepsMembers(s, i, x);
    }
  }

  /** The head that is used now moves to the end of the list. */
  lemma UseKeepsOrder(c: Cache, c': Cache, i: nat, times: map<nat, nat>, now: nat)
    requires Ordered(c, times) && i < |c.heads| && |c'.heads| == |c.heads| && c'.lru == MoveToEnd(c.lru, i)
    requires forall k :: k in times ==> times[k] <= now
    ensures Ordered(c', times[i := now])
  {
    MoveKeepsOrder(c.lru, i, times, now);
    MoveKeepsComplete(c.lru, i, |c.heads|);
  }

  /** One step of the cache, and of the times of the last use. */
  lemma StepKeepsOrder(c: Cache, s: Step, times: map<nat, nat>, now: nat)
    requires Inv(c) && Ordered(c, times) && Enabled(c, s) && forall k :: k in times ==> times[k] <= now
    ensures var i := if s.SGet? then GetBlock(c, s.b, s.dirty).1.value else 0;
            Ordered(Next(c, s), if s.SGet? then times[i := now] else times)
  {
    if s.SGet? {
      VictimIsFree(c.heads, c.lru);
      UseKeepsOrder(c, Next(c, s), GetBlock(c, s.b, s.dirty).1.value, times, now);
    }
  }

  lemma HeadsStay(c: Cache, s: Step)
    requires Enabled(c, s)
    ensures |Next(c, s).heads| == |c.heads|
  {
  }

  lemma {:induction false} RunKeepsOrder(c: Cache, steps: seq<Step>, c': Cache, times: map<nat, nat>, now: nat)
    returns (times': map<nat, nat>)
    requires Inv(c) && Ordered(c, times) && Run(c, steps, c') && forall k :: k in times ==> times[k] <= now
    requires forall i: nat :: i < |c.heads| ==> i in times
    ensures Ordered(c', times') && |c'.heads| == |c.heads|
    ensures forall i: nat :: i < |c.heads| ==> i in times' && times'[i] == LastUse(c, steps, now, i, times[i])
    decreases |steps|
  {
    if steps == [] {
      times' := times;
    } else {
      var s := steps[0];
      StepIsPlain(c, s);
      StepKeepsOrder(c, s, times, now);
      HeadsStay(c, s);
      var n := if s.SGet? then times[GetBlock(c, s.b, s.dirty).1.value := now] else times;
      times' := RunKeepsOrder(Next(c, s), steps[1..], c', n, now + 1);
    }
  }

  lemma {:induction false} VictimIsFirst(heads: seq<Head>, lru: seq<nat>) returns (p: nat)
    requires Victim(heads, lru).Some?
    ensures p < |lru| && lru[p] == Victim(heads, lru).value
    ensures forall q :: 0 <= q < p && lru[q] < |heads| ==> heads[lru[q]].links > 0
    decreases |lru|
  {
    if lru[0] < |heads| && heads[lru[0]].links == 0 {
      p := 0;
    } else {
      p := VictimIsFirst(heads, lru[1..]);
      p := p + 1;
    }
  }

  /**
   In every run from the empty cache, the head that is taken for another block is one that nobody uses, and among
   these the one whose last use is the longest time ago.
   */
  lemma VictimIsLeastRecentlyUsed(n: nat, disk: BlockMap, steps: seq<Step>, c: Cache, i: nat)
    requires Run(Init(n, disk), steps, c) && Victim(c.heads, c.lru).Some?
    requires i < n && i < |c.heads| && c.heads[i].links == 0
    ensures var v := Victim(c.heads, c.lru).value;
            && v < |c.heads| && c.heads[v].links == 0
            && LastUse(Init(n, disk), steps, 1, v, 0) <= LastUse(Init(n, disk), steps, 1, i, 0)
  {
    InitMatches(n, disk);
    var times := InitOrder(n, disk);
    var times' := RunKeepsOrder(Init(n, disk), steps, c, times, 1);
    VictimIsFree(c.heads, c.lru);
    var p := VictimIsFirst(c.heads, c.lru);
    assert i in c.lru;
    var q :| 0 <= q < |c.lru| && c.lru[q] == i;
    assert p <= q;
  }

  lemma InitOrder(n: nat, disk: BlockMap) returns (times: map<nat, nat>)
    ensures Ordered(Init(n, disk), times)
    ensures forall i: nat :: i < n ==> i in times
    ensures forall k :: k in times ==> times[k] == 0
  {
    var lru := Init(n, disk).lru;
    times := map k | k in lru :: 0;
    forall i: nat | i < n ensures i in lru {
      assert lru[i] == i;
    }
  }

  // ---------------------------------------------------------------- block 0

  /** A block that is not cached is loaded to be changed, gets new contents, and is released. */
  function Rewritten(c: Cache, b: nat, d: Data, i: nat): Cache
    requires GetBlock(c, b, true).1 == Some(i) && i < |c.heads| && b !in c.index
  {
    var c1 := GetBlock(c, b, true).0;
    Quit(Modify(c1, i, d), i)
  }

  /** Then another block is loaded into the same head. */
  ghost predicate Reuses(c: Cache, b: nat, d: Data, i: nat, b': nat) {
    && b !in c.index && i < |c.heads| && GetBlock(c, b, true).1 == Some(i)
    && var c1 := Rewritten(c, b, d, i);
    b' != 0 && b' !in c1.index && Victim(c1.heads, c1.lru) == Some(i)
  }

  lemma RewrittenIsSeen(c: Cache, b: nat, d: Data, i: nat)
    requires Inv(c) && b != 0 && b !in c.index && i < |c.heads| && GetBlock(c, b, true).1 == Some(i)
    ensures var c1 := Rewritten(c, b, d, i);
            Inv(c1) && Logical(c1, b) == d && c1.heads[i] == Head(b, true, 0, d)
  {
    GetKeeps(c, b, true);
    var c1 := GetBlock(c, b, true).0;
    var h := Head(b, true, 0, d);
    assert c1.heads[i].key == b && c1.heads[i].links == 1 && c1.heads[i].dirty;
    HeadChangeKeeps(c1, i, h);
    assert Rewritten(c, b, d, i) == c1.(heads := c1.heads[i := h]);
  }

  lemma OtherIsWrittenBack(c: Cache, b: nat, d: Data, i: nat, b': nat, dirty: bool)
    requires Inv(c) && b != 0 && Reuses(c, b, d, i, b')
    ensures var c' := GetBlock(Rewritten(c, b, d, i), b', dirty).0;
            Logical(c', b) == d && OnDisk(c', b) == d
  {
    RewrittenIsSeen(c, b, d, i);
    var c1 := Rewritten(c, b, d, i);
    assert b in c1.index by { assert HeadOk(c1, i); }
    LoadKeeps(c1, i, b', dirty);
  }

  lemma ZeroIsNotWrittenBack(c: Cache, d: Data, i: nat, b': nat, dirty: bool)
    requires Inv(c) && Reuses(c, 0, d, i, b')
    ensures var c' := GetBlock(Rewritten(c, 0, d, i), b', dirty).0;
            Logical(c', 0) == Logical(c, b') && OnDisk(c', 0) == OnDisk(c, 0)
  {
    assert HeadOk(c, i);
    assert b' in c.index ==> IndexOk(c, b');
    VictimIsFree(c.heads, c.lru);
    var c1 := Rewritten(c, 0, d, i);
    assert c1.disk == Evicted(c, i).disk && c1.heads[i] == Head(0, true, 0, d);
  }

  /**
   A head with key 0 counts as unused.  So a change is written back when its head is reused exactly if it was
   not made to block 0; this block then shows the contents of the other one.
   */
  lemma WrittenBackExactly(c: Cache, b: nat, d: Data, i: nat, b': nat, dirty: bool)
    requires Inv(c) && Reuses(c, b, d, i, b') && Logical(c, b') != d && OnDisk(c, b) != d
    ensures var c' := GetBlock(Rewritten(c, b, d, i), b', dirty).0;
            && (Logical(c', b) == d <==> b != 0)
            && (OnDisk(c', b) == d <==> b != 0)
  {
    if b == 0 {
      ZeroIsNotWrittenBack(c, d, i, b', dirty);
    } else {
      OtherIsWrittenBack(c, b, d, i, b', dirty);
    }
  }

  /** Block 0 in a cache with one head. */
  lemma BlockZeroIsLost(d: Data, e: Data)
    requires d != e && d != 0
    ensures var c := Init(1, map[1 := e]);
            Reuses(c, 0, d, 0, 1) && Logical(GetBlock(Rewritten(c, 0, d, 0), 1, false).0, 0) == e
  {
    var c := Init(1, map[1 := e]);
    assert c.lru == [0] && Victim(c.heads, c.lru) == Some(0);
    var c1 := Rewritten(c, 0, d, 0);
    assert c1.lru == [0] && c1.heads == [Head(0, true, 0, d)] && c1.index == map[0 := 0];
    assert Victim(c1.heads, c1.lru) == Some(0);
    InitMatches(1, map[1 := e]);
    ZeroIsNotWrittenBack(c, d, 0, 1, false);
  }
}

module MetaBuffer {
  import opened Options
  import opened MetaBufferSpec
  import opened MetaBufferProofs

  class MetaBuffer {
    var heads: seq<Head>
    var index: map<nat, nat>
    var lru: seq<nat>
    var disk: map<nat, Data>

    function State(): Cache
      reads this
    {
      Cache(heads, index, lru, disk)
    }

    constructor (n: nat, disk: map<nat, Data>)
      ensures State() == Init(n, disk) && Inv(State())
    {
      InitMatches(n, disk);
      heads, index := seq(n, _ => Head(0, false, 0, 0)), map[];
      lru := seq(n, i requires 0 <= i => i);
      this.disk := disk;
    }

    method FlushChunk(i: nat)
      requires i < |heads|
      modifies this
      ensures State() == MetaBufferSpec.FlushChunk(old(State()), i)
    {
      disk := disk[heads[i].key := heads[i].data];
      heads := heads[i := heads[i].(dirty := false)];
    }

    /** The search for the first head that is not in use. */
    method FindVictim() returns (i: Option<nat>)
      ensures i == Victim(heads, lru)
    {
      var k := 0;
      while k < |lru|
        invariant 0 <= k <= |lru| && Victim(heads, lru[k..]) == Victim(heads, lru)
      {
        if lru[k] < |heads| && heads[lru[k]].links == 0 {
          return Some(lru[k]);
        }
        assert lru[k..][1..] == lru[k + 1..];
        k := k + 1;
      }
      return None;
    }

    /** Writes back what the head holds and loads another block into it. */
    method Load(i: nat, b: nat, dirty: bool)
      requires i < |heads|
      modifies this
      ensures State() == Loaded(Evicted(old(State()), i), i, b, dirty)
    {
      if heads[i].key != 0 {
        index := index - {heads[i].key};
        if heads[i].dirty {
          FlushChunk(i);
        }
      }
      index := index[b := i];
      heads := heads[i := Head(b, dirty, 1, OnDisk(State(), b))];
      lru := MoveToEnd(lru, i);
    }

    /** `get_block`; None stands for the null pointer that the source follows if all heads are in use. */
    method GetBlock(b: nat, dirty: bool) returns (i: Option<nat>)
      modifies this
      ensures (State(), i) == MetaBufferSpec.GetBlock(old(State()), b, dirty)
      ensures Inv(old(State())) && Enabled(old(State()), SGet(b, dirty)) ==>
                && Inv(State()) && i.Some? && i.value < |heads| && heads[i.value].data == Logical(old(State()), b)
                && forall x :: Logical(State(), x) == Logical(old(State()), x)
    {
      if Inv(State()) && Enabled(State(), SGet(b, dirty)) {
        GetKeeps(State(), b, dirty);
      }
      if b in index && index[b] < |heads| {
        var k := index[b];
        lru := MoveToEnd(lru, k);
        heads := heads[k := heads[k].(links := heads[k].links + 1, dirty := heads[k].dirty || dirty)];
        return Some(k);
      }
      VictimIsFree(heads, lru);
      i := FindVictim();
      if i.Some? {
        Load(i.value, b, dirty);
      }
    }

    /** `quit`. */
    method Quit(i: nat)
      requires i < |heads| && heads[i].links > 0
      modifies this
      ensures State() == MetaBufferSpec.Quit(old(State()), i)
      ensures Inv(old(State())) ==> Inv(State())
    {
      if Inv(State()) {
        StepIsPlain(State(), SQuit(i));
      }
      heads := heads[i := heads[i].(links := heads[i].links - 1)];
    }

    method WriteBack(b: nat)
      requires Inv(State())
      modifies this
      ensures State() == MetaBufferSpec.WriteBack(old(State()), b)
      ensures Inv(State()) && forall x :: Logical(State(), x) == Logical(old(State()), x)
      ensures b != 0 ==> OnDisk(State(), b) == Logical(old(State()), b)
    {
      if b != 0 {
        WriteBackStores(State(), b);
      }
      if b in index {
        assert IndexOk(State(), b);
        FlushKeeps(State(), index[b]);
        if heads[index[b]].dirty {
          FlushChunk(index[b]);
        }
      }
    }

    /** `flush`, the last operation: afterwards the disk contains everything. */
    method Flush()
      requires Inv(State())
      modifies this
      ensures index == map[] && forall b :: b != 0 ==> OnDisk(State(), b) == Logical(old(State()), b)
    {
      ghost var c := State();
      FlushStart(c);
      while index.Keys != {}
        invariant Flushing(c, State())
        decreases index.Keys
      {
        var b :| b in index.Keys;
        var i := index[b];
        FlushStep(c, State(), b);
        index := index - {b};
        if heads[i].dirty {
          FlushChunk(i);
        }
      }
    }
  }

  /** While flushing: a block is still in the index, or the disk has its contents. */
  ghost predicate Flushing(c: Cache, d: Cache) {
    && |d.heads| == |c.heads|
    && (forall b :: b in d.index ==> b in c.index && d.index[b] == c.index[b])
    && (forall b :: b in d.index ==> d.index[b] < |d.heads| && d.heads[d.index[b]] == c.heads[c.index[b]] && d.heads[d.index[b]].key == b)
    && (forall b :: b in d.index && !d.heads[d.index[b]].dirty ==> OnDisk(d, b) == d.heads[d.index[b]].data)
    && (forall b :: b != 0 && b !in d.index ==> OnDisk(d, b) == Logical(c, b))
  }

  lemma FlushStart(c: Cache)
    requires Inv(c)
    ensures Flushing(c, c)
  {
    forall b | b in c.index ensures IndexOk(c, b) && HeadOk(c, c.index[b]) {
      assert IndexOk(c, b);
    }
  }

  lemma FlushStep(c: Cache, d: Cache, b: nat)
    requires Flushing(c, d) && b in d.index
    ensures Flushing(c, Flushed(d.(index := d.index - {b}), d.index[b]))
  {
    assert Logical(c, b) == c.heads[c.index[b]].data;
  }
}
