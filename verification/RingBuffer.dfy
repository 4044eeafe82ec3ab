/**
 The variable-size ring buffer of the pipe server (`VarRingBuf`).

 The buffer hands out a write window with `get_write_pos` and settles it later with `push`;
 it hands out a read window with `get_read_pos` and settles it with `pull`.  In between, the
 other side may move.  `push` does not remember what was granted: it recomputes the branch from
 the current positions.  The lemmas of this module show that the recomputation always agrees with
 the grant, and that the buffer therefore is a byte FIFO.
 */
module Options {
  datatype Option<+T> = None | Some(value: T)
}

module RingSpec {
  import opened Options

  /** The packet size of the DTU: the writer starts at a multiple of it. */
  const PKG: nat := 8

  /** The number of values of `size_t`; its subtraction wraps around here. */
  const WORD: nat := 0x1_0000_0000_0000_0000

  /** What a byte of the shared memory holds; the pipe never looks at it. */
  type Byte = int

  datatype Ring = Ring(size: nat, rd: nat, wr: nat, last: nat)

  /** Subtraction of `size_t` values. */
  function Minus(a: nat, b: nat): nat {
    if b <= a then a - b else (a - b) % WORD
  }

  function RoundUp(n: nat): nat {
    (n + PKG - 1) / PKG * PKG
  }

  function Init(size: nat): Ring {
    Ring(size, 0, 0, size)
  }

  predicate Empty(r: Ring) {
    r.rd == r.wr
  }

  // ---------------------------------------------------------------- operations

  /** The window that the current positions offer for a write of `n` bytes. */
  function Slot(r: Ring, n: nat): Option<nat> {
    if r.wr >= r.rd then
      if Minus(r.size, r.wr) >= n then Some(r.wr)
      else if r.rd > n then Some(0)
      else None
    else if r.rd - r.wr > n then Some(r.wr)
    else None
  }

  /** The positions after the rounding step of `get_write_pos`; None if it has to refuse. */
  function Aligned(r: Ring): Option<Ring> {
    if r.wr % PKG == 0 then Some(r)
    else if !Empty(r) then None
    else Some(r.(wr := RoundUp(r.wr), rd := RoundUp(r.wr)))
  }

  function GetWritePos(r: Ring, n: nat): (Ring, Option<nat>) {
    match Aligned(r)
    case None => (r, None)
    case Some(a) => (a, Slot(a, n))
  }

  function ReadPos(r: Ring): nat {
    if r.rd == r.last then 0 else r.rd
  }

  /** The number of bytes that can be read in one piece. */
  function Contiguous(r: Ring): nat {
    var rpos := ReadPos(r);
    if r.wr > rpos then r.wr - rpos else Minus(if r.size < r.last then r.size else r.last, rpos)
  }

  function GetReadPos(r: Ring, want: nat): Option<(nat, nat)> {
    if Empty(r) then None
    else Some((ReadPos(r), if Contiguous(r) < want then Contiguous(r) else want))
  }

  /** `push(req, size)`: commits `k` bytes of a window that was requested with `req` bytes. */
  function Push(r: Ring, req: nat, k: nat): Ring {
    if r.wr >= r.rd then
      if Minus(r.size, r.wr) >= req then r.(wr := r.wr + k)
      else if r.rd > req && k > 0 then r.(last := r.wr, wr := k)
      else r
    else if r.rd - r.wr > req then r.(wr := r.wr + k)
    else r
  }

  function Pull(r: Ring, k: nat): Ring {
    if r.rd == r.last then r.(rd := k, last := r.size) else r.(rd := r.rd + k)
  }

  // ---------------------------------------------------------------- invariant

  /** Either the unread bytes are one piece, or the writer has wrapped around and stays strictly behind. */
  ghost predicate Inv(r: Ring) {
    && r.size < WORD && r.size % PKG == 0
    && (|| (r.rd <= r.wr <= r.size && r.last == r.size)
        || (0 < r.wr < r.rd <= r.last <= r.size))
  }

  /** The bytes that were committed, but not yet pulled, in the order of the commits. */
  ghost function Unread(r: Ring, mem: seq<Byte>): seq<Byte>
    requires Inv(r) && |mem| == r.size
  {
    if r.rd <= r.wr then mem[r.rd..r.wr] else mem[r.rd..r.last] + mem[..r.wr]
  }

  /** `i` is a position that holds an unread byte. */
  ghost predicate IsUnread(r: Ring, i: int) {
    if r.rd <= r.wr then r.rd <= i < r.wr else r.rd <= i < r.last || 0 <= i < r.wr
  }

  /** A full buffer never looks empty. */
  lemma EmptyIffNothingUnread(r: Ring, mem: seq<Byte>)
    requires Inv(r) && |mem| == r.size
    ensures Empty(r) <==> Unread(r, mem) == []
    ensures Empty(r) <==> forall i :: !IsUnread(r, i)
  {
    if !Empty(r) && r.rd < r.wr {
      assert IsUnread(r, r.rd);
    } else if !Empty(r) {
      assert IsUnread(r, 0);
    }
  }

  /** Rounding up does not touch any unread byte, because it only happens in an empty buffer. */
  lemma AlignKeeps(r: Ring, mem: seq<Byte>)
    requires Inv(r) && |mem| == r.size && Aligned(r).Some?
    ensures Inv(Aligned(r).value) && Aligned(r).value.size == r.size && Aligned(r).value.wr % PKG == 0
    ensures Unread(Aligned(r).value, mem) == Unread(r, mem)
    ensures !Empty(r) ==> Aligned(r).value == r
  {
  }

  /** A granted window lies in the buffer and has no byte in common with the unread ones. */
  lemma SlotIsFree(r: Ring, n: nat, i: int)
    requires Inv(r) && Slot(r, n).Some?
    ensures Slot(r, n).value + n <= r.size
    ensures Slot(r, n).value <= i < Slot(r, n).value + n ==> !IsUnread(r, i)
  {
  }

  // ---------------------------------------------------------------- grant stability

  /** A pull does not change the window that is offered to the writer, also if the reader wraps. */
  lemma PullKeepsSlot(r: Ring, n: nat, k: nat)
    requires Inv(r) && !Empty(r) && k <= Contiguous(r)
    requires Slot(r, n).Some?
    ensures Inv(Pull(r, k))
    ensures Slot(Pull(r, k), n) == Slot(r, n)
    ensures Pull(r, k).wr == r.wr && Pull(r, k).size == r.size
  {
  }

  /** Every pull takes no more than what is readable in one piece at that time. */
  ghost predicate Pulls(r: Ring, ks: seq<nat>)
    decreases |ks|
  {
    ks == [] || (!Empty(r) && ks[0] <= Contiguous(r) && Pulls(Pull(r, ks[0]), ks[1..]))
  }

  function PullAll(r: Ring, ks: seq<nat>): Ring
    decreases |ks|
  {
    if ks == [] then r else PullAll(Pull(r, ks[0]), ks[1..])
  }

  lemma {:induction false} PullsKeepSlot(r: Ring, n: nat, ks: seq<nat>)
    requires Inv(r) && Pulls(r, ks) && Slot(r, n).Some?
    ensures Inv(PullAll(r, ks)) && Slot(PullAll(r, ks), n) == Slot(r, n)
    ensures PullAll(r, ks).wr == r.wr && PullAll(r, ks).size == r.size
    decreases |ks|
  {
    if ks != [] {
      PullKeepsSlot(r, n, ks[0]);
      PullsKeepSlot(Pull(r, ks[0]), n, ks[1..]);
    }
  }

  /** How many bytes are free behind the position that a request for `n` bytes gets. */
  function Room(r: Ring, n: nat): int {
    if r.wr < r.rd then r.rd - r.wr - 1
    else if Minus(r.size, r.wr) >= n then Minus(r.size, r.wr)
    else r.rd - 1
  }

  lemma PushWithin(r: Ring, mem: seq<Byte>, n: nat, k: nat)
    requires Inv(r) && |mem| == r.size && Slot(r, n).Some? && k <= Room(r, n)
    ensures Slot(r, n).value + k <= |mem| && Inv(Push(r, n, k))
    ensures Unread(Push(r, n, k), mem) == Unread(r, mem) + mem[Slot(r, n).value..Slot(r, n).value + k]
  {
    var at := Slot(r, n).value;
    if r.wr < r.rd {
      assert mem[..r.wr] + mem[r.wr..r.wr + k] == mem[..r.wr + k];
      assert mem[r.rd..r.last] + (mem[..r.wr] + mem[at..at + k]) == Unread(r, mem) + mem[at..at + k];
    } else if r.size - r.wr >= n {
      assert mem[r.rd..r.wr] + mem[r.wr..r.wr + k] == mem[r.rd..r.wr + k];
    } else {
      assert mem[0..k] == mem[..k];
    }
  }

  /** A push of `k` bytes appends exactly the bytes at the window that the positions offer. */
  lemma PushAppends(r: Ring, mem: seq<Byte>, n: nat, k: nat)
    requires Inv(r) && |mem| == r.size && Slot(r, n).Some? && k <= n
    ensures Slot(r, n).value + n <= |mem|
    ensures Inv(Push(r, n, k))
    ensures Unread(Push(r, n, k), mem) == Unread(r, mem) + mem[Slot(r, n).value..Slot(r, n).value + k]
  {
    PushWithin(r, mem, n, k);
  }

  /**
   Grant stability: whatever pulls happen between a successful `get_write_pos(n)` and `push(n, k)`,
   the push commits exactly the bytes at the granted position.
   */
  lemma GrantStability(r: Ring, mem: seq<Byte>, n: nat, ks: seq<nat>, k: nat)
    requires Inv(r) && |mem| == r.size && k <= n
    requires GetWritePos(r, n).1.Some?
    requires Pulls(GetWritePos(r, n).0, ks)
    ensures var (a, g) := GetWritePos(r, n);
            var b := PullAll(a, ks);
            && g.value + n <= |mem|
            && Inv(b) && b.size == |mem| && Inv(Push(b, n, k))
            && b.wr % PKG == 0
            && Unread(Push(b, n, k), mem) == Unread(b, mem) + mem[g.value..g.value + k]
  {
    var (a, g) := GetWritePos(r, n);
    AlignKeeps(r, mem);
    PullsKeepSlot(a, n, ks);
    PushAppends(PullAll(a, ks), mem, n, k);
  }

  /** Writing into the granted window leaves the unread bytes alone. */
  lemma StoreKeepsUnread(r: Ring, mem: seq<Byte>, mem': seq<Byte>, n: nat)
    requires Inv(r) && |mem| == |mem'| == r.size && Slot(r, n).Some?
    requires forall i :: 0 <= i < |mem| && mem[i] != mem'[i] ==> Slot(r, n).value <= i < Slot(r, n).value + n
    ensures Unread(r, mem') == Unread(r, mem)
  {
    forall i | 0 <= i < |mem| && IsUnread(r, i) ensures mem[i] == mem'[i] {
      SlotIsFree(r, n, i);
    }
  }

  // ---------------------------------------------------------------- the reader's window

  /** The read window shows the next unread bytes, and is not empty if something was asked for. */
  lemma ReadWindow(r: Ring, mem: seq<Byte>)
    requires Inv(r) && |mem| == r.size && !Empty(r)
    ensures 0 < Contiguous(r) <= |Unread(r, mem)|
    ensures ReadPos(r) + Contiguous(r) <= |mem|
    ensures mem[ReadPos(r)..ReadPos(r) + Contiguous(r)] == Unread(r, mem)[..Contiguous(r)]
  {
  }

  lemma PullDrops(r: Ring, mem: seq<Byte>, k: nat)
    requires Inv(r) && |mem| == r.size && !Empty(r) && k <= Contiguous(r)
    ensures Inv(Pull(r, k)) && Pull(r, k).size == r.size
    ensures k <= |Unread(r, mem)| && ReadPos(r) + k <= |mem|
    ensures Unread(Pull(r, k), mem) == Unread(r, mem)[k..]
    ensures mem[ReadPos(r)..ReadPos(r) + k] == Unread(r, mem)[..k]
  {
    PullInv(r, k);
    PullUnread(r, mem, k);
    PullTaken(r, mem, k);
  }

  lemma PullInv(r: Ring, k: nat)
    requires Inv(r) && !Empty(r) && k <= Contiguous(r)
    ensures Inv(Pull(r, k)) && Pull(r, k).size == r.size
  {
  }

  lemma PullTaken(r: Ring, mem: seq<Byte>, k: nat)
    requires Inv(r) && |mem| == r.size && !Empty(r) && k <= Contiguous(r)
    ensures k <= |Unread(r, mem)| && ReadPos(r) + k <= |mem|
    ensures mem[ReadPos(r)..ReadPos(r) + k] == Unread(r, mem)[..k]
  {
    if r.rd < r.wr {
      assert mem[r.rd..r.wr][..k] == mem[r.rd..r.rd + k];
    } else if r.rd < r.last {
      assert (mem[r.rd..r.last] + mem[..r.wr])[..k] == mem[r.rd..r.last][..k] == mem[r.rd..r.rd + k];
    } else {
      assert mem[r.rd..r.last] + mem[..r.wr] == mem[..r.wr];
    }
  }

  lemma PullUnread(r: Ring, mem: seq<Byte>, k: nat)
    requires Inv(r) && |mem| == r.size && !Empty(r) && k <= Contiguous(r)
    ensures Inv(Pull(r, k)) && k <= |Unread(r, mem)|
    ensures Unread(Pull(r, k), mem) == Unread(r, mem)[k..]
  {
    if r.rd < r.wr {
      assert mem[r.rd..r.wr][k..] == mem[r.rd + k..r.wr];
    } else if r.rd < r.last {
      assert (mem[r.rd..r.last] + mem[..r.wr])[k..] == mem[r.rd + k..r.last] + mem[..r.wr];
    } else {
      assert mem[r.rd..r.last] + mem[..r.wr] == mem[..r.wr];
      assert mem[..r.wr][k..] == mem[k..r.wr];
    }
  }

  lemma PullBeyond(r: Ring, mem: seq<Byte>, k: nat)
    requires Inv(r) && |mem| == r.size && !Empty(r) && k > Contiguous(r)
    ensures !Inv(Pull(r, k)) || k > |Unread(r, mem)|
  {
  }

  /**
   A pull drops exactly its oldest bytes if and only if it does not exceed the bytes that can be read in one
   piece; the amount is not checked.
   */
  lemma PullExactly(r: Ring, mem: seq<Byte>, k: nat)
    requires Inv(r) && |mem| == r.size && !Empty(r)
    ensures k <= Contiguous(r) <==>
              Inv(Pull(r, k)) && k <= |Unread(r, mem)| && Unread(Pull(r, k), mem) == Unread(r, mem)[k..]
  {
    if k <= Contiguous(r) {
      PullDrops(r, mem, k);
    } else {
      PullBeyond(r, mem, k);
    }
  }

  /** The reader keeps its position and at least its amount, whatever the writer commits meanwhile. */
  lemma PushKeepsReadWindow(r: Ring, n: nat, k: nat)
    requires Inv(r) && !Empty(r) && Slot(r, n).Some? && k <= n
    ensures !Empty(Push(r, n, k))
    ensures ReadPos(Push(r, n, k)) == ReadPos(r) && Contiguous(r) <= Contiguous(Push(r, n, k))
  {
  }

  lemma PushBeyond(r: Ring, mem: seq<Byte>, n: nat, k: nat)
    requires Inv(r) && |mem| == r.size && Slot(r, n).Some? && k > Room(r, n)
    ensures !Inv(Push(r, n, k)) || |Unread(Push(r, n, k), mem)| < |Unread(r, mem)| + k
  {
  }

  /** A commit appends what was written exactly if it does not exceed this; the amount is not checked. */
  lemma PushExactly(r: Ring, mem: seq<Byte>, n: nat, k: nat)
    requires Inv(r) && |mem| == r.size && Slot(r, n).Some?
    ensures n <= Room(r, n)
    ensures k <= Room(r, n) <==>
              && Slot(r, n).value + k <= |mem| && Inv(Push(r, n, k))
              && Unread(Push(r, n, k), mem) == Unread(r, mem) + mem[Slot(r, n).value..Slot(r, n).value + k]
  {
    if k <= Room(r, n) {
      PushWithin(r, mem, n, k);
    } else {
      PushBeyond(r, mem, n, k);
    }
  }

  // ---------------------------------------------------------------- progress

  /** An empty buffer accepts every request of at most half its size, wherever its positions are. */
  lemma EmptyAccepts(r: Ring, n: nat)
    requires Inv(r) && Empty(r) && 2 * n <= r.size
    ensures GetWritePos(r, n).1.Some?
  {
  }

  /** For requests in whole packets, one half is the exact bound. */
  lemma EmptyAcceptsExactly(size: nat, n: nat)
    requires size < WORD && size % PKG == 0 && n % PKG == 0
    ensures 2 * n <= size
       <==> forall p | 0 <= p <= size :: Inv(Ring(size, p, p, size)) && GetWritePos(Ring(size, p, p, size), n).1.Some?
  {
    if 2 * n <= size {
      forall p | 0 <= p <= size
        ensures Inv(Ring(size, p, p, size)) && GetWritePos(Ring(size, p, p, size), n).1.Some?
      {
        EmptyAccepts(Ring(size, p, p, size), n);
      }
    } else {
      var p := if n <= size then n else size;
      assert Slot(Ring(size, p, p, size), n) == None;
      assert GetWritePos(Ring(size, p, p, size), n).1 == None;
    }
  }

  /**
   A request for `n` bytes fits: at the end of the buffer, or at its beginning if the reader is far enough away, so that
   a full buffer does not look empty.  Only an empty buffer can be aligned first.
   */
  ghost predicate Offers(r: Ring, n: nat) {
    if r.rd == r.wr then
      exists w :: r.wr <= w < r.wr + PKG && w % PKG == 0 && (w + n <= r.size || n < w)
    else
      r.wr % PKG == 0 && if r.rd < r.wr then r.wr + n <= r.size || n < r.rd else r.wr + n < r.rd
  }

  /** `get_write_pos` grants exactly the requests that fit, at the place where they do. */
  lemma GrantExactly(r: Ring, n: nat)
    requires Inv(r)
    ensures var (r', at) := GetWritePos(r, n);
            && (at.Some? <==> Offers(r, n))
            && (at.Some? ==> at.value == r'.wr || (at.value == 0 && r'.wr + n > r'.size))
  {
    RoundUpFacts(r.wr);
    if r.rd == r.wr {
      var w := RoundUp(r.wr);
      assert r.wr <= w < r.wr + PKG && w % PKG == 0;
    }
  }

  /** A reader gets a window exactly if something is unread, and as much as it wants or as there is in one piece. */
  lemma ReadGrantExactly(r: Ring, mem: seq<Byte>, want: nat)
    requires Inv(r) && |mem| == r.size
    ensures GetReadPos(r, want).Some? <==> Unread(r, mem) != []
    ensures GetReadPos(r, want).Some? ==>
              var (at, len) := GetReadPos(r, want).value;
              && at + len <= |mem| && mem[at..at + len] == Unread(r, mem)[..len]
              && len <= want && len <= Contiguous(r) && (len == want || len == Contiguous(r))
  {
    EmptyIffNothingUnread(r, mem);
    if !Empty(r) {
      ReadWindow(r, mem);
      var (at, len) := GetReadPos(r, want).value;
      assert mem[at..at + Contiguous(r)][..len] == mem[at..at + len];
    }
  }

  /** Without a window that would be offered, a push changes nothing. */
  lemma PushNeedsWindow(r: Ring, n: nat, k: nat)
    requires Slot(r, n).None?
    ensures Push(r, n, k) == r
  {
  }

  // ---------------------------------------------------------------- the size of the buffer

  /** The constructor's assertion `(size & DTU_PKG_SIZE) == 0`: it looks at bit 3 only. */
  predicate ConstructorAccepts(size: nat) {
    size / PKG % 2 == 0
  }

  /** Fill the buffer, read everything, ask for one more byte. */
  function FillDrainAsk(size: nat): Option<nat>
    requires size + PKG < WORD
  {
    var full := Push(Init(size), size, size);
    var drained := Pull(full, size);
    GetWritePos(drained, 1).1
  }

  lemma RoundUpFacts(n: nat)
    ensures n % PKG == 0 ==> RoundUp(n) == n
    ensures n % PKG != 0 ==> n < RoundUp(n) < n + PKG
  {
  }

  lemma MinusWraps(a: nat, b: nat)
    requires a < b < a + WORD
    ensures Minus(a, b) == a + WORD - b
  {
  }

  /** With a multiple of the packet size, the position after the buffer was drained at its end is still inside. */
  lemma WholePacketsStayInside(size: nat)
    requires 0 < size && size + PKG < WORD && size % PKG == 0
    ensures Inv(Init(size)) && FillDrainAsk(size) == Some(0)
  {
    assert Pull(Push(Init(size), size, size), size) == Ring(size, size, size, size);
  }

  /**
   For every other size, also for the ones that pass the assertion of the constructor, rounding the write
   position up leaves the buffer and the next grant lies behind its end.
   */
  lemma OtherSizesGrantOutside(size: nat)
    requires 0 < size && size + PKG < WORD && size % PKG != 0
    ensures !Inv(Init(size)) && FillDrainAsk(size).Some? && FillDrainAsk(size).value > size
  {
    assert Pull(Push(Init(size), size, size), size) == Ring(size, size, size, size);
    RoundUpFacts(size);
    MinusWraps(size, RoundUp(size));
  }

  /** Such sizes exist. */
  lemma ConstructorAcceptsFour()
    ensures ConstructorAccepts(4) && 4 % PKG != 0
  {
  }
}

module RingBuffer {
  import opened Options
  import Spec = RingSpec

  class VarRingBuf {
    const size: nat
    var rdpos: nat
    var wrpos: nat
    var last: nat

    function State(): Spec.Ring
      reads this
    {
      Spec.Ring(size, rdpos, wrpos, last)
    }

    constructor (size: nat)
      ensures State() == Spec.Init(size)
    {
      this.size := size;
      rdpos, wrpos, last := 0, 0, size;
    }

    method GetWritePos(n: nat) returns (pos: Option<nat>)
      modifies this
      ensures (State(), pos) == Spec.GetWritePos(old(State()), n)
    {
      if wrpos % Spec.PKG != 0 {
        if rdpos != wrpos {
          return None;
        }
        wrpos := Spec.RoundUp(wrpos);
        rdpos := wrpos;
      }
      if wrpos >= rdpos {
        if Spec.Minus(size, wrpos) >= n {
          return Some(wrpos);
        } else if rdpos > n {
          return Some(0);
        }
      } else if rdpos - wrpos > n {
        return Some(wrpos);
      }
      return None;
    }

    method GetReadPos(want: nat) returns (window: Option<(nat, nat)>)
      ensures window == Spec.GetReadPos(State(), want)
    {
      if wrpos == rdpos {
        return None;
      }
      var rpos := rdpos;
      if rpos == last {
        rpos := 0;
      }
      var amount;
      if wrpos > rpos {
        amount := wrpos - rpos;
      } else {
        amount := Spec.Minus(if size < last then size else last, rpos);
      }
      return Some((rpos, if amount < want then amount else want));
    }

    method Push(req: nat, k: nat)
      requires wrpos % Spec.PKG == 0
      modifies this
      ensures State() == Spec.Push(old(State()), req, k)
    {
      if wrpos >= rdpos {
        if Spec.Minus(size, wrpos) >= req {
          wrpos := wrpos + k;
        } else if rdpos > req && k > 0 {
          last := wrpos;
          wrpos := k;
        }
      } else if rdpos - wrpos > req {
        wrpos := wrpos + k;
      }
    }

    method Pull(k: nat)
      requires !Spec.Empty(State())
      modifies this
      ensures State() == Spec.Pull(old(State()), k)
    {
      if rdpos == last {
        rdpos := 0;
        last := size;
      }
      rdpos := rdpos + k;
    }
  }
}
