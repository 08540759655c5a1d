/** src/atfile.c: readlinkat_malloc and its caller, with the buffers they own. */
module Readlink {
  import opened Bytes

  const INT_MAX := 0x7FFF_FFFF

  /** What one turn of the loop meets: no memory, a failing readlinkat, or the link's
      target as it is at that moment. */
  datatype Turn = NoMemory | Failure | Link(target: seq<byte>)

  /** The C heap, as far as blocks of caml_stat_* go: which are allocated. A block is
      freed at most once because freeing requires it to be there. */
  class Heap {
    var live: set<nat>
    var next: nat

    ghost predicate Valid()
      reads this
    {
      forall b | b in live :: b < next
    }

    constructor ()
      ensures Valid() && live == {}
    {
      live, next := {}, 0;
    }

    method Alloc() returns (b: nat)
      requires Valid()
      modifies this
      ensures Valid() && b !in old(live) && live == old(live) + {b}
    {
      b := next;
      next := next + 1;
      live := live + {b};
    }

    method Free(b: nat)
      requires Valid() && b in live
      modifies this`live
      ensures Valid() && live == old(live) - {b}
    {
      live := live - {b};
    }

    /** caml_stat_resize_noexc: a new block in place of the old one, or none and the old
        one is left alone. */
    method Resize(b: Block, ok: bool) returns (r: Block)
      requires Valid() && (b.Block? ==> b.id in live)
      modifies this
      ensures Valid()
      ensures !ok ==> r == Null && live == old(live)
      ensures ok ==> r.Block? && r.id !in old(live) && live == old(live) - Owned(b) + {r.id}
    {
      if !ok { return Null; }
      var n := Alloc();
      if b.Block? { Free(b.id); }
      return Block(n);
    }
  }

  datatype Block = Null | Block(id: nat)

  function Owned(b: Block): set<nat> {
    if b.Block? then {b.id} else {}
  }

  // ---- The loop, from the outside ------------------------------------------------------------

  /** A buffer of `size` bytes holding the target and its terminator, a failure, the
      doubling of `size` past INT_MAX, or still running. */
  datatype Outcome = Found(size: nat, target: seq<byte>) | Failed | Overflows | Running

  function Run(size: nat, turns: seq<Turn>): Outcome
    decreases |turns|
  {
    if turns == [] then Running
    else match turns[0]
      case NoMemory => Failed
      case Failure => Failed
      case Link(target) =>
        if |target| < size then Found(size, target)
        else if 2 * size > INT_MAX then Overflows
        else Run(2 * size, turns[1..])
  }

  // ---- How it ends -----------------------------------------------------------------------------

  function Doubled(k: nat): nat {
    if k == 0 then 100 else 2 * Doubled(k - 1)
  }

  lemma {:induction false} DoubledPositive(k: nat)
    ensures Doubled(k) >= 100
  {
    if k > 0 {
      DoubledPositive(k - 1);
    }
  }

  lemma {:induction false} DoubledMonotone(j: nat, k: nat)
    requires j <= k
    ensures Doubled(j) <= Doubled(k)
    decreases k - j
  {
    if j < k {
      DoubledMonotone(j + 1, k);
    }
  }

  lemma Doubled24()
    ensures Doubled(24) == 1677721600 && Doubled(25) == 3355443200
  {
    assert Doubled(4) == 1600;
    assert Doubled(8) == 25600;
    assert Doubled(12) == 409600;
    assert Doubled(16) == 6553600;
    assert Doubled(20) == 104857600;
  }

  /** The link fills the buffer of turn k. */
  predicate Fills(turn: Turn, k: nat) {
    turn.Link? && |turn.target| >= Doubled(k)
  }

  /** Turn i is the first in which the link does not fill the buffer. */
  predicate FullUntil(turns: seq<Turn>, i: nat) {
    && i <= |turns|
    && (forall k :: 0 <= k < i ==> Fills(turns[k], k))
    && (i < |turns| ==> !Fills(turns[i], i))
  }

  /** How readlinkat_malloc ends: by what it meets in turn i, if the buffer size can be
      doubled that often, up to 100 * 2^24. */
  ghost predicate EndsIn(turns: seq<Turn>, i: nat, o: Outcome) {
    if i > 24 then o == Overflows
    else if i >= |turns| then o == Running
    else
      match turns[i]
      case NoMemory => o == Failed
      case Failure => o == Failed
      case Link(target) => o == Found(Doubled(i), target)
  }

  /** There is such a turn, or the turns run out first, at their end. */
  lemma FullUntilSome(turns: seq<Turn>) returns (i: nat)
    ensures FullUntil(turns, i)
  {
    i := 0;
    while i < |turns| && Fills(turns[i], i)
      invariant i <= |turns| && forall k :: 0 <= k < i ==> Fills(turns[k], k)
    {
      i := i + 1;
    }
  }

  lemma {:induction false} RunFrom(j: nat, turns: seq<Turn>, i: nat)
    requires Doubled(j) <= INT_MAX && i <= |turns|
    requires forall k :: 0 <= k < i ==> Fills(turns[k], j + k)
    requires i < |turns| ==> !Fills(turns[i], j + i)
    ensures Run(Doubled(j), turns)
      == if Doubled(j + i) > INT_MAX then Overflows
         else if i == |turns| then Running
         else if turns[i].Link? then Found(Doubled(j + i), turns[i].target)
         else Failed
    decreases i
  {
    if i > 0 {
      assert Fills(turns[0], j + 0);
      if Doubled(j + 1) > INT_MAX {
        DoubledMonotone(j + 1, j + i);
      } else {
        forall k | 0 <= k < i - 1 ensures Fills(turns[1..][k], j + 1 + k) {
          assert Fills(turns[k + 1], j + (k + 1));
        }
        RunFrom(j + 1, turns[1..], i - 1);
      }
    }
  }

  /** The ending of a run, from its turns. */
  lemma RunEndsIn(turns: seq<Turn>, i: nat)
    requires FullUntil(turns, i)
    ensures EndsIn(turns, i, Run(100, turns))
  {
    hide Run;
    assert Doubled(0) == 100;
    forall k | 0 <= k < i ensures Fills(turns[k], 0 + k) {
    }
    RunFrom(0, turns, i);
    Doubled24();
    if i <= 24 { DoubledMonotone(i, 24); } else { DoubledMonotone(25, i); }
  }

  /**
   * readlinkat_malloc. On success the caller owns exactly the returned buffer; on
   * failure nothing is left behind.
   */
  method ReadlinkatMalloc(heap: Heap, turns: seq<Turn>) returns (o: Outcome, buffer: Block, data: array<byte>)
    requires heap.Valid()
    modifies heap
    ensures heap.Valid() && o == Run(100, turns)
    ensures forall i: nat :: FullUntil(turns, i) ==> EndsIn(turns, i, o)
    ensures o.Found? ==>
      && buffer.Block? && buffer.id !in old(heap.live) && heap.live == old(heap.live) + {buffer.id}
      && |o.target| < data.Length == o.size
      && data[..|o.target|] == o.target && data[|o.target|] == 0
    ensures o == Failed ==> buffer == Null && heap.live == old(heap.live)
    ensures o == Overflows || o == Running ==> heap.live == old(heap.live) + Owned(buffer)
  {
    hide Doubled, EndsIn, FullUntil;
    forall i: nat | FullUntil(turns, i) ensures EndsIn(turns, i, Run(100, turns)) {
      RunEndsIn(turns, i);
    }
    var size: nat := 100;
    buffer := Null;
    data := new byte[0];
    var i := 0;
    while i < |turns|
      invariant i <= |turns| && heap.Valid()
      invariant Run(100, turns) == Run(size, turns[i..])
      invariant 0 < size <= INT_MAX
      invariant heap.live == old(heap.live) + Owned(buffer) && Owned(buffer) !! old(heap.live)
    {
      var turn := turns[i];
      var tmp := heap.Resize(buffer, turn != NoMemory);
      if tmp == Null {
        if buffer.Block? { heap.Free(buffer.id); }
        return Failed, Null, data;
      }
      buffer := tmp;
      data := new byte[size];
      var nchars := if turn == Failure then -1 else Min(|turn.target|, size);
      if nchars < 0 {
        heap.Free(buffer.id);
        return Failed, Null, data;
      }
      for j := 0 to nchars
        modifies data
        invariant data.Length == size && forall k :: 0 <= k < j ==> data[k] == turn.target[k]
      {
        data[j] := turn.target[j];
      }
      if nchars < size {
        data[nchars] := 0;
        return Found(size, turn.target), buffer, data;
      }
      if 2 * size > INT_MAX { return Overflows, buffer, data; }
      size := size * 2;
      assert turns[i..][1..] == turns[i + 1..];
      i := i + 1;
    }
    return Running, buffer, data;
  }

  // ---- Stable links --------------------------------------------------------------------------------

  /** The link does not change and nothing fails. */
  predicate Stable(turns: seq<Turn>, target: seq<byte>) {
    forall i :: 0 <= i < |turns| ==> turns[i] == Link(target)
  }

  /** The number of doublings until the target fits. */
  function Doublings(size: nat, length: nat): (k: nat)
    requires size > 0
    decreases length - size
  {
    if length < size then 0 else 1 + Doublings(2 * size, length)
  }

  lemma {:induction false} DoublingsFit(j: nat, length: nat)
    requires j == 0 || Doubled(j - 1) <= length
    ensures Doubled(j) > 0
    ensures var k := j + Doublings(Doubled(j), length);
      Doubled(k) > length && (k > 0 ==> Doubled(k - 1) <= length)
    decreases length - Doubled(j)
  {
    DoubledPositive(j);
    if length >= Doubled(j) {
      DoubledPositive(j + 1);
      DoublingsFit(j + 1, length);
    }
  }

  lemma {:induction false} StableRun(j: nat, turns: seq<Turn>, target: seq<byte>)
    requires Stable(turns, target)
    ensures Doubled(j) > 0
    ensures var k := Doublings(Doubled(j), |target|);
      |turns| > k ==>
        Run(Doubled(j), turns)
        == (if Doubled(j + k) > INT_MAX && k > 0 then Overflows else Found(Doubled(j + k), target))
    decreases |turns|
  {
    DoubledPositive(j);
    if turns != [] && |target| >= Doubled(j) {
      DoubledPositive(j + 1);
      StableRun(j + 1, turns[1..], target);
      DoubledMonotone(j + 1, j + Doublings(Doubled(j), |target|));
    }
  }

  /** 100 * 2^k is the least buffer that holds `length` bytes and a terminator. */
  predicate IsLeast(k: nat, length: nat) {
    Doubled(k) > length && (k > 0 ==> Doubled(k - 1) <= length)
  }

  lemma LeastIs(k: nat, length: nat)
    ensures IsLeast(k, length) <==> k == Doublings(100, length)
  {
    var k0 := Doublings(100, length);
    DoublingsFit(0, length);
    if IsLeast(k, length) {
      if k < k0 { DoubledMonotone(k, k0 - 1); }
      if k0 < k { DoubledMonotone(k0, k - 1); }
    }
  }

  /**
   * A stable link is read in full, into the least buffer that holds it and its
   * terminator, as long as the size of that buffer is an int: that is for targets
   * shorter than 100 * 2^24 bytes.
   */
  lemma StableLinkIsRead(turns: seq<Turn>, target: seq<byte>, k: nat)
    requires Stable(turns, target) && IsLeast(k, |target|) && |turns| > k
    ensures Run(100, turns) == if |target| < 1677721600 then Found(Doubled(k), target) else Overflows
    ensures Doubled(k) <= Max(100, 2 * |target|)
  {
    hide Run;
    LeastIs(k, |target|);
    StableRun(0, turns, target);
    FitsInt(k, |target|);
  }

  /** 100 * 2^24 is the largest buffer an int can count. */
  lemma FitsInt(k: nat, length: nat)
    requires IsLeast(k, length)
    ensures Doubled(k) > INT_MAX && k > 0 <==> length >= 1677721600
  {
    Doubled24();
    if k <= 24 { DoubledMonotone(k, 24); }
    if k >= 25 { DoubledMonotone(25, k); DoubledMonotone(24, k - 1); }
  }

  // ---- The caller ------------------------------------------------------------------------------------

  /** caml_copy_string stops at the first null byte. */
  function CString(s: seq<byte>): seq<byte> {
    if s == [] || s[0] == 0 then [] else [s[0]] + CString(s[1..])
  }

  /** `c` is the C string that starts `s`: all of it, or what is before its first null. */
  predicate IsCString(c: seq<byte>, s: seq<byte>) {
    c <= s && 0 !in c && (c != s ==> s[|c|] == 0)
  }

  lemma {:induction false} CStringOf(s: seq<byte>, rest: seq<byte>)
    ensures IsCString(CString(s + [0] + rest), s)
  {
    if s == [] {
      assert s + [0] + rest == [0] + rest;
    } else {
      assert (s + [0] + rest)[1..] == s[1..] + [0] + rest;
      CStringOf(s[1..], rest);
    }
  }

  datatype Answer = Value(link: seq<byte>) | Error | Undefined | Blocked

  /** caml_extunix_readlinkat: every block is freed once, on success and on failure. The
      target comes back up to a null byte, so as it is, for the targets the system has. */
  method Readlinkat(heap: Heap, turns: seq<Turn>) returns (a: Answer)
    requires heap.Valid()
    modifies heap
    ensures heap.Valid()
    ensures a.Value? <==> Run(100, turns).Found?
    ensures a == Error <==> Run(100, turns) == Failed
    ensures a == Undefined <==> Run(100, turns) == Overflows
    ensures a.Value? || a == Error ==> heap.live == old(heap.live)
    ensures a.Value? ==> IsCString(a.link, Run(100, turns).target)
    ensures forall i: nat :: FullUntil(turns, i) ==>
      && (a == Undefined <==> i > 24)
      && (a == Blocked <==> i <= 24 && i >= |turns|)
      && (a == Error <==> i <= 24 && i < |turns| && !turns[i].Link?)
      && (a.Value? <==> i <= 24 && i < |turns| && turns[i].Link?)
      && (a.Value? ==> IsCString(a.link, turns[i].target))
  {
    hide FullUntil;
    var name := heap.Alloc();
    var o, res, data := ReadlinkatMalloc(heap, turns);
    if o == Running { return Blocked; }
    if o == Overflows { return Undefined; }
    heap.Free(name);
    if res == Null { return Error; }
    a := Value(CString(data[..]));
    var n := |o.target|;
    CStringOf(o.target, data[n + 1..]);
    assert data[..] == data[..n] + [data[n]] + data[n + 1..];
    heap.Free(res.id);
  }
}
