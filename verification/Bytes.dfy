/** Byte buffers as values, and the C library's `memcpy`. */
module Bytes {

  type byte = x: int | 0 <= x < 256

  function Min(a: int, b: int): int {
    if a < b then a else b
  }

  function Max(a: int, b: int): int {
    if a < b then b else a
  }

  /** n bytes of `s` from `from` on. */
  function Slice(s: seq<byte>, from: nat, n: nat): (r: seq<byte>)
    requires from + n <= |s|
    ensures |r| == n
  {
    s[from..from + n]
  }

  lemma SliceAppend(s: seq<byte>, from: nat, p: nat, n: nat)
    requires from + p + n <= |s|
    ensures Slice(s, from, p) + Slice(s, from + p, n) == Slice(s, from, p + n)
  {
  }

  lemma SliceSlice(s: seq<byte>, from: nat, m: nat, n: nat)
    requires from + m <= |s| && n <= m
    ensures Slice(Slice(s, from, m), 0, n) == Slice(s, from, n)
  {
  }

  /** `buf` with the bytes from `at` on overwritten by `data`. */
  function Splice(buf: seq<byte>, at: nat, data: seq<byte>): (r: seq<byte>)
    requires at + |data| <= |buf|
    ensures |r| == |buf|
  {
    buf[..at] + data + buf[at + |data|..]
  }

  lemma SpliceBytes(buf: seq<byte>, at: nat, data: seq<byte>)
    requires at + |data| <= |buf|
    ensures forall i :: 0 <= i < |buf| ==>
      Splice(buf, at, data)[i] == if at <= i < at + |data| then data[i - at] else buf[i]
  {
  }

  lemma SpliceNothing(buf: seq<byte>, at: nat)
    requires at <= |buf|
    ensures Splice(buf, at, []) == buf
  {
  }

  /** Two adjacent copies are one copy of the concatenation. */
  lemma SpliceAppend(buf: seq<byte>, at: nat, a: seq<byte>, b: seq<byte>)
    requires at + |a| + |b| <= |buf|
    ensures Splice(Splice(buf, at, a), at + |a|, b) == Splice(buf, at, a + b)
  {
    hide Splice;
    var one := Splice(buf, at, a);
    SpliceBytes(buf, at, a);
    SpliceBytes(one, at + |a|, b);
    SpliceBytes(buf, at, a + b);
    forall i | 0 <= i < |buf| ensures Splice(one, at + |a|, b)[i] == Splice(buf, at, a + b)[i] {
    }
  }

  /** What was copied in can be copied out. */
  lemma SliceOfSplice(buf: seq<byte>, at: nat, data: seq<byte>, n: nat)
    requires at + |data| <= |buf| && n <= |data|
    ensures Slice(Splice(buf, at, data), at, n) == Slice(data, 0, n)
  {
  }

  method Memcpy(dst: array<byte>, to: nat, src: array<byte>, from: nat, n: nat)
    requires dst != src
    requires to + n <= dst.Length && from + n <= src.Length
    modifies dst
    ensures dst[..] == Splice(old(dst[..]), to, Slice(src[..], from, n))
  {
    for j := 0 to n
      invariant forall i :: to <= i < to + j ==> dst[i] == src[from + i - to]
      invariant forall i :: 0 <= i < dst.Length && !(to <= i < to + j) ==> dst[i] == old(dst[i])
    {
      dst[to + j] := src[from + j];
    }
    SpliceBytes(old(dst[..]), to, Slice(src[..], from, n));
    assert forall i :: 0 <= i < dst.Length ==> dst[..][i] == Splice(old(dst[..]), to, Slice(src[..], from, n))[i];
  }
}
