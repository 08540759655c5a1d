/**
 * The four system calls the loops drive, after read(), pread(), write() and pwrite()
 * in chapter 3 of the System Interfaces volume of POSIX.1-2008. How much a call moves,
 * or how it fails, is the kernel's choice: it plays its script.
 */
module Posix {
  import opened Bytes
  import opened Transfer

  /** The bytes of a file from `off` to its end. */
  function Available(file: seq<byte>, off: nat): nat {
    if off < |file| then |file| - off else 0
  }

  /** n bytes of a file from `off`. */
  function Region(file: seq<byte>, off: nat, n: nat): (r: seq<byte>)
    requires n <= Available(file, off)
    ensures |r| == n
  {
    if n == 0 then [] else Slice(file, off, n)
  }

  /** The bytes read so far and the next ones, which came through `iobuf`. */
  lemma ReadOn(buf: seq<byte>, start: nat, file: seq<byte>, at: nat, p: nat, n: nat, iobuf: seq<byte>)
    requires p + n <= Available(file, at) && start + p + n <= |buf| && n <= |iobuf|
    ensures Available(file, at + p) == Available(file, at) - p
    ensures Available(file, at + p + n) == Available(file, at) - p - n
    ensures var piece := Region(file, at + p, n);
      && Slice(Splice(iobuf, 0, piece), 0, n) == piece
      && Splice(Splice(buf, start, Region(file, at, p)), start + p, piece)
         == Splice(buf, start, Region(file, at, p + n))
  {
    hide Splice;
    var piece := Region(file, at + p, n);
    SliceOfSplice(iobuf, 0, piece, n);
    SpliceAppend(buf, start, Region(file, at, p), piece);
    assert Region(file, at, p) + piece == Region(file, at, p + n);
  }

  /** What a reader of a stream has yet to see after n bytes. */
  function Unread(input: seq<byte>, n: nat): (r: seq<byte>)
    requires n <= |input|
    ensures |r| == |input| - n
  {
    input[n..]
  }

  lemma NothingRead(input: seq<byte>)
    ensures Unread(input, 0) == input
  {
  }

  /** A stream is read front to back. */
  lemma UnreadOn(input: seq<byte>, p: nat, n: nat)
    requires p + n <= |input|
    ensures Unread(Unread(input, p), n) == Unread(input, p + n)
    ensures Region(Unread(input, p), 0, n) == Region(input, p, n)
  {
  }

  /** The byte at i of a file after `data` is written at `off`: a gap past the old
      end reads as zeros. */
  function ByteAfter(file: seq<byte>, off: nat, data: seq<byte>, i: nat): byte {
    if off <= i < off + |data| then data[i - off]
    else if i < |file| then file[i]
    else 0
  }

  /** A file after a write at `off`. Writing nothing changes nothing. */
  function WriteAt(file: seq<byte>, off: nat, data: seq<byte>): seq<byte> {
    if data == [] then file else
    seq(Max(|file|, off + |data|), i requires 0 <= i => ByteAfter(file, off, data, i))
  }

  lemma NothingWritten(file: seq<byte>, off: nat)
    ensures WriteAt(file, off, []) == file
  {
  }

  lemma WriteAtBytes(file: seq<byte>, off: nat, data: seq<byte>)
    requires data != []
    ensures |WriteAt(file, off, data)| == Max(|file|, off + |data|)
    ensures forall i :: 0 <= i < |WriteAt(file, off, data)| ==>
      WriteAt(file, off, data)[i] == ByteAfter(file, off, data, i)
  {
  }

  /** Adjacent writes are one write of the concatenation. */
  lemma WriteAtAppend(file: seq<byte>, off: nat, a: seq<byte>, b: seq<byte>)
    ensures WriteAt(WriteAt(file, off, a), off + |a|, b) == WriteAt(file, off, a + b)
  {
    hide WriteAt;
    if a == [] {
      assert a + b == b;
      NothingWritten(file, off);
    } else if b == [] {
      assert a + b == a;
      NothingWritten(WriteAt(file, off, a), off + |a|);
    } else {
      var one := WriteAt(file, off, a);
      var two := WriteAt(one, off + |a|, b);
      var all := WriteAt(file, off, a + b);
      WriteAtBytes(file, off, a);
      WriteAtBytes(one, off + |a|, b);
      WriteAtBytes(file, off, a + b);
      forall i | 0 <= i < |two| ensures two[i] == all[i] {
        assert two[i] == ByteAfter(one, off + |a|, b, i);
        assert i < |one| ==> one[i] == ByteAfter(file, off, a, i);
      }
    }
  }

  /** What the other end of a written stream has after `data` was sent. */
  function Sent(output: seq<byte>, data: seq<byte>): seq<byte> {
    output + data
  }

  lemma SentOn(output: seq<byte>, a: seq<byte>, b: seq<byte>)
    ensures Sent(output, []) == output
    ensures Sent(Sent(output, a), b) == Sent(output, a + b)
  {
  }

  /** The next bytes to write, which go through `iobuf`. */
  lemma WriteOn(buf: seq<byte>, start: nat, p: nat, m: nat, n: nat, iobuf: seq<byte>)
    requires start + p + m <= |buf| && n <= m <= |iobuf|
    ensures var piece := Slice(Splice(iobuf, 0, Slice(buf, start + p, m)), 0, n);
      Slice(buf, start, p) + piece == Slice(buf, start, p + n)
  {
    hide Splice, Slice;
    SliceOfSplice(iobuf, 0, Slice(buf, start + p, m), n);
    SliceSlice(buf, start + p, m, n);
    SliceAppend(buf, start, p, n);
  }

  // ---- What a loop leaves ------------------------------------------------------------

  /** The value and the buffer a pread loop leaves. */
  function PreadEffect(mode: Mode, chunk: nat, file: seq<byte>, at: nat, buf: seq<byte>, start: nat, wanted: nat,
                       script: seq<Reply>): (Result, seq<byte>)
    requires start + wanted <= |buf|
  {
    RunBounds(mode, chunk, wanted, Available(file, at), script, false);
    var s := Run(mode, chunk, wanted, Available(file, at), script, false);
    (ResultOf(s), Splice(buf, start, Region(file, at, s.moved)))
  }

  /** The value and the file a pwrite loop leaves. */
  function PwriteEffect(mode: Mode, chunk: nat, file: seq<byte>, at: nat, buf: seq<byte>, start: nat, wanted: nat,
                        script: seq<Reply>): (Result, seq<byte>)
    requires start + wanted <= |buf|
  {
    RunBounds(mode, chunk, wanted, wanted, script, false);
    var s := Run(mode, chunk, wanted, wanted, script, false);
    (ResultOf(s), WriteAt(file, at, Slice(buf, start, s.moved)))
  }

  /** The value, the buffer and the rest of the stream a read loop leaves. */
  function ReadEffect(mode: Mode, chunk: nat, input: seq<byte>, buf: seq<byte>, start: nat, wanted: nat,
                      script: seq<Reply>): (Result, seq<byte>, seq<byte>)
    requires start + wanted <= |buf|
  {
    RunBounds(mode, chunk, wanted, |input|, script, false);
    var s := Run(mode, chunk, wanted, |input|, script, false);
    (ResultOf(s), Splice(buf, start, Region(input, 0, s.moved)), Unread(input, s.moved))
  }

  /** The value and the sink a write loop leaves. */
  function WriteEffect(mode: Mode, chunk: nat, output: seq<byte>, buf: seq<byte>, start: nat, wanted: nat,
                       script: seq<Reply>): (Result, seq<byte>)
    requires start + wanted <= |buf|
  {
    RunBounds(mode, chunk, wanted, wanted, script, false);
    var s := Run(mode, chunk, wanted, wanted, script, false);
    (ResultOf(s), Sent(output, Slice(buf, start, s.moved)))
  }

  class Kernel {
    var file: seq<byte>      // the regular file behind pread and pwrite
    var input: seq<byte>     // what a reader of the stream has yet to see
    var output: seq<byte>    // what the other end of a written stream has received
    var script: seq<Reply>   // the answers to come

    constructor (file: seq<byte>, input: seq<byte>, script: seq<Reply>)
      ensures this.file == file && this.input == input && this.output == [] && this.script == script
    {
      this.file, this.input, this.output, this.script := file, input, [], script;
    }

    function Rest(): seq<Reply>
      reads this`script
    {
      if script == [] then [] else script[1..]
    }

    method Pread(dst: array<byte>, at: nat, n: nat, off: nat) returns (ret: Ret)
      requires at + n <= dst.Length
      modifies this`script, dst
      ensures ret == Respond(old(script), n, Available(file, off))
      ensures script == old(Rest())
      ensures dst[..] == Splice(old(dst[..]), at, Region(file, off, Moved(ret)))
    {
      ret := Respond(script, n, Available(file, off));
      script := Rest();
      Deliver(dst, at, Region(file, off, Moved(ret)));
    }

    method Pwrite(src: array<byte>, at: nat, n: nat, off: nat) returns (ret: Ret)
      requires at + n <= src.Length
      modifies this`script, this`file
      ensures ret == Respond(old(script), n, n)
      ensures script == old(Rest())
      ensures file == WriteAt(old(file), off, Slice(src[..], at, Moved(ret)))
    {
      ret := Respond(script, n, n);
      script := Rest();
      file := WriteAt(file, off, Slice(src[..], at, Moved(ret)));
    }

    method Read(dst: array<byte>, at: nat, n: nat) returns (ret: Ret)
      requires at + n <= dst.Length
      modifies this`script, this`input, dst
      ensures ret == Respond(old(script), n, |old(input)|)
      ensures script == old(Rest())
      ensures dst[..] == Splice(old(dst[..]), at, Region(old(input), 0, Moved(ret)))
      ensures input == Unread(old(input), Moved(ret))
    {
      ret := Respond(script, n, |input|);
      script := Rest();
      Deliver(dst, at, Region(input, 0, Moved(ret)));
      input := Unread(input, Moved(ret));
    }

    method Write(src: array<byte>, at: nat, n: nat) returns (ret: Ret)
      requires at + n <= src.Length
      modifies this`script, this`output
      ensures ret == Respond(old(script), n, n)
      ensures script == old(Rest())
      ensures output == Sent(old(output), Slice(src[..], at, Moved(ret)))
    {
      ret := Respond(script, n, n);
      script := Rest();
      output := Sent(output, Slice(src[..], at, Moved(ret)));
    }

    /** The kernel fills part of a buffer. */
    static method Deliver(dst: array<byte>, at: nat, data: seq<byte>)
      requires at + |data| <= dst.Length
      modifies dst
      ensures dst[..] == Splice(old(dst[..]), at, data)
    {
      for j := 0 to |data|
        invariant forall i :: at <= i < at + j ==> dst[i] == data[i - at]
        invariant forall i :: 0 <= i < dst.Length && !(at <= i < at + j) ==> dst[i] == old(dst[i])
      {
        dst[at + j] := data[j];
      }
      SpliceBytes(old(dst[..]), at, data);
      assert forall i :: 0 <= i < dst.Length ==> dst[..][i] == Splice(old(dst[..]), at, data)[i];
    }
  }
}
