/** src/extUnix.pp.ml: the functions programs call, which check their arguments first. */
module ExtUnixIo {
  import opened Bytes
  import opened OCamlInt
  import opened Transfer
  import opened Posix
  import Unistd

  /** OCaml's subtraction wraps around. */
  function Minus(a: int, b: int): int {
    var d := a - b;
    if d > MAX_INT then d - 0x8000_0000_0000_0000
    else if d < MIN_INT then d + 0x8000_0000_0000_0000
    else d
  }

  /** Invalid_argument, or what the loop answers. */
  datatype Answer = InvalidArgument | Answer(result: Result)

  /** The test in front of all_pread, single_pread, pread, intr_pread and the writers. */
  predicate Rejected(off: int, ofs: int, len: int, size: nat) {
    off < 0 || ofs < 0 || len < 0 || ofs > Minus(size, len)
  }

  /** The test accepts just the windows that lie in the buffer; no int defeats it by
      wrapping around. */
  lemma RejectedIff(off: int, ofs: int, len: int, size: nat)
    requires IsInt(off) && IsInt(ofs) && IsInt(len) && IsInt(size)
    ensures Rejected(off, ofs, len, size) <==> !(0 <= off && 0 <= ofs && 0 <= len && ofs + len <= size)
  {
  }

  method Pread(k: Kernel, off: int, buf: array<byte>, ofs: int, len: int, mode: Mode, bufferSize: nat)
    returns (a: Answer, ghost s: Summary)
    requires IsInt(off) && IsInt(ofs) && IsInt(len) && IsInt(buf.Length) && bufferSize > 0
    modifies k`script, buf
    ensures a == InvalidArgument <==> !(0 <= off && 0 <= ofs && 0 <= len && ofs + len <= buf.Length)
    ensures a == InvalidArgument ==> k.script == old(k.script) && buf[..] == old(buf[..])
    ensures a != InvalidArgument ==>
      && s == Run(mode, bufferSize, len, Available(k.file, off), old(k.script), false)
      && Bounded(s, len, Available(k.file, off), old(k.script))
      && a.result == ResultOf(s) && Answers(mode, old(k.script), s, a.result)
      && k.script == old(k.script)[s.calls..]
      && buf[..] == Splice(old(buf[..]), ofs, Region(k.file, off, s.moved))
      && (a.result, buf[..]) == PreadEffect(mode, bufferSize, k.file, off, old(buf[..]), ofs, len, old(k.script))
  {
    hide Run, Answers, Splice, PreadEffect, ReadEffect;
    RejectedIff(off, ofs, len, buf.Length);
    s := Summary(0, 0, Returned);
    if Rejected(off, ofs, len, buf.Length) { return InvalidArgument, s; }
    var r;
    r, s := Unistd.PreadCommon(k, off, buf, ofs, len, mode, bufferSize);
    a := Answer(r);
  }

  method Pwrite(k: Kernel, off: int, buf: array<byte>, ofs: int, len: int, mode: Mode, bufferSize: nat)
    returns (a: Answer, ghost s: Summary)
    requires IsInt(off) && IsInt(ofs) && IsInt(len) && IsInt(buf.Length) && bufferSize > 0
    modifies k`script, k`file
    ensures a == InvalidArgument <==> !(0 <= off && 0 <= ofs && 0 <= len && ofs + len <= buf.Length)
    ensures a == InvalidArgument ==> k.script == old(k.script) && k.file == old(k.file)
    ensures a != InvalidArgument ==>
      && s == Run(mode, bufferSize, len, len, old(k.script), false)
      && Bounded(s, len, len, old(k.script))
      && a.result == ResultOf(s) && Answers(mode, old(k.script), s, a.result)
      && k.script == old(k.script)[s.calls..]
      && k.file == WriteAt(old(k.file), off, Slice(buf[..], ofs, s.moved))
      && (a.result, k.file) == PwriteEffect(mode, bufferSize, old(k.file), off, buf[..], ofs, len, old(k.script))
  {
    hide Run, Answers, WriteAt, PwriteEffect;
    RejectedIff(off, ofs, len, buf.Length);
    s := Summary(0, 0, Returned);
    if Rejected(off, ofs, len, buf.Length) { return InvalidArgument, s; }
    var r;
    r, s := Unistd.PwriteCommon(k, off, buf, ofs, len, mode, bufferSize);
    a := Answer(r);
  }

  method Read(k: Kernel, buf: array<byte>, ofs: int, len: int, mode: Mode, bufferSize: nat)
    returns (a: Answer, ghost s: Summary)
    requires IsInt(ofs) && IsInt(len) && IsInt(buf.Length) && bufferSize > 0
    modifies k`script, k`input, buf
    ensures a == InvalidArgument <==> !(0 <= ofs && 0 <= len && ofs + len <= buf.Length)
    ensures a == InvalidArgument ==>
      k.script == old(k.script) && k.input == old(k.input) && buf[..] == old(buf[..])
    ensures a != InvalidArgument ==>
      && s == Run(mode, bufferSize, len, |old(k.input)|, old(k.script), false)
      && Bounded(s, len, |old(k.input)|, old(k.script))
      && a.result == ResultOf(s) && Answers(mode, old(k.script), s, a.result)
      && k.script == old(k.script)[s.calls..]
      && k.input == Unread(old(k.input), s.moved)
      && buf[..] == Splice(old(buf[..]), ofs, Region(old(k.input), 0, s.moved))
      && (a.result, buf[..], k.input)
         == ReadEffect(mode, bufferSize, old(k.input), old(buf[..]), ofs, len, old(k.script))
  {
    hide Run, Answers, Splice, PreadEffect, ReadEffect;
    RejectedIff(0, ofs, len, buf.Length);
    s := Summary(0, 0, Returned);
    if Rejected(0, ofs, len, buf.Length) { return InvalidArgument, s; }
    var r;
    r, s := Unistd.ReadCommon(k, buf, ofs, len, mode, bufferSize);
    a := Answer(r);
  }

  method Write(k: Kernel, buf: array<byte>, ofs: int, len: int, mode: Mode, bufferSize: nat)
    returns (a: Answer, ghost s: Summary)
    requires IsInt(ofs) && IsInt(len) && IsInt(buf.Length) && bufferSize > 0
    modifies k`script, k`output
    ensures a == InvalidArgument <==> !(0 <= ofs && 0 <= len && ofs + len <= buf.Length)
    ensures a == InvalidArgument ==> k.script == old(k.script) && k.output == old(k.output)
    ensures a != InvalidArgument ==>
      && s == Run(mode, bufferSize, len, len, old(k.script), false)
      && Bounded(s, len, len, old(k.script))
      && a.result == ResultOf(s) && Answers(mode, old(k.script), s, a.result)
      && k.script == old(k.script)[s.calls..]
      && k.output == Sent(old(k.output), Slice(buf[..], ofs, s.moved))
      && (a.result, k.output) == WriteEffect(mode, bufferSize, old(k.output), buf[..], ofs, len, old(k.script))
  {
    hide Run, Answers, WriteEffect;
    RejectedIff(0, ofs, len, buf.Length);
    s := Summary(0, 0, Returned);
    if Rejected(0, ofs, len, buf.Length) { return InvalidArgument, s; }
    var r;
    r, s := Unistd.WriteCommon(k, buf, ofs, len, mode, bufferSize);
    a := Answer(r);
  }

  /** LargeFile tests the offset alone: that the window lies in the buffer is up to the
      caller. The offset is an int64. */
  method LargeFilePread(k: Kernel, off: int, buf: array<byte>, ofs: nat, len: nat, mode: Mode, bufferSize: nat)
    returns (a: Answer, ghost s: Summary)
    requires ofs + len <= buf.Length && bufferSize > 0
    modifies k`script, buf
    ensures a == InvalidArgument <==> off < 0
    ensures a == InvalidArgument ==> k.script == old(k.script) && buf[..] == old(buf[..])
    ensures a != InvalidArgument ==>
      && s == Run(mode, bufferSize, len, Available(k.file, off), old(k.script), false)
      && Bounded(s, len, Available(k.file, off), old(k.script))
      && a.result == ResultOf(s) && Answers(mode, old(k.script), s, a.result)
      && k.script == old(k.script)[s.calls..]
      && buf[..] == Splice(old(buf[..]), ofs, Region(k.file, off, s.moved))
      && (a.result, buf[..]) == PreadEffect(mode, bufferSize, k.file, off, old(buf[..]), ofs, len, old(k.script))
  {
    hide Run, Answers, Splice, PreadEffect, ReadEffect;
    s := Summary(0, 0, Returned);
    if off < 0 { return InvalidArgument, s; }
    var r;
    r, s := Unistd.PreadCommon(k, off, buf, ofs, len, mode, bufferSize);
    a := Answer(r);
  }
}
