/** src/unistd.c: the loops that go through a buffer of bounded size. */
module Unistd {
  import opened Bytes
  import opened Transfer
  import opened Posix

  method PreadCommon(k: Kernel, at: nat, buf: array<byte>, start: nat, wanted: nat, mode: Mode, bufferSize: nat)
    returns (r: Result, ghost s: Summary)
    requires bufferSize > 0
    requires start + wanted <= buf.Length
    modifies k`script, buf
    ensures s == Run(mode, bufferSize, wanted, Available(k.file, at), old(k.script), false)
    ensures Bounded(s, wanted, Available(k.file, at), old(k.script))
    ensures r == ResultOf(s) && Answers(mode, old(k.script), s, r)
    ensures k.script == old(k.script)[s.calls..]
    ensures buf[..] == Splice(old(buf[..]), start, Region(k.file, at, s.moved))
    ensures (r, buf[..]) == PreadEffect(mode, bufferSize, k.file, at, old(buf[..]), start, wanted, old(k.script))
  {
    hide Run, Answers, Decide, Served, Respond, GoesOn, Bounded, Splice, Slice, Region, Available;
    var off, ofs, len, processed := at, start, wanted, 0;
    var iobuf := new byte[bufferSize];
    ghost var file, script, before := k.file, k.script, buf[..];
    ghost var calls, rest := 0, k.script;
    s := Run(mode, bufferSize, wanted, Available(file, at), script, false);
    SpliceNothing(before, start);
    assert Region(file, at, 0) == [];
    Start(mode, bufferSize, wanted, Available(file, at), script, s);
    RunAnswers(mode, bufferSize, wanted, Available(file, at), script);
    while len > 0
      invariant 0 <= processed <= wanted && processed <= Available(file, at)
      invariant off == at + processed && ofs == start + processed && len == wanted - processed
      invariant k.file == file && Available(file, off) == Available(file, at) - processed
      invariant buf[..] == Splice(before, start, Region(file, at, processed))
      invariant k.script == rest && calls <= |script| && rest == script[calls..]
      invariant GoesOn(s, processed, calls, Run(mode, bufferSize, len, Available(file, off), rest, processed > 0))
      invariant len == 0 ==> s == Summary(processed, calls, Returned)
      decreases |rest|
    {
      var numbytes := if len > bufferSize then bufferSize else len;
      ghost var scratch := iobuf[..];
      var ret := k.Pread(iobuf, 0, numbytes, off);
      ReadOn(before, start, file, at, processed, Moved(ret), scratch);
      Turn(s, processed, calls, mode, bufferSize, len, Available(file, off), rest, ret);
      if ret == Silent { return Blocked, s; }
      calls, rest := calls + 1, rest[1..];
      if ret == Ok(0) { break; }
      if ret.Error? {
        if ret.errno == EINTR && mode.noIntr { continue; }
        if processed > 0 {
          if ret.errno == EAGAIN || ret.errno == EWOULDBLOCK { break; }
          if mode.noError { break; }
        }
        return UnixError(ret.errno), s;
      }
      Memcpy(buf, ofs, iobuf, 0, ret.n);
      processed := processed + ret.n;
      off := off + ret.n;
      ofs := ofs + ret.n;
      len := len - ret.n;
      if mode.once { break; }
    }
    return Value(processed), s;
  }

  method PwriteCommon(k: Kernel, at: nat, buf: array<byte>, start: nat, wanted: nat, mode: Mode, bufferSize: nat)
    returns (r: Result, ghost s: Summary)
    requires bufferSize > 0
    requires start + wanted <= buf.Length
    modifies k`script, k`file
    ensures s == Run(mode, bufferSize, wanted, wanted, old(k.script), false)
    ensures Bounded(s, wanted, wanted, old(k.script))
    ensures r == ResultOf(s) && Answers(mode, old(k.script), s, r)
    ensures k.script == old(k.script)[s.calls..]
    ensures k.file == WriteAt(old(k.file), at, Slice(buf[..], start, s.moved))
    ensures (r, k.file) == PwriteEffect(mode, bufferSize, old(k.file), at, buf[..], start, wanted, old(k.script))
  {
    hide Run, Answers, Decide, Served, Respond, GoesOn, Bounded, Splice, Slice, WriteAt;
    var off, ofs, len, processed := at, start, wanted, 0;
    var iobuf := new byte[bufferSize];
    ghost var file, script, data := k.file, k.script, buf[..];
    ghost var calls, rest := 0, k.script;
    s := Run(mode, bufferSize, wanted, wanted, script, false);
    NothingWritten(file, at);
    assert Slice(data, start, 0) == [];
    Start(mode, bufferSize, wanted, wanted, script, s);
    RunAnswers(mode, bufferSize, wanted, wanted, script);
    while len > 0
      invariant 0 <= processed <= wanted
      invariant off == at + processed && ofs == start + processed && len == wanted - processed
      invariant k.file == WriteAt(file, at, Slice(data, start, processed))
      invariant k.script == rest && calls <= |script| && rest == script[calls..]
      invariant GoesOn(s, processed, calls, Run(mode, bufferSize, len, len, rest, processed > 0))
      invariant len == 0 ==> s == Summary(processed, calls, Returned)
      decreases |rest|
    {
      var numbytes := if len > bufferSize then bufferSize else len;
      ghost var scratch := iobuf[..];
      Memcpy(iobuf, 0, buf, ofs, numbytes);
      var ret := k.Pwrite(iobuf, 0, numbytes, off);
      WriteOn(data, start, processed, numbytes, Moved(ret), scratch);
      WriteAtAppend(file, at, Slice(data, start, processed), Slice(iobuf[..], 0, Moved(ret)));
      NothingShort(rest, numbytes, len);
      Turn(s, processed, calls, mode, bufferSize, len, len, rest, ret);
      if ret == Silent { return Blocked, s; }
      calls, rest := calls + 1, rest[1..];
      if ret == Ok(0) { break; }
      if ret.Error? {
        if ret.errno == EINTR && mode.noIntr { continue; }
        if processed > 0 {
          if ret.errno == EAGAIN || ret.errno == EWOULDBLOCK { break; }
          if mode.noError { break; }
        }
        return UnixError(ret.errno), s;
      }
      processed := processed + ret.n;
      off := off + ret.n;
      ofs := ofs + ret.n;
      len := len - ret.n;
      if mode.once { break; }
    }
    return Value(processed), s;
  }

  method ReadCommon(k: Kernel, buf: array<byte>, start: nat, wanted: nat, mode: Mode, bufferSize: nat)
    returns (r: Result, ghost s: Summary)
    requires bufferSize > 0
    requires start + wanted <= buf.Length
    modifies k`script, k`input, buf
    ensures s == Run(mode, bufferSize, wanted, |old(k.input)|, old(k.script), false)
    ensures Bounded(s, wanted, |old(k.input)|, old(k.script))
    ensures r == ResultOf(s) && Answers(mode, old(k.script), s, r)
    ensures k.script == old(k.script)[s.calls..]
    ensures buf[..] == Splice(old(buf[..]), start, Region(old(k.input), 0, s.moved))
    ensures k.input == Unread(old(k.input), s.moved)
    ensures (r, buf[..], k.input)
         == ReadEffect(mode, bufferSize, old(k.input), old(buf[..]), start, wanted, old(k.script))
  {
    hide Run, Answers, Decide, Served, Respond, GoesOn, Bounded, Splice, Slice, Region, Unread;
    var ofs, len, processed := start, wanted, 0;
    var iobuf := new byte[bufferSize];
    ghost var input, script, before := k.input, k.script, buf[..];
    ghost var calls, rest := 0, k.script;
    s := Run(mode, bufferSize, wanted, |input|, script, false);
    SpliceNothing(before, start);
    assert Region(input, 0, 0) == [];
    NothingRead(input);
    Start(mode, bufferSize, wanted, |input|, script, s);
    RunAnswers(mode, bufferSize, wanted, |input|, script);
    while len > 0
      invariant 0 <= processed <= wanted && processed <= |input|
      invariant ofs == start + processed && len == wanted - processed
      invariant k.input == Unread(input, processed)
      invariant buf[..] == Splice(before, start, Region(input, 0, processed))
      invariant k.script == rest && calls <= |script| && rest == script[calls..]
      invariant GoesOn(s, processed, calls, Run(mode, bufferSize, len, |input| - processed, rest, processed > 0))
      invariant len == 0 ==> s == Summary(processed, calls, Returned)
      decreases |rest|
    {
      var numbytes := if len > bufferSize then bufferSize else len;
      ghost var scratch := iobuf[..];
      var ret := k.Read(iobuf, 0, numbytes);
      UnreadOn(input, processed, Moved(ret));
      assert k.input == Unread(input, processed + Moved(ret));
      ReadOn(before, start, input, 0, processed, Moved(ret), scratch);
      Turn(s, processed, calls, mode, bufferSize, len, |input| - processed, rest, ret);
      if ret == Silent { return Blocked, s; }
      calls, rest := calls + 1, rest[1..];
      if ret == Ok(0) { break; }
      if ret.Error? {
        if ret.errno == EINTR && mode.noIntr { continue; }
        if processed > 0 {
          if ret.errno == EAGAIN || ret.errno == EWOULDBLOCK { break; }
          if mode.noError { break; }
        }
        return UnixError(ret.errno), s;
      }
      Memcpy(buf, ofs, iobuf, 0, ret.n);
      processed := processed + ret.n;
      ofs := ofs + ret.n;
      len := len - ret.n;
      if mode.once { break; }
    }
    return Value(processed), s;
  }

  method WriteCommon(k: Kernel, buf: array<byte>, start: nat, wanted: nat, mode: Mode, bufferSize: nat)
    returns (r: Result, ghost s: Summary)
    requires bufferSize > 0
    requires start + wanted <= buf.Length
    modifies k`script, k`output
    ensures s == Run(mode, bufferSize, wanted, wanted, old(k.script), false)
    ensures Bounded(s, wanted, wanted, old(k.script))
    ensures r == ResultOf(s) && Answers(mode, old(k.script), s, r)
    ensures k.script == old(k.script)[s.calls..]
    ensures k.output == Sent(old(k.output), Slice(buf[..], start, s.moved))
    ensures (r, k.output) == WriteEffect(mode, bufferSize, old(k.output), buf[..], start, wanted, old(k.script))
  {
    hide Run, Answers, Decide, Served, Respond, GoesOn, Bounded, Splice, Slice, Sent;
    var ofs, len, processed := start, wanted, 0;
    var iobuf := new byte[bufferSize];
    ghost var output, script, data := k.output, k.script, buf[..];
    ghost var calls, rest := 0, k.script;
    s := Run(mode, bufferSize, wanted, wanted, script, false);
    SentOn(output, [], []);
    assert Slice(data, start, 0) == [];
    Start(mode, bufferSize, wanted, wanted, script, s);
    RunAnswers(mode, bufferSize, wanted, wanted, script);
    while len > 0
      invariant 0 <= processed <= wanted
      invariant ofs == start + processed && len == wanted - processed
      invariant k.output == Sent(output, Slice(data, start, processed))
      invariant k.script == rest && calls <= |script| && rest == script[calls..]
      invariant GoesOn(s, processed, calls, Run(mode, bufferSize, len, len, rest, processed > 0))
      invariant len == 0 ==> s == Summary(processed, calls, Returned)
      decreases |rest|
    {
      var numbytes := if len > bufferSize then bufferSize else len;
      ghost var scratch := iobuf[..];
      Memcpy(iobuf, 0, buf, ofs, numbytes);
      var ret := k.Write(iobuf, 0, numbytes);
      WriteOn(data, start, processed, numbytes, Moved(ret), scratch);
      SentOn(output, Slice(data, start, processed), Slice(iobuf[..], 0, Moved(ret)));
      NothingShort(rest, numbytes, len);
      Turn(s, processed, calls, mode, bufferSize, len, len, rest, ret);
      if ret == Silent { return Blocked, s; }
      calls, rest := calls + 1, rest[1..];
      if ret == Ok(0) { break; }
      if ret.Error? {
        if ret.errno == EINTR && mode.noIntr { continue; }
        if processed > 0 {
          if ret.errno == EAGAIN || ret.errno == EWOULDBLOCK { break; }
          if mode.noError { break; }
        }
        return UnixError(ret.errno), s;
      }
      processed := processed + ret.n;
      ofs := ofs + ret.n;
      len := len - ret.n;
      if mode.once { break; }
    }
    return Value(processed), s;
  }
}
