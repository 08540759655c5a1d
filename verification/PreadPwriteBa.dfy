/** src/pread_pwrite_ba.c: the loops that hand the rest of a bigarray straight to the kernel. */
module PreadPwriteBa {
  import opened Bytes
  import opened Transfer
  import opened Posix

  method PreadCommon(k: Kernel, at: nat, buf: array<byte>, mode: Mode) returns (r: Result, ghost s: Summary)
    modifies k`script, buf
    ensures s == Run(mode, buf.Length, buf.Length, Available(k.file, at), old(k.script), false)
    ensures Bounded(s, buf.Length, Available(k.file, at), old(k.script))
    ensures r == ResultOf(s) && Answers(mode, old(k.script), s, r)
    ensures k.script == old(k.script)[s.calls..]
    ensures buf[..] == Splice(old(buf[..]), 0, Region(k.file, at, s.moved))
    ensures (r, buf[..]) == PreadEffect(mode, buf.Length, k.file, at, old(buf[..]), 0, buf.Length, old(k.script))
  {
    hide Run, Answers, Decide, Served, Respond, GoesOn, Bounded, Splice, Slice, Region;
    var off, pos, len, processed := at, 0, buf.Length, 0;
    ghost var file, script, before := k.file, k.script, buf[..];
    ghost var calls, rest := 0, k.script;
    s := Run(mode, buf.Length, buf.Length, Available(file, at), script, false);
    SpliceNothing(before, 0);
    assert Region(file, at, 0) == [];
    Start(mode, buf.Length, buf.Length, Available(file, at), script, s);
    RunAnswers(mode, buf.Length, buf.Length, Available(file, at), script);
    while len > 0
      invariant 0 <= processed <= buf.Length && processed <= Available(file, at)
      invariant off == at + processed && pos == processed && len == buf.Length - processed
      invariant k.file == file
      invariant buf[..] == Splice(before, 0, Region(file, at, processed))
      invariant k.script == rest && calls <= |script| && rest == script[calls..]
      invariant GoesOn(s, processed, calls, Run(mode, buf.Length, len, Available(file, off), rest, processed > 0))
      invariant len == 0 ==> s == Summary(processed, calls, Returned)
      decreases |rest|
    {
      var ret := k.Pread(buf, pos, len, off);
      ReadOn(before, 0, file, at, processed, Moved(ret), before);
      Turn(s, processed, calls, mode, buf.Length, len, Available(file, off), rest, ret);
      if ret == Silent { return Blocked, s; }
      calls, rest := calls + 1, rest[1..];
      if ret == Ok(0) { break; }
      if ret.Error? {
        if ret.errno == EINTR && mode.noIntr { continue; }
        if processed > 0 {
          if ret.errno == EAGAIN || ret.errno == EWOULDBLOCK { break; }
          if mode.noError { break; }
        }
        return UnixError(ret.errno), s;
      }
      processed := processed + ret.n;
      pos := pos + ret.n;
      off := off + ret.n;
      len := len - ret.n;
      if mode.once { break; }
    }
    return Value(processed), s;
  }

  method PwriteCommon(k: Kernel, at: nat, buf: array<byte>, mode: Mode) returns (r: Result, ghost s: Summary)
    modifies k`script, k`file
    ensures s == Run(mode, buf.Length, buf.Length, buf.Length, old(k.script), false)
    ensures Bounded(s, buf.Length, buf.Length, old(k.script))
    ensures r == ResultOf(s) && Answers(mode, old(k.script), s, r)
    ensures k.script == old(k.script)[s.calls..]
    ensures k.file == WriteAt(old(k.file), at, Slice(buf[..], 0, s.moved))
    ensures (r, k.file) == PwriteEffect(mode, buf.Length, old(k.file), at, buf[..], 0, buf.Length, old(k.script))
  {
    hide Run, Answers, Decide, Served, Respond, GoesOn, Bounded, Splice, Slice, WriteAt;
    var off, pos, len, processed := at, 0, buf.Length, 0;
    ghost var file, script, data := k.file, k.script, buf[..];
    ghost var calls, rest := 0, k.script;
    s := Run(mode, buf.Length, buf.Length, buf.Length, script, false);
    NothingWritten(file, at);
    assert Slice(data, 0, 0) == [];
    Start(mode, buf.Length, buf.Length, buf.Length, script, s);
    RunAnswers(mode, buf.Length, buf.Length, buf.Length, script);
    while len > 0
      invariant 0 <= processed <= buf.Length
      invariant off == at + processed && pos == processed && len == buf.Length - processed
      invariant k.file == WriteAt(file, at, Slice(data, 0, processed))
      invariant k.script == rest && calls <= |script| && rest == script[calls..]
      invariant GoesOn(s, processed, calls, Run(mode, buf.Length, len, len, rest, processed > 0))
      invariant len == 0 ==> s == Summary(processed, calls, Returned)
      decreases |rest|
    {
      var ret := k.Pwrite(buf, pos, len, off);
      SliceAppend(data, 0, processed, Moved(ret));
      WriteAtAppend(file, at, Slice(data, 0, processed), Slice(data, pos, Moved(ret)));
      Turn(s, processed, calls, mode, buf.Length, len, len, rest, ret);
      if ret == Silent { return Blocked, s; }
      calls, rest := calls + 1, rest[1..];
      if ret == Ok(0) { break; }
      if ret.Error? {
        if ret.errno == EINTR && mode.noIntr { continue; }
        if processed > 0 {
          if ret.errno == EAGAIN || ret.errno == EWOULDBLOCK { break; }
          if mode.noError { break; }
        }
        return UnixError(ret.errno), s;
      }
      processed := processed + ret.n;
      pos := pos + ret.n;
      off := off + ret.n;
      len := len - ret.n;
      if mode.once { break; }
    }
    return Value(processed), s;
  }

  method ReadCommon(k: Kernel, buf: array<byte>, mode: Mode) returns (r: Result, ghost s: Summary)
    modifies k`script, k`input, buf
    ensures s == Run(mode, buf.Length, buf.Length, |old(k.input)|, old(k.script), false)
    ensures Bounded(s, buf.Length, |old(k.input)|, old(k.script))
    ensures r == ResultOf(s) && Answers(mode, old(k.script), s, r)
    ensures k.script == old(k.script)[s.calls..]
    ensures buf[..] == Splice(old(buf[..]), 0, Region(old(k.input), 0, s.moved))
    ensures k.input == Unread(old(k.input), s.moved)
    ensures (r, buf[..], k.input)
         == ReadEffect(mode, buf.Length, old(k.input), old(buf[..]), 0, buf.Length, old(k.script))
  {
    hide Run, Answers, Decide, Served, Respond, GoesOn, Bounded, Splice, Slice, Region, Unread;
    var pos, len, processed := 0, buf.Length, 0;
    ghost var input, script, before := k.input, k.script, buf[..];
    ghost var calls, rest := 0, k.script;
    s := Run(mode, buf.Length, buf.Length, |input|, script, false);
    SpliceNothing(before, 0);
    assert Region(input, 0, 0) == [];
    NothingRead(input);
    Start(mode, buf.Length, buf.Length, |input|, script, s);
    RunAnswers(mode, buf.Length, buf.Length, |input|, script);
    while len > 0
      invariant 0 <= processed <= buf.Length && processed <= |input|
      invariant pos == processed && len == buf.Length - processed
      invariant k.input == Unread(input, processed)
      invariant buf[..] == Splice(before, 0, Region(input, 0, processed))
      invariant k.script == rest && calls <= |script| && rest == script[calls..]
      invariant GoesOn(s, processed, calls, Run(mode, buf.Length, len, |input| - processed, rest, processed > 0))
      invariant len == 0 ==> s == Summary(processed, calls, Returned)
      decreases |rest|
    {
      var ret := k.Read(buf, pos, len);
      UnreadOn(input, processed, Moved(ret));
      ReadOn(before, 0, input, 0, processed, Moved(ret), before);
      Turn(s, processed, calls, mode, buf.Length, len, |input| - processed, rest, ret);
      if ret == Silent { return Blocked, s; }
      calls, rest := calls + 1, rest[1..];
      if ret == Ok(0) { break; }
      if ret.Error? {
        if ret.errno == EINTR && mode.noIntr { continue; }
        if processed > 0 {
          if ret.errno == EAGAIN || ret.errno == EWOULDBLOCK { break; }
          if mode.noError { break; }
        }
        return UnixError(ret.errno), s;
      }
      processed := processed + ret.n;
      pos := pos + ret.n;
      len := len - ret.n;
      if mode.once { break; }
    }
    return Value(processed), s;
  }

  method WriteCommon(k: Kernel, buf: array<byte>, mode: Mode) returns (r: Result, ghost s: Summary)
    modifies k`script, k`output
    ensures s == Run(mode, buf.Length, buf.Length, buf.Length, old(k.script), false)
    ensures Bounded(s, buf.Length, buf.Length, old(k.script))
    ensures r == ResultOf(s) && Answers(mode, old(k.script), s, r)
    ensures k.script == old(k.script)[s.calls..]
    ensures k.output == Sent(old(k.output), Slice(buf[..], 0, s.moved))
    ensures (r, k.output) == WriteEffect(mode, buf.Length, old(k.output), buf[..], 0, buf.Length, old(k.script))
  {
    hide Run, Answers, Decide, Served, Respond, GoesOn, Bounded, Splice, Slice, Sent;
    var pos, len, processed := 0, buf.Length, 0;
    ghost var output, script, data := k.output, k.script, buf[..];
    ghost var calls, rest := 0, k.script;
    s := Run(mode, buf.Length, buf.Length, buf.Length, script, false);
    SentOn(output, [], []);
    assert Slice(data, 0, 0) == [];
    Start(mode, buf.Length, buf.Length, buf.Length, script, s);
    RunAnswers(mode, buf.Length, buf.Length, buf.Length, script);
    while len > 0
      invariant 0 <= processed <= buf.Length
      invariant pos == processed && len == buf.Length - processed
      invariant k.output == Sent(output, Slice(data, 0, processed))
      invariant k.script == rest && calls <= |script| && rest == script[calls..]
      invariant GoesOn(s, processed, calls, Run(mode, buf.Length, len, len, rest, processed > 0))
      invariant len == 0 ==> s == Summary(processed, calls, Returned)
      decreases |rest|
    {
      var ret := k.Write(buf, pos, len);
      SliceAppend(data, 0, processed, Moved(ret));
      SentOn(output, Slice(data, 0, processed), Slice(data, pos, Moved(ret)));
      Turn(s, processed, calls, mode, buf.Length, len, len, rest, ret);
      if ret == Silent { return Blocked, s; }
      calls, rest := calls + 1, rest[1..];
      if ret == Ok(0) { break; }
      if ret.Error? {
        if ret.errno == EINTR && mode.noIntr { continue; }
        if processed > 0 {
          if ret.errno == EAGAIN || ret.errno == EWOULDBLOCK { break; }
          if mode.noError { break; }
        }
        return UnixError(ret.errno), s;
      }
      processed := processed + ret.n;
      pos := pos + ret.n;
      len := len - ret.n;
      if mode.once { break; }
    }
    return Value(processed), s;
  }
}
