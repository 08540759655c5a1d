/**
 * What one of the transfer loops of src/unistd.c and src/pread_pwrite_ba.c does,
 * seen from the outside: how many bytes it moves, how many system calls it makes
 * and how it ends, as a function of the replies the kernel gives.
 */
module Transfer {
  import opened Bytes

  datatype Errno = EINTR | EAGAIN | EWOULDBLOCK | Other(code: int)

  /** One answer of the kernel. `Count(n)` offers to move up to n bytes: the call
      moves n, or less if less was requested or is available. */
  datatype Reply = Count(n: nat) | Fail(errno: Errno)

  /** BIT_ONCE, BIT_NOERROR and BIT_NOINTR. */
  datatype Mode = Mode(once: bool, noError: bool, noIntr: bool)

  const ALL := Mode(false, false, true)
  const SINGLE := Mode(true, false, false)
  const PLAIN := Mode(false, true, true)
  const INTR := Mode(false, true, false)

  /** `Pending`: the kernel has not answered yet, the loop sits in a system call. */
  datatype Outcome = Returned | Raised(errno: Errno) | Pending

  datatype Summary = Summary(moved: nat, calls: nat, outcome: Outcome)

  /** What a call gives back: a count, -1 with errno, or nothing yet. */
  datatype Ret = Ok(n: nat) | Error(errno: Errno) | Silent

  /** The bytes one call moves. */
  function Served(offered: nat, requested: nat, avail: nat): nat {
    Min(offered, Min(requested, avail))
  }

  /** A call for `requested` bytes when `avail` are there, answered by the first reply. */
  function Respond(script: seq<Reply>, requested: nat, avail: nat): (r: Ret)
    ensures r.Ok? ==> r.n <= requested && r.n <= avail
    ensures r == Silent <==> script == []
  {
    if script == [] then Silent
    else match script[0]
      case Count(k) => Ok(Served(k, requested, avail))
      case Fail(e) => Error(e)
  }

  /** A call that asks for less than is there is answered alike however much is there:
      a write finds `requested` bytes available, or any larger number. */
  lemma NothingShort(script: seq<Reply>, requested: nat, avail: nat)
    requires requested <= avail
    ensures Respond(script, requested, requested) == Respond(script, requested, avail)
  {
  }

  function Moved(r: Ret): nat {
    if r.Ok? then r.n else 0
  }

  predicate Transient(e: Errno) {
    e == EAGAIN || e == EWOULDBLOCK
  }

  predicate Retried(mode: Mode, e: Errno) {
    e == EINTR && mode.noIntr
  }

  /** What the loop does with what a call gave back: stop, or go on having moved n
      more bytes. */
  datatype Action = Stop(n: nat, outcome: Outcome) | GoOn(n: nat)

  function Decide(mode: Mode, ret: Ret, started: bool): (a: Action)
    ensures a.n == Moved(ret)
  {
    match ret
    case Silent => Stop(0, Pending)
    case Error(e) =>
      if Retried(mode, e) then GoOn(0)
      else if started && (Transient(e) || mode.noError) then Stop(0, Returned)
      else Stop(0, Raised(e))
    case Ok(n) =>
      if n == 0 || mode.once then Stop(n, Returned) else GoOn(n)
  }

  /** A run with one more call in front that moved n bytes. */
  function After(n: nat, s: Summary): Summary {
    Summary(n + s.moved, 1 + s.calls, s.outcome)
  }

  /**
   * The loop: at most `chunk` bytes are requested at a time, `len` bytes are
   * wanted, `avail` are there, `started` says that some byte was moved before.
   * A script is a finite prefix of what the kernel answers.
   */
  function Run(mode: Mode, chunk: nat, len: nat, avail: nat, script: seq<Reply>, started: bool): Summary
    decreases |script|
  {
    if len == 0 then Summary(0, 0, Returned)
    else if script == [] then Summary(0, 0, Pending)
    else match Decide(mode, Respond(script, Min(len, chunk), avail), started)
      case Stop(n, o) => Summary(n, 1, o)
      case GoOn(n) => After(n, Run(mode, chunk, len - n, avail - n, script[1..], started || n > 0))
  }

  /** The equation of `Run`. */
  lemma RunStep(mode: Mode, chunk: nat, len: nat, avail: nat, script: seq<Reply>, started: bool)
    ensures len == 0 ==> Run(mode, chunk, len, avail, script, started) == Summary(0, 0, Returned)
    ensures len > 0 && script == [] ==> Run(mode, chunk, len, avail, script, started) == Summary(0, 0, Pending)
    ensures len > 0 && script != [] ==>
      Run(mode, chunk, len, avail, script, started)
      == match Decide(mode, Respond(script, Min(len, chunk), avail), started)
         case Stop(n, o) => Summary(n, 1, o)
         case GoOn(n) => After(n, Run(mode, chunk, len - n, avail - n, script[1..], started || n > 0))
  {
  }

  predicate Bounded(s: Summary, len: nat, avail: nat, script: seq<Reply>) {
    s.moved <= len && s.moved <= avail && s.calls <= |script|
  }

  lemma {:induction false} RunBounds(mode: Mode, chunk: nat, len: nat, avail: nat, script: seq<Reply>, started: bool)
    ensures Bounded(Run(mode, chunk, len, avail, script, started), len, avail, script)
    decreases |script|
  {
    hide Run, Respond, Decide;
    RunStep(mode, chunk, len, avail, script, started);
    if len > 0 && script != [] {
      var n := Decide(mode, Respond(script, Min(len, chunk), avail), started).n;
      RunBounds(mode, chunk, len - n, avail - n, script[1..], started || n > 0);
    }
  }

  // ---- The outcome table ----------------------------------------------------

  /** The replies a loop goes on after. */
  predicate Continues(mode: Mode, r: Reply) {
    match r
    case Fail(e) => e == EINTR && mode.noIntr
    case Count(k) => k > 0 && !mode.once
  }

  /** The errors that end a transfer which has made progress without an exception. */
  predicate ShortCount(mode: Mode, e: Errno) {
    e == EAGAIN || e == EWOULDBLOCK || mode.noError
  }

  /** How a run that moved `s.moved` bytes in all ends on its last reply. */
  ghost predicate EndsOn(mode: Mode, len: nat, avail: nat, started: bool, s: Summary, last: Reply) {
    match last
    case Fail(e) =>
      && !Continues(mode, last)
      && s.outcome == (if (started || s.moved > 0) && ShortCount(mode, e) then Returned else Raised(e))
    case Count(k) =>
      && s.outcome == Returned
      && (k == 0 || s.moved == len || s.moved == avail || (mode.once && s.moved > 0))
  }

  lemma DecideTable(mode: Mode, chunk: nat, len: nat, avail: nat, script: seq<Reply>, started: bool)
    requires chunk > 0 && len > 0 && script != []
    ensures match Decide(mode, Respond(script, Min(len, chunk), avail), started)
      case GoOn(n) => Continues(mode, script[0]) && (n > 0 <==> script[0].Count? && avail > 0)
      case Stop(n, o) => o != Pending && EndsOn(mode, len, avail, started, Summary(n, 1, o), script[0])
  {
  }

  /** Every reply but the last is one the loop goes on after; a pending loop goes on
      after all of them. */
  lemma {:induction false} EarlierRepliesContinue(
    mode: Mode, chunk: nat, len: nat, avail: nat, script: seq<Reply>, started: bool)
    requires chunk > 0
    ensures var s := Run(mode, chunk, len, avail, script, started);
      && s.calls <= |script|
      && (s.calls == 0 <==> len == 0 || script == [])
      && (forall i :: 0 <= i < s.calls - 1 ==> Continues(mode, script[i]))
      && (s.outcome == Pending ==> s.calls == |script| && s.moved < len
                                   && forall i :: 0 <= i < |script| ==> Continues(mode, script[i]))
    decreases |script|
  {
    hide Run, Respond, Decide, Continues, EndsOn;
    RunStep(mode, chunk, len, avail, script, started);
    if len > 0 && script != [] {
      DecideTable(mode, chunk, len, avail, script, started);
      var a := Decide(mode, Respond(script, Min(len, chunk), avail), started);
      if a.GoOn? {
        EarlierRepliesContinue(mode, chunk, len - a.n, avail - a.n, script[1..], started || a.n > 0);
        assert forall i :: 0 < i < |script| ==> script[i] == script[1..][i - 1];
      }
    }
  }

  /**
   * The outcome table over all runs: the last reply and whether anything was moved
   * decide between returning and raising.
   */
  lemma {:induction false} OutcomeTable(mode: Mode, chunk: nat, len: nat, avail: nat, script: seq<Reply>, started: bool)
    requires chunk > 0
    ensures var s := Run(mode, chunk, len, avail, script, started);
      && s.calls <= |script|
      && (s.calls > 0 && s.outcome != Pending ==> EndsOn(mode, len, avail, started, s, script[s.calls - 1]))
    decreases |script|
  {
    hide Run, Respond, Decide, Continues;
    RunStep(mode, chunk, len, avail, script, started);
    if len > 0 && script != [] {
      DecideTable(mode, chunk, len, avail, script, started);
      var a := Decide(mode, Respond(script, Min(len, chunk), avail), started);
      if a.GoOn? {
        OutcomeTable(mode, chunk, len - a.n, avail - a.n, script[1..], started || a.n > 0);
        RunStep(mode, chunk, len - a.n, avail - a.n, script[1..], started || a.n > 0);
      }
    }
  }

  /**
   * One more reply, in terms of what the run had moved before it: a run that has ended
   * stays as it is, and a pending one ends or goes on as the reply says. With the run on
   * no replies this determines every run.
   */
  lemma {:induction false} LastReply(
    mode: Mode, chunk: nat, len: nat, avail: nat, earlier: seq<Reply>, last: Reply, started: bool)
    ensures Run(mode, chunk, len, avail, [], started) == Summary(0, 0, if len == 0 then Returned else Pending)
    ensures var s := Run(mode, chunk, len, avail, earlier, started);
      var t := Run(mode, chunk, len, avail, earlier + [last], started);
      && s.moved <= len && s.moved <= avail
      && Extended(mode, chunk, len, avail, started, s, last, t)
    decreases |earlier|
  {
    hide Run, Respond, Decide, Extended;
    RunBounds(mode, chunk, len, avail, earlier, started);
    RunStep(mode, chunk, len, avail, [], started);
    RunStep(mode, chunk, len, avail, earlier, started);
    RunStep(mode, chunk, len, avail, earlier + [last], started);
    if len == 0 {
      EndedStays(mode, chunk, len, avail, started, Summary(0, 0, Returned), last);
    } else if earlier == [] {
      assert [] + [last] == [last];
      FirstReply(mode, chunk, len, avail, last, started);
    } else {
      assert (earlier + [last])[1..] == earlier[1..] + [last];
      SameFirst(earlier, last, Min(len, chunk), avail);
      match Decide(mode, Respond(earlier, Min(len, chunk), avail), started)
      case Stop(n, o) =>
        StopsAnswered(mode, Respond(earlier, Min(len, chunk), avail), started);
        EndedStays(mode, chunk, len, avail, started, Summary(n, 1, o), last);
      case GoOn(n) =>
        LastReply(mode, chunk, len - n, avail - n, earlier[1..], last, started || n > 0);
        ExtendedAfter(mode, chunk, len, avail, started, n,
          Run(mode, chunk, len - n, avail - n, earlier[1..], started || n > 0), last,
          Run(mode, chunk, len - n, avail - n, earlier[1..] + [last], started || n > 0));
    }
  }

  lemma SameFirst(earlier: seq<Reply>, last: Reply, requested: nat, avail: nat)
    requires earlier != []
    ensures Respond(earlier + [last], requested, avail) == Respond(earlier, requested, avail)
  {
  }

  lemma StopsAnswered(mode: Mode, ret: Ret, started: bool)
    ensures Decide(mode, ret, started).Stop? && ret != Silent ==> Decide(mode, ret, started).outcome != Pending
  {
  }

  lemma EndedStays(mode: Mode, chunk: nat, len: nat, avail: nat, started: bool, s: Summary, last: Reply)
    requires s.moved <= len && s.moved <= avail && s.outcome != Pending
    ensures Extended(mode, chunk, len, avail, started, s, last, s)
  {
  }

  lemma FirstReply(mode: Mode, chunk: nat, len: nat, avail: nat, last: Reply, started: bool)
    requires len > 0
    ensures Extended(mode, chunk, len, avail, started, Summary(0, 0, Pending), last,
      Run(mode, chunk, len, avail, [last], started))
  {
    var n := Decide(mode, Respond([last], Min(len, chunk), avail), started).n;
    RunStep(mode, chunk, len, avail, [last], started);
    RunStep(mode, chunk, len - n, avail - n, [], started || n > 0);
    hide Run;
    assert [last][1..] == [];
  }

  lemma ExtendedAfter(mode: Mode, chunk: nat, len: nat, avail: nat, started: bool, n: nat,
                      s: Summary, last: Reply, t: Summary)
    requires n <= len && n <= avail && s.moved <= len - n && s.moved <= avail - n
    requires Extended(mode, chunk, len - n, avail - n, started || n > 0, s, last, t)
    ensures Extended(mode, chunk, len, avail, started, After(n, s), last, After(n, t))
  {
  }

  /** `t` is the run `s` with one more reply. */
  ghost predicate Extended(
    mode: Mode, chunk: nat, len: nat, avail: nat, started: bool, s: Summary, last: Reply, t: Summary)
    requires s.moved <= len && s.moved <= avail
  {
    if s.outcome != Pending then t == s
    else match last
      case Fail(e) =>
        t == Summary(s.moved, s.calls + 1,
          if e == EINTR && mode.noIntr then Pending
          else if (started || s.moved > 0) && ShortCount(mode, e) then Returned
          else Raised(e))
      case Count(k) =>
        var n := Min(k, Min(Min(len - s.moved, chunk), avail - s.moved));
        t == Summary(s.moved + n, s.calls + 1,
          if n == 0 || mode.once || s.moved + n == len then Returned else Pending)
  }

  // ---- Running the loop --------------------------------------------------------

  /** A call's value, the Unix_error it raises, or no answer yet. */
  datatype Result = Value(n: nat) | UnixError(errno: Errno) | Blocked

  function ResultOf(s: Summary): Result {
    match s.outcome
    case Returned => Value(s.moved)
    case Raised(e) => UnixError(e)
    case Pending => Blocked
  }

  /** The answer r of a run s, by the last reply it got: the error, unless bytes were
      moved and the error is one that ends a transfer with a short count; the number of
      bytes moved after a count, and when there was nothing to do; none while it runs. */
  ghost predicate Answers(mode: Mode, script: seq<Reply>, s: Summary, r: Result)
    requires s.calls <= |script|
  {
    && (s.outcome == Pending <==> r == Blocked)
    && (s.outcome != Pending && s.calls == 0 ==> r == Value(0))
    && (s.outcome != Pending && s.calls > 0 ==>
          match script[s.calls - 1]
          case Count(_) => r == Value(s.moved)
          case Fail(e) =>
            if s.moved > 0 && (e == EAGAIN || e == EWOULDBLOCK || mode.noError) then r == Value(s.moved)
            else r == UnixError(e))
  }

  lemma RunAnswers(mode: Mode, chunk: nat, wanted: nat, avail: nat, script: seq<Reply>)
    requires chunk > 0 || wanted == 0
    ensures var s := Run(mode, chunk, wanted, avail, script, false);
      s.calls <= |script| && Answers(mode, script, s, ResultOf(s))
  {
    RunStep(mode, chunk, wanted, avail, script, false);
    hide Run;
    if chunk == 0 { return; }
    OutcomeTable(mode, chunk, wanted, avail, script, false);
    EarlierRepliesContinue(mode, chunk, wanted, avail, script, false);
  }

  /** `whole` is the summary of a run that has made `calls` calls and moved
      `processed` bytes, and goes on as `rest`. */
  ghost predicate GoesOn(whole: Summary, processed: nat, calls: nat, rest: Summary) {
    whole == Summary(processed + rest.moved, calls + rest.calls, rest.outcome)
  }

  lemma Start(mode: Mode, chunk: nat, len: nat, avail: nat, script: seq<Reply>, s: Summary)
    requires s == Run(mode, chunk, len, avail, script, false)
    ensures GoesOn(s, 0, 0, s)
    ensures len == 0 ==> s == Summary(0, 0, Returned)
    ensures Bounded(s, len, avail, script)
  {
    RunBounds(mode, chunk, len, avail, script, false);
  }

  /** One turn of the loop, by what the call gave back. */
  lemma Turn(whole: Summary, processed: nat, calls: nat,
             mode: Mode, chunk: nat, len: nat, avail: nat, script: seq<Reply>, ret: Ret)
    requires len > 0 && ret == Respond(script, Min(len, chunk), avail)
    requires GoesOn(whole, processed, calls, Run(mode, chunk, len, avail, script, processed > 0))
    ensures ret.Silent? ==> whole == Summary(processed, calls, Pending)
    ensures ret == Ok(0) ==> whole == Summary(processed, calls + 1, Returned)
    ensures ret.Ok? && ret.n > 0 && (mode.once || ret.n == len) ==>
      whole == Summary(processed + ret.n, calls + 1, Returned)
    ensures ret.Ok? && ret.n > 0 && !mode.once ==>
      GoesOn(whole, processed + ret.n, calls + 1,
             Run(mode, chunk, len - ret.n, avail - ret.n, script[1..], true))
    ensures ret.Error? && Retried(mode, ret.errno) ==>
      GoesOn(whole, processed, calls + 1, Run(mode, chunk, len, avail, script[1..], processed > 0))
    ensures ret.Error? && !Retried(mode, ret.errno) ==>
      whole == Summary(processed, calls + 1,
        if processed > 0 && (Transient(ret.errno) || mode.noError) then Returned else Raised(ret.errno))
  {
    if ret.Ok? && ret.n > 0 && !mode.once {
      var rest := Run(mode, chunk, len - ret.n, avail - ret.n, script[1..], true);
      assert whole == Summary(processed + ret.n + rest.moved, calls + 1 + rest.calls, rest.outcome);
    }
  }
}
