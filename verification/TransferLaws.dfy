/** Laws of the transfer loops over all kernel schedules. */
module TransferLaws {
  import opened Bytes
  import opened Transfer

  // ---- Split independence -----------------------------------------------------

  /** A kernel that never fails: each call moves between one byte and the request,
      until nothing is left. */
  predicate ErrorFree(script: seq<Reply>) {
    forall i :: 0 <= i < |script| ==> script[i].Count? && script[i].n > 0
  }

  /** However the kernel splits the transfer, and whatever the chunk size, a loop
      that is not ONCE moves exactly what is wanted and there. */
  lemma {:induction false} SplitIndependence(
    mode: Mode, chunk: nat, len: nat, avail: nat, script: seq<Reply>, started: bool)
    requires chunk > 0 && !mode.once && ErrorFree(script)
    ensures var s := Run(mode, chunk, len, avail, script, started);
      && !s.outcome.Raised?
      && (s.outcome == Returned ==> s.moved == Min(len, avail))
      && (|script| >= len ==> s.outcome == Returned)
    decreases |script|
  {
    hide Run;
    RunStep(mode, chunk, len, avail, script, started);
    if len > 0 && script != [] {
      var n := Decide(mode, Respond(script, Min(len, chunk), avail), started).n;
      if n > 0 {
        SplitIndependence(mode, chunk, len - n, avail - n, script[1..], true);
      }
    }
  }

  // ---- The drivers ------------------------------------------------------------------

  /** What src/extUnix.pp.ml promises of each driver, for every run. */
  lemma DriverPromises(chunk: nat, len: nat, avail: nat, script: seq<Reply>)
    requires chunk > 0
    ensures forall m :: m == PLAIN || m == INTR ==>
      var s := Run(m, chunk, len, avail, script, false); s.outcome.Raised? ==> s.moved == 0
    ensures var s := Run(ALL, chunk, len, avail, script, false);
      s.outcome.Raised? && s.moved > 0 ==>
        s.outcome.errno != EINTR && s.outcome.errno != EAGAIN && s.outcome.errno != EWOULDBLOCK
    ensures forall m :: m == ALL || m == PLAIN ==>
      var s := Run(m, chunk, len, avail, script, false); s.outcome != Raised(EINTR)
    ensures var s := Run(SINGLE, chunk, len, avail, script, false);
      len > 0 && script != [] ==> s.calls == 1 && s.outcome != Pending && s.moved <= Min(len, chunk)
    ensures forall m: Mode ::
      var s := Run(m, chunk, len, avail, script, false);
      s.outcome == Returned && s.moved == 0 && len > 0 ==>
        0 < s.calls <= |script| && script[s.calls - 1].Count? && (avail == 0 || script[s.calls - 1].n == 0)
    ensures ErrorFree(script) && |script| >= len ==> forall m :: m == ALL || m == PLAIN || m == INTR ==>
      var s := Run(m, chunk, len, avail, script, false); s.outcome == Returned && s.moved == Min(len, avail)
  {
    if ErrorFree(script) && |script| >= len {
      forall m | m == ALL || m == PLAIN || m == INTR
        ensures var s := Run(m, chunk, len, avail, script, false); s.outcome == Returned && s.moved == Min(len, avail)
      {
        SplitIndependence(m, chunk, len, avail, script, false);
      }
    }
    forall m: Mode
      ensures var s := Run(m, chunk, len, avail, script, false);
        && s.calls <= |script|
        && (s.calls == 0 <==> len == 0 || script == [])
        && (s.outcome != Pending && s.calls > 0 ==> EndsOn(m, len, avail, false, s, script[s.calls - 1]))
        && (s.outcome == Pending ==> s.calls == |script|)
    {
      OutcomeTable(m, chunk, len, avail, script, false);
      EarlierRepliesContinue(m, chunk, len, avail, script, false);
    }
  }

  /** A loop that has moved s.moved bytes and gets a count: it goes on until nothing more
      comes or all is there. */
  function Counted(chunk: nat, len: nat, avail: nat, s: Summary, n: nat): Summary
    requires s.moved <= len && s.moved <= avail
  {
    var moved := Min(n, Min(Min(len - s.moved, chunk), avail - s.moved));
    Summary(s.moved + moved, s.calls + 1, if moved == 0 || s.moved + moved == len then Returned else Pending)
  }

  /** What all_ makes of the next reply: it retries EINTR, returns what it has on EAGAIN
      and EWOULDBLOCK, and raises all other errors, also after progress. */
  lemma AllReplies(chunk: nat, len: nat, avail: nat, script: seq<Reply>, last: Reply)
    requires Run(ALL, chunk, len, avail, script, false).outcome == Pending
    ensures var s := Run(ALL, chunk, len, avail, script, false);
      && s.moved <= len && s.moved <= avail
      && Run(ALL, chunk, len, avail, script + [last], false)
         == if last.Count? then Counted(chunk, len, avail, s, last.n)
            else Summary(s.moved, s.calls + 1,
              if last.errno == EINTR then Pending
              else if s.moved > 0 && (last.errno == EAGAIN || last.errno == EWOULDBLOCK) then Returned
              else Raised(last.errno))
  {
    hide Run;
    LastReply(ALL, chunk, len, avail, script, last, false);
  }

  /** The plain functions retry EINTR and raise errors only before the first byte. */
  lemma PlainReplies(chunk: nat, len: nat, avail: nat, script: seq<Reply>, last: Reply)
    requires Run(PLAIN, chunk, len, avail, script, false).outcome == Pending
    ensures var s := Run(PLAIN, chunk, len, avail, script, false);
      && s.moved <= len && s.moved <= avail
      && Run(PLAIN, chunk, len, avail, script + [last], false)
         == if last.Count? then Counted(chunk, len, avail, s, last.n)
            else Summary(s.moved, s.calls + 1,
              if last.errno == EINTR then Pending else if s.moved > 0 then Returned else Raised(last.errno))
  {
    hide Run;
    LastReply(PLAIN, chunk, len, avail, script, last, false);
  }

  /** intr_ does not retry: EINTR is an error like the others. */
  lemma IntrReplies(chunk: nat, len: nat, avail: nat, script: seq<Reply>, last: Reply)
    requires Run(INTR, chunk, len, avail, script, false).outcome == Pending
    ensures var s := Run(INTR, chunk, len, avail, script, false);
      && s.moved <= len && s.moved <= avail
      && Run(INTR, chunk, len, avail, script + [last], false)
         == if last.Count? then Counted(chunk, len, avail, s, last.n)
            else Summary(s.moved, s.calls + 1,
              if s.moved > 0 then Returned else Raised(last.errno))
  {
    hide Run;
    LastReply(INTR, chunk, len, avail, script, last, false);
  }

  /** single_ is over after its first reply, whatever it is. */
  lemma SingleReplies(chunk: nat, len: nat, avail: nat, script: seq<Reply>)
    requires len > 0 && script != []
    ensures Run(SINGLE, chunk, len, avail, script, false)
      == if script[0].Fail? then Summary(0, 1, Raised(script[0].errno))
         else Summary(Min(script[0].n, Min(Min(len, chunk), avail)), 1, Returned)
  {
    RunStep(SINGLE, chunk, len, avail, script, false);
  }

  // ---- The chunked and the direct loop ------------------------------------------

  /** The same kernel, offering at most `chunk` bytes a call. */
  function Clamped(script: seq<Reply>, chunk: nat): (r: seq<Reply>)
    ensures |r| == |script|
  {
    seq(|script|, i requires 0 <= i < |script| =>
      if script[i].Count? then Count(Min(script[i].n, chunk)) else script[i])
  }

  lemma ClampedStep(script: seq<Reply>, chunk: nat, whole: nat, len: nat, avail: nat)
    requires len <= whole && script != []
    ensures Respond(Clamped(script, chunk), Min(len, whole), avail) == Respond(script, Min(len, chunk), avail)
    ensures Clamped(script, chunk)[1..] == Clamped(script[1..], chunk)
  {
  }

  /** Every run of the chunked loop, failing or not, in any mode, is the run of the
      direct loop against a kernel that offers less. */
  lemma {:induction false} ChunkedRefinesDirect(
    mode: Mode, chunk: nat, whole: nat, len: nat, avail: nat, script: seq<Reply>, started: bool)
    requires len <= whole
    ensures Run(mode, chunk, len, avail, script, started)
         == Run(mode, whole, len, avail, Clamped(script, chunk), started)
    decreases |script|
  {
    hide Run, Respond, Decide, Clamped;
    RunStep(mode, chunk, len, avail, script, started);
    RunStep(mode, whole, len, avail, Clamped(script, chunk), started);
    if len > 0 && script != [] {
      ClampedStep(script, chunk, whole, len, avail);
      var a := Decide(mode, Respond(script, Min(len, chunk), avail), started);
      if a.GoOn? {
        ChunkedRefinesDirect(mode, chunk, whole, len - a.n, avail - a.n, script[1..], started || a.n > 0);
      }
    }
  }

  /** n bytes in calls of at most `chunk`. */
  function Pieces(n: nat, chunk: nat): (r: seq<Reply>)
    requires chunk > 0
    ensures n > 0 ==> r != []
    decreases n
  {
    if n == 0 then [] else if n <= chunk then [Count(n)] else [Count(chunk)] + Pieces(n - chunk, chunk)
  }

  lemma {:induction false} RunPieces(
    mode: Mode, chunk: nat, n: nat, len: nat, avail: nat, rest: seq<Reply>, started: bool)
    requires chunk > 0 && !mode.once && 0 < n <= len && n <= avail
    ensures var s := Run(mode, chunk, len, avail, Pieces(n, chunk) + rest, started);
      var t := Run(mode, chunk, len - n, avail - n, rest, true);
      s.moved == n + t.moved && s.outcome == t.outcome
    decreases n
  {
    hide Run;
    var script := Pieces(n, chunk) + rest;
    var piece := Min(n, chunk);
    RunStep(mode, chunk, len, avail, script, started);
    assert script[0] == Count(piece);
    assert script[1..] == Pieces(n - piece, chunk) + rest;
    if n > chunk {
      RunPieces(mode, chunk, n - piece, len - piece, avail - piece, rest, true);
    } else {
      assert Pieces(0, chunk) + rest == rest;
    }
  }

  /** A call that moves nothing gives back the same whatever was requested. */
  lemma NothingMovedAlike(chunk: nat, whole: nat, len: nat, avail: nat, script: seq<Reply>, script': seq<Reply>)
    requires 0 < chunk && 0 < len <= whole && script != [] && script' != [] && script'[0] == script[0]
    requires Moved(Respond(script, Min(len, whole), avail)) == 0
    ensures Respond(script', Min(len, chunk), avail) == Respond(script, Min(len, whole), avail)
  {
  }

  /** Conversely every run of the direct loop that is not ONCE has a chunked run that
      moves as much and ends the same way: bounding `iobuf` is not observable. */
  lemma {:induction false} DirectRefinesChunked(
    mode: Mode, chunk: nat, whole: nat, len: nat, avail: nat, script: seq<Reply>, started: bool)
    returns (split: seq<Reply>)
    requires 0 < chunk && len <= whole && !mode.once
    ensures var s := Run(mode, chunk, len, avail, split, started);
      var d := Run(mode, whole, len, avail, script, started);
      s.moved == d.moved && s.outcome == d.outcome
    decreases |script|
  {
    hide Run, Respond, Pieces;
    split := script;
    RunStep(mode, chunk, len, avail, script, started);
    RunStep(mode, whole, len, avail, script, started);
    if len > 0 && script != [] {
      match Decide(mode, Respond(script, Min(len, whole), avail), started)
      case Stop(n, o) =>
        NothingMovedAlike(chunk, whole, len, avail, script, script);
      case GoOn(n) =>
        var rest := DirectRefinesChunked(mode, chunk, whole, len - n, avail - n, script[1..], started || n > 0);
        if n == 0 {
          split := [script[0]] + rest;
          assert split[1..] == rest;
          NothingMovedAlike(chunk, whole, len, avail, script, split);
          RunStep(mode, chunk, len, avail, split, started);
        } else {
          split := Pieces(n, chunk) + rest;
          RunPieces(mode, chunk, n, len, avail, rest, started);
        }
    }
  }

  /** In ONCE mode the bound is observable: a single read of the string form stops at
      `iobuf` where the bigarray form does not. They agree just when the call would not
      have moved more than `chunk` bytes. */
  lemma OnceAgreesIff(chunk: nat, whole: nat, len: nat, avail: nat, script: seq<Reply>)
    requires 0 < chunk && 0 < whole && len <= whole
    ensures Run(SINGLE, chunk, len, avail, script, false) == Run(SINGLE, whole, len, avail, script, false)
      <==> (len > 0 && script != [] && script[0].Count? ==> Served(script[0].n, len, avail) <= chunk)
  {
  }

  // ---- EINTR ----------------------------------------------------------------------

  function WithoutEintr(script: seq<Reply>): (r: seq<Reply>)
    ensures |r| <= |script|
    ensures Fail(EINTR) !in r
  {
    if script == [] then []
    else if script[0] == Fail(EINTR) then WithoutEintr(script[1..])
    else [script[0]] + WithoutEintr(script[1..])
  }

  lemma WithoutEintrStep(script: seq<Reply>, requested: nat, avail: nat)
    requires script != []
    ensures script[0] == Fail(EINTR) ==> WithoutEintr(script) == WithoutEintr(script[1..])
    ensures script[0] != Fail(EINTR) ==>
      && WithoutEintr(script) != []
      && WithoutEintr(script)[1..] == WithoutEintr(script[1..])
      && Respond(WithoutEintr(script), requested, avail) == Respond(script, requested, avail)
  {
  }

  /** Under NOINTR, interruptions stutter: they change neither what is moved nor the
      outcome, wherever and however often they come. */
  lemma {:induction false} EintrStutters(
    mode: Mode, chunk: nat, len: nat, avail: nat, script: seq<Reply>, started: bool)
    requires mode.noIntr
    ensures var s := Run(mode, chunk, len, avail, script, started);
      var t := Run(mode, chunk, len, avail, WithoutEintr(script), started);
      s.moved == t.moved && s.outcome == t.outcome && t.calls <= s.calls
    decreases |script|
  {
    hide Run, WithoutEintr;
    RunStep(mode, chunk, len, avail, script, started);
    RunStep(mode, chunk, len, avail, WithoutEintr(script), started);
    if script == [] {
      assert WithoutEintr([]) == [];
    } else {
      WithoutEintrStep(script, Min(len, chunk), avail);
      if len > 0 {
        var n := Decide(mode, Respond(script, Min(len, chunk), avail), started).n;
        EintrStutters(mode, chunk, len - n, avail - n, script[1..], started || n > 0);
      }
    }
  }

  /** Two schedules that differ only in interruptions are indistinguishable. */
  lemma EintrInsertion(mode: Mode, chunk: nat, len: nat, avail: nat, script: seq<Reply>, script': seq<Reply>)
    requires mode.noIntr && WithoutEintr(script) == WithoutEintr(script')
    ensures var s := Run(mode, chunk, len, avail, script, false);
      var t := Run(mode, chunk, len, avail, script', false);
      s.moved == t.moved && s.outcome == t.outcome
  {
    EintrStutters(mode, chunk, len, avail, script, false);
    EintrStutters(mode, chunk, len, avail, script', false);
  }

  // ---- Cost and termination ---------------------------------------------------------

  /** The interruptions a loop retries on. */
  function Retries(mode: Mode, script: seq<Reply>): nat {
    if mode.noIntr then |script| - |WithoutEintr(script)| else 0
  }

  /** At most one call a byte plus the retries; a kernel that answers that often
      has seen the loop end. */
  lemma {:induction false} CallBound(mode: Mode, chunk: nat, len: nat, avail: nat, script: seq<Reply>, started: bool)
    ensures var s := Run(mode, chunk, len, avail, script, started);
      && s.calls <= len + Retries(mode, script)
      && (|script| >= len + Retries(mode, script) ==> s.outcome != Pending)
    decreases |script|
  {
    hide Run;
    RunStep(mode, chunk, len, avail, script, started);
    if len > 0 && script != [] {
      var n := Decide(mode, Respond(script, Min(len, chunk), avail), started).n;
      CallBound(mode, chunk, len - n, avail - n, script[1..], started || n > 0);
    }
  }

  /** n / d rounded up: the least r with n <= r * d. */
  function CeilDiv(n: nat, d: nat): (r: nat)
    requires d > 0
    ensures n <= r * d
    ensures n > 0 ==> (r - 1) * d < n
  {
    if n == 0 then 0 else if n <= d then 1 else 1 + CeilDiv(n - d, d)
  }

  /** A kernel that serves every request in full is called ceil(len / chunk) times. */
  lemma {:induction false} FullServiceCost(
    mode: Mode, chunk: nat, len: nat, avail: nat, script: seq<Reply>, started: bool)
    requires chunk > 0 && !mode.once && avail >= len
    requires forall i :: 0 <= i < |script| ==> script[i].Count? && script[i].n >= chunk
    requires |script| >= CeilDiv(len, chunk)
    ensures Run(mode, chunk, len, avail, script, started) == Summary(len, CeilDiv(len, chunk), Returned)
    decreases |script|
  {
    hide Run;
    RunStep(mode, chunk, len, avail, script, started);
    if len > 0 {
      var n := Min(len, chunk);
      FullServiceCost(mode, chunk, len - n, avail - n, script[1..], true);
    }
  }

  // ---- all_ returning 0 ----------------------------------------------------------------

  /** When an `all_` call returns 0: nothing was wanted, or the first answer that is not
      EINTR offers nothing or finds nothing there. For a write `avail` is `len`. */
  lemma AllReturnsZeroIff(chunk: nat, len: nat, avail: nat, script: seq<Reply>)
    requires chunk > 0
    ensures var s, answers := Run(ALL, chunk, len, avail, script, false), WithoutEintr(script);
      s.outcome == Returned && s.moved == 0
      <==> len == 0 || (answers != [] && answers[0].Count? && (answers[0].n == 0 || avail == 0))
  {
    EintrStutters(ALL, chunk, len, avail, script, false);
  }

  /** The documentation says that the `all_` writers never return 0. They do when the
      kernel accepts no byte at all, and when there is nothing to write. */
  lemma AllWriteCanReturnZero()
    ensures Run(ALL, 65536, 1, 1, [Count(0)], false) == Summary(0, 1, Returned)
  {
  }

  /** It says that all_pread returns 0 at the end of the file only. It does so anywhere
      when nothing is to be read, without a call; with something to read and a kernel
      that offers some, the end of the file is the only reason. */
  lemma AllReadReturnsZero(chunk: nat, len: nat, avail: nat, script: seq<Reply>)
    requires chunk > 0
    requires forall i :: 0 <= i < |script| && script[i].Count? ==> script[i].n > 0
    ensures Run(ALL, chunk, 0, avail, script, false) == Summary(0, 0, Returned)
    ensures var s := Run(ALL, chunk, len, avail, script, false);
      len > 0 && s.outcome == Returned && s.moved == 0 ==> avail == 0
  {
    AllReturnsZeroIff(chunk, len, avail, script);
    WithoutEintrKeeps(script);
  }

  lemma {:induction false} WithoutEintrKeeps(script: seq<Reply>)
    ensures forall r | r in WithoutEintr(script) :: r in script
  {
    if script != [] {
      WithoutEintrKeeps(script[1..]);
    }
  }
}
