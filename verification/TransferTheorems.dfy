/** What the loops' control and their copies mean together: the laws callers rely on. */
module TransferTheorems {
  import opened Bytes
  import opened Transfer
  import opened TransferLaws
  import opened Posix

  // ---- What a call answers -------------------------------------------------------------

  /** The answers of the loops at an offset. */
  lemma FileAnswers(mode: Mode, chunk: nat, file: seq<byte>, at: nat, buf: seq<byte>, start: nat, wanted: nat,
                    script: seq<Reply>)
    requires start + wanted <= |buf| && (chunk > 0 || wanted == 0)
    ensures var s := Run(mode, chunk, wanted, Available(file, at), script, false);
      s.calls <= |script| && Answers(mode, script, s, PreadEffect(mode, chunk, file, at, buf, start, wanted, script).0)
    ensures var s := Run(mode, chunk, wanted, wanted, script, false);
      s.calls <= |script| && Answers(mode, script, s, PwriteEffect(mode, chunk, file, at, buf, start, wanted, script).0)
  {
    hide Run, Answers, ResultOf;
    RunAnswers(mode, chunk, wanted, Available(file, at), script);
    RunAnswers(mode, chunk, wanted, wanted, script);
  }

  /** The answers of the loops on streams. */
  lemma StreamAnswers(mode: Mode, chunk: nat, stream: seq<byte>, buf: seq<byte>, start: nat, wanted: nat,
                      script: seq<Reply>)
    requires start + wanted <= |buf| && (chunk > 0 || wanted == 0)
    ensures var s := Run(mode, chunk, wanted, |stream|, script, false);
      s.calls <= |script| && Answers(mode, script, s, ReadEffect(mode, chunk, stream, buf, start, wanted, script).0)
    ensures var s := Run(mode, chunk, wanted, wanted, script, false);
      s.calls <= |script| && Answers(mode, script, s, WriteEffect(mode, chunk, stream, buf, start, wanted, script).0)
  {
    hide Run, Answers, ResultOf;
    RunAnswers(mode, chunk, wanted, |stream|, script);
    RunAnswers(mode, chunk, wanted, wanted, script);
  }

  /** An error in the first call is raised by all eight loops, with its errno, unless it
      is an interruption that is retried. */
  lemma FirstErrorIsRaised(mode: Mode, chunk: nat, contents: seq<byte>, at: nat, buf: seq<byte>, start: nat,
                           wanted: nat, e: Errno, rest: seq<Reply>)
    requires start + wanted <= |buf| && chunk > 0 && wanted > 0 && !(e == EINTR && mode.noIntr)
    ensures var script := [Fail(e)] + rest;
      && PreadEffect(mode, chunk, contents, at, buf, start, wanted, script).0 == UnixError(e)
      && PwriteEffect(mode, chunk, contents, at, buf, start, wanted, script).0 == UnixError(e)
      && ReadEffect(mode, chunk, contents, buf, start, wanted, script).0 == UnixError(e)
      && WriteEffect(mode, chunk, contents, buf, start, wanted, script).0 == UnixError(e)
  {
    var script := [Fail(e)] + rest;
    assert script[0] == Fail(e);
    forall avail: nat ensures ResultOf(Run(mode, chunk, wanted, avail, script, false)) == UnixError(e) {
      RunStep(mode, chunk, wanted, avail, script, false);
    }
    hide Run;
  }

  // ---- Exactness ------------------------------------------------------------------

  /** However a read ends, the buffer holds the file's bytes in a prefix of the window
      and its own old bytes everywhere else; a returned value is the prefix's length. */
  lemma ReadExact(mode: Mode, chunk: nat, file: seq<byte>, at: nat, buf: seq<byte>, start: nat, wanted: nat,
                  script: seq<Reply>) returns (p: nat)
    requires start + wanted <= |buf|
    ensures var (r, after) := PreadEffect(mode, chunk, file, at, buf, start, wanted, script);
      && p <= wanted && p <= Available(file, at)
      && (r.Value? ==> r.n == p)
      && |after| == |buf|
      && (forall i :: start <= i < start + p ==> after[i] == file[at + i - start])
      && (forall i :: 0 <= i < |buf| && !(start <= i < start + p) ==> after[i] == buf[i])
  {
    hide Run;
    RunBounds(mode, chunk, wanted, Available(file, at), script, false);
    p := Run(mode, chunk, wanted, Available(file, at), script, false).moved;
    SpliceBytes(buf, start, Region(file, at, p));
  }

  /** However a write ends, the file holds a prefix of the window at `at`, its own old
      bytes everywhere else, and zeros in the gap a write past the end leaves. */
  lemma WriteExact(mode: Mode, chunk: nat, file: seq<byte>, at: nat, buf: seq<byte>, start: nat, wanted: nat,
                   script: seq<Reply>) returns (p: nat)
    requires start + wanted <= |buf|
    ensures var (r, after) := PwriteEffect(mode, chunk, file, at, buf, start, wanted, script);
      && p <= wanted
      && (r.Value? ==> r.n == p)
      && (p == 0 ==> after == file)
      && (p > 0 ==> |after| == Max(|file|, at + p))
      && (forall i :: at <= i < at + p ==> after[i] == buf[start + i - at])
      && (forall i :: 0 <= i < |after| && !(at <= i < at + p) ==> after[i] == if i < |file| then file[i] else 0)
  {
    hide Run, WriteAt;
    RunBounds(mode, chunk, wanted, wanted, script, false);
    p := Run(mode, chunk, wanted, wanted, script, false).moved;
    if p == 0 {
      NothingWritten(file, at);
      assert Slice(buf, start, 0) == [];
    } else {
      WriteAtBytes(file, at, Slice(buf, start, p));
    }
  }

  // ---- Split independence and refinement --------------------------------------------

  /** Against a kernel that does not fail, every loop that is not ONCE reads
      min(wanted, what the file has), whatever the splits and the chunk size. */
  lemma FullPread(mode: Mode, chunk: nat, file: seq<byte>, at: nat, buf: seq<byte>, start: nat, wanted: nat,
                  script: seq<Reply>)
    requires start + wanted <= |buf|
    requires chunk > 0 && !mode.once && ErrorFree(script) && |script| >= wanted
    ensures var p := Min(wanted, Available(file, at));
      PreadEffect(mode, chunk, file, at, buf, start, wanted, script)
      == (Value(p), Splice(buf, start, Region(file, at, p)))
  {
    hide Run;
    SplitIndependence(mode, chunk, wanted, Available(file, at), script, false);
  }

  /** Hence the string loop with any `iobuf` and the bigarray loop agree, on
      independent schedules. */
  lemma StringAgreesWithBigarray(mode: Mode, mode': Mode, bufferSize: nat, file: seq<byte>, at: nat,
                                 buf: seq<byte>, script: seq<Reply>, script': seq<Reply>)
    requires bufferSize > 0 && !mode.once && !mode'.once
    requires ErrorFree(script) && |script| >= |buf| && ErrorFree(script') && |script'| >= |buf|
    ensures PreadEffect(mode, bufferSize, file, at, buf, 0, |buf|, script)
         == PreadEffect(mode', |buf|, file, at, buf, 0, |buf|, script')
  {
    hide Run;
    FullPread(mode, bufferSize, file, at, buf, 0, |buf|, script);
    if |buf| > 0 {
      FullPread(mode', |buf|, file, at, buf, 0, |buf|, script');
    } else {
      RunStep(mode', 0, 0, Available(file, at), script', false);
    }
  }

  /** Errors included: whatever the kernel answers the string loop, there is a kernel
      that makes the bigarray loop leave the same value, or raise the same error, with
      the same bytes in place; and the other way round outside ONCE mode. `stream` is
      what a read has before it or a write has sent. */
  lemma StringRefinesBigarray(mode: Mode, bufferSize: nat, file: seq<byte>, at: nat, stream: seq<byte>,
                              buf: seq<byte>, script: seq<Reply>)
    ensures PreadEffect(mode, bufferSize, file, at, buf, 0, |buf|, script)
         == PreadEffect(mode, |buf|, file, at, buf, 0, |buf|, Clamped(script, bufferSize))
    ensures PwriteEffect(mode, bufferSize, file, at, buf, 0, |buf|, script)
         == PwriteEffect(mode, |buf|, file, at, buf, 0, |buf|, Clamped(script, bufferSize))
    ensures ReadEffect(mode, bufferSize, stream, buf, 0, |buf|, script)
         == ReadEffect(mode, |buf|, stream, buf, 0, |buf|, Clamped(script, bufferSize))
    ensures WriteEffect(mode, bufferSize, stream, buf, 0, |buf|, script)
         == WriteEffect(mode, |buf|, stream, buf, 0, |buf|, Clamped(script, bufferSize))
  {
    hide Run;
    ChunkedRefinesDirect(mode, bufferSize, |buf|, |buf|, Available(file, at), script, false);
    ChunkedRefinesDirect(mode, bufferSize, |buf|, |buf|, |buf|, script, false);
    ChunkedRefinesDirect(mode, bufferSize, |buf|, |buf|, |stream|, script, false);
  }

  lemma BigarrayRefinesString(mode: Mode, bufferSize: nat, file: seq<byte>, at: nat, stream: seq<byte>,
                              buf: seq<byte>, script: seq<Reply>)
    returns (fileSplit: seq<Reply>, streamSplit: seq<Reply>, outSplit: seq<Reply>)
    requires bufferSize > 0 && !mode.once
    ensures PreadEffect(mode, bufferSize, file, at, buf, 0, |buf|, fileSplit)
         == PreadEffect(mode, |buf|, file, at, buf, 0, |buf|, script)
    ensures ReadEffect(mode, bufferSize, stream, buf, 0, |buf|, streamSplit)
         == ReadEffect(mode, |buf|, stream, buf, 0, |buf|, script)
    ensures PwriteEffect(mode, bufferSize, file, at, buf, 0, |buf|, outSplit)
         == PwriteEffect(mode, |buf|, file, at, buf, 0, |buf|, script)
    ensures WriteEffect(mode, bufferSize, stream, buf, 0, |buf|, outSplit)
         == WriteEffect(mode, |buf|, stream, buf, 0, |buf|, script)
  {
    hide Run;
    fileSplit := DirectRefinesChunked(mode, bufferSize, |buf|, |buf|, Available(file, at), script, false);
    streamSplit := DirectRefinesChunked(mode, bufferSize, |buf|, |buf|, |stream|, script, false);
    outSplit := DirectRefinesChunked(mode, bufferSize, |buf|, |buf|, |buf|, script, false);
  }

  // ---- Write, then read ----------------------------------------------------------------

  /** What a written region reads back as, byte for byte. */
  lemma ReadBack(file: seq<byte>, at: nat, data: seq<byte>, n: nat)
    requires n <= |data|
    ensures |data| > 0 ==> Available(WriteAt(file, at, data), at) >= |data|
    ensures n <= Available(WriteAt(file, at, data), at)
    ensures Region(WriteAt(file, at, data), at, n) == Slice(data, 0, n)
  {
    if data == [] {
      NothingWritten(file, at);
    } else {
      hide WriteAt;
      WriteAtBytes(file, at, data);
    }
  }

  /** After a pwrite that returned the full length, any read at the same place gets the
      written bytes, as many as it moves, and a full read gets them all. The two sides
      have their own modes, chunk sizes and schedules. */
  lemma WriteReadRoundTrip(
    file: seq<byte>, at: nat, src: seq<byte>, start: nat, wanted: nat, wmode: Mode, wchunk: nat, sent: seq<Reply>,
    dst: seq<byte>, start': nat, rmode: Mode, rchunk: nat, got: seq<Reply>)
    requires start + wanted <= |src| && start' + wanted <= |dst|
    requires PwriteEffect(wmode, wchunk, file, at, src, start, wanted, sent).0 == Value(wanted)
    ensures var file' := PwriteEffect(wmode, wchunk, file, at, src, start, wanted, sent).1;
      var (r, dst') := PreadEffect(rmode, rchunk, file', at, dst, start', wanted, got);
      && (r.Value? ==> r.n <= wanted && Slice(dst', start', r.n) == Slice(src, start, r.n))
      && (rchunk > 0 && !rmode.once && ErrorFree(got) && |got| >= wanted ==>
            r == Value(wanted) && Slice(dst', start', wanted) == Slice(src, start, wanted))
  {
    hide Run, Splice, WriteAt;
    RunBounds(wmode, wchunk, wanted, wanted, sent, false);
    var data := Slice(src, start, wanted);
    var file' := WriteAt(file, at, data);
    RunBounds(rmode, rchunk, wanted, Available(file', at), got, false);
    var p := Run(rmode, rchunk, wanted, Available(file', at), got, false).moved;
    ReadBack(file, at, data, p);
    ReadBack(file, at, data, wanted);
    SliceOfSplice(dst, start', Region(file', at, p), p);
    SliceSlice(src, start, wanted, p);
    assert Slice(Region(file', at, p), 0, p) == Slice(src, start, p);
    if rchunk > 0 && !rmode.once && ErrorFree(got) && |got| >= wanted {
      FullPread(rmode, rchunk, file', at, dst, start', wanted, got);
    }
  }

  // ---- Streams ----------------------------------------------------------------------------

  /** However a read of a stream ends, the bytes it put in the window followed by the rest
      of the stream are the stream, and the buffer is its old self elsewhere. */
  lemma StreamConserved(mode: Mode, chunk: nat, input: seq<byte>, buf: seq<byte>, start: nat, wanted: nat,
                        script: seq<Reply>) returns (p: nat)
    requires start + wanted <= |buf|
    ensures var (r, after, rest) := ReadEffect(mode, chunk, input, buf, start, wanted, script);
      && p <= wanted
      && (r.Value? ==> r.n == p)
      && |after| == |buf|
      && Slice(after, start, p) + rest == input
      && (forall i :: 0 <= i < |buf| && !(start <= i < start + p) ==> after[i] == buf[i])
  {
    hide Run, Splice;
    RunBounds(mode, chunk, wanted, |input|, script, false);
    p := Run(mode, chunk, wanted, |input|, script, false).moved;
    SliceOfSplice(buf, start, Region(input, 0, p), p);
    SpliceBytes(buf, start, Region(input, 0, p));
  }

  /** However a write to a stream ends, the sink has grown by a prefix of the window. */
  lemma SinkGrowsByPrefix(mode: Mode, chunk: nat, output: seq<byte>, buf: seq<byte>, start: nat, wanted: nat,
                          script: seq<Reply>) returns (p: nat)
    requires start + wanted <= |buf|
    ensures var (r, after) := WriteEffect(mode, chunk, output, buf, start, wanted, script);
      && p <= wanted
      && (r.Value? ==> r.n == p)
      && after == output + buf[start..start + p]
  {
    hide Run;
    RunBounds(mode, chunk, wanted, wanted, script, false);
    p := Run(mode, chunk, wanted, wanted, script, false).moved;
  }

  // ---- Resuming after a short count -----------------------------------------------------------

  /**
   * A pwrite that returned p, and a second one, in any mode and on any schedule,
   * for the rest of the window at the advanced offsets: together they leave the file one
   * write of p + q bytes leaves, q being what the second moved. If that is all that was
   * wanted, the file is the one an uninterrupted pwrite leaves.
   */
  lemma ResumedPwrite(
    file: seq<byte>, at: nat, buf: seq<byte>, start: nat, wanted: nat, mode: Mode, chunk: nat, script: seq<Reply>,
    p: nat, mode': Mode, chunk': nat, script': seq<Reply>) returns (q: nat)
    requires start + wanted <= |buf|
    requires PwriteEffect(mode, chunk, file, at, buf, start, wanted, script).0 == Value(p)
    ensures p <= wanted && q <= wanted - p
    ensures var file' := PwriteEffect(mode, chunk, file, at, buf, start, wanted, script).1;
      var (r, file'') := PwriteEffect(mode', chunk', file', at + p, buf, start + p, wanted - p, script');
      && (r.Value? ==> r.n == q)
      && file'' == WriteAt(file, at, Slice(buf, start, p + q))
      && forall m, c, one ::
           PwriteEffect(m, c, file, at, buf, start, wanted, one).0 == Value(wanted) && q == wanted - p ==>
           file'' == PwriteEffect(m, c, file, at, buf, start, wanted, one).1
  {
    hide Run, WriteAt, Slice;
    RunBounds(mode, chunk, wanted, wanted, script, false);
    RunBounds(mode', chunk', wanted - p, wanted - p, script', false);
    q := Run(mode', chunk', wanted - p, wanted - p, script', false).moved;
    SliceAppend(buf, start, p, q);
    WriteAtAppend(file, at, Slice(buf, start, p), Slice(buf, start + p, q));
  }

  /**
   * The same of two preads. If the second meets a kernel that does not fail and is not
   * ONCE, the two leave the buffer an uninterrupted pread leaves.
   */
  lemma ResumedPread(
    file: seq<byte>, at: nat, buf: seq<byte>, start: nat, wanted: nat, mode: Mode, chunk: nat, script: seq<Reply>,
    p: nat, mode': Mode, chunk': nat, script': seq<Reply>) returns (q: nat)
    requires start + wanted <= |buf|
    requires PreadEffect(mode, chunk, file, at, buf, start, wanted, script).0 == Value(p)
    ensures p <= wanted && q <= wanted - p && p + q <= Available(file, at)
    ensures var buf' := PreadEffect(mode, chunk, file, at, buf, start, wanted, script).1;
      var (r, buf'') := PreadEffect(mode', chunk', file, at + p, buf', start + p, wanted - p, script');
      && (r.Value? ==> r.n == q)
      && buf'' == Splice(buf, start, Region(file, at, p + q))
      && (chunk' > 0 && !mode'.once && ErrorFree(script') && |script'| >= wanted - p ==>
            p + q == Min(wanted, Available(file, at)) && r == Value(q))
  {
    hide Run, Splice, Region;
    RunBounds(mode, chunk, wanted, Available(file, at), script, false);
    RunBounds(mode', chunk', wanted - p, Available(file, at + p), script', false);
    q := Run(mode', chunk', wanted - p, Available(file, at + p), script', false).moved;
    ReadOn(buf, start, file, at, p, q, seq(q, i => 0));
    if chunk' > 0 && !mode'.once && ErrorFree(script') && |script'| >= wanted - p {
      SplitIndependence(mode', chunk', wanted - p, Available(file, at + p), script', false);
    }
  }

  /** The same of two reads of a stream: one window filled, one stream consumed. */
  lemma ResumedRead(
    input: seq<byte>, buf: seq<byte>, start: nat, wanted: nat, mode: Mode, chunk: nat, script: seq<Reply>,
    p: nat, mode': Mode, chunk': nat, script': seq<Reply>) returns (q: nat)
    requires start + wanted <= |buf|
    requires ReadEffect(mode, chunk, input, buf, start, wanted, script).0 == Value(p)
    ensures p <= wanted && q <= wanted - p && p + q <= |input|
    ensures var (_, buf', input') := ReadEffect(mode, chunk, input, buf, start, wanted, script);
      var (r, buf'', input'') := ReadEffect(mode', chunk', input', buf', start + p, wanted - p, script');
      && (r.Value? ==> r.n == q)
      && buf'' == Splice(buf, start, Region(input, 0, p + q))
      && input'' == Unread(input, p + q)
  {
    hide Run, Splice, Region, Unread;
    RunBounds(mode, chunk, wanted, |input|, script, false);
    var input' := Unread(input, p);
    RunBounds(mode', chunk', wanted - p, |input'|, script', false);
    q := Run(mode', chunk', wanted - p, |input'|, script', false).moved;
    UnreadOn(input, p, q);
    ReadOn(buf, start, input, 0, p, q, seq(q, i => 0));
  }

  /** The same of two writes to a stream. */
  lemma ResumedWrite(
    output: seq<byte>, buf: seq<byte>, start: nat, wanted: nat, mode: Mode, chunk: nat, script: seq<Reply>,
    p: nat, mode': Mode, chunk': nat, script': seq<Reply>) returns (q: nat)
    requires start + wanted <= |buf|
    requires WriteEffect(mode, chunk, output, buf, start, wanted, script).0 == Value(p)
    ensures p <= wanted && q <= wanted - p
    ensures var output' := WriteEffect(mode, chunk, output, buf, start, wanted, script).1;
      var (r, output'') := WriteEffect(mode', chunk', output', buf, start + p, wanted - p, script');
      && (r.Value? ==> r.n == q)
      && output'' == output + buf[start..start + p + q]
  {
    hide Run, Sent, Slice;
    RunBounds(mode, chunk, wanted, wanted, script, false);
    RunBounds(mode', chunk', wanted - p, wanted - p, script', false);
    q := Run(mode', chunk', wanted - p, wanted - p, script', false).moved;
    SliceAppend(buf, start, p, q);
    SentOn(output, Slice(buf, start, p), Slice(buf, start + p, q));
    SentSlice(output, buf, start, p + q);
  }

  lemma SentSlice(output: seq<byte>, buf: seq<byte>, start: nat, n: nat)
    requires start + n <= |buf|
    ensures Sent(output, Slice(buf, start, n)) == output + buf[start..start + n]
  {
  }
}
