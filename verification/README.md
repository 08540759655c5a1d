# Verified models of extunix

extunix binds POSIX system calls for OCaml. Most of its functions are thin; this
project models the parts that compute something, and proves what callers rely on.

- **Transfer loops** (`OCamlInt`, `Bytes`, `Transfer`, `TransferLaws`, `Posix`, `Unistd`,
  `PreadPwriteBa`, `TransferTheorems`, `ExtUnixIo`). The eight `while (len > 0)` loops
  behind `pread`, `pwrite`, `read` and `write`, for strings (through a bounded `iobuf`)
  and for bigarrays (directly). The kernel is a script of answers: each call moves up to
  some number of bytes, possibly none, or fails with an errno. A script is a finite
  prefix of what a kernel does; a loop that has used it up is still inside a system call
  (`Pending`, `Blocked`), so the theorems speak of every moment of every run, endless
  ones included. `Run` gives the bytes moved, the calls made and the ending; the methods
  are proved to do exactly that to the buffer, the file, the stream and the script.
- **Endian codecs** (`Endian`, `EndianLaws`, `EndianTheorems`). The CONV, GET and SET
  macros as compositions of a host-order copy, a conditional byte swap, C's integer
  conversions and OCaml's tag, with the host's byte order a parameter.
- **The `[%%have]` rewriter** (`HaveCondition`, `HaveStub`, `HaveStages`, `HaveExpand`,
  `HaveTheorems`, `HaveWritten`, `HaveTable`). Conditions with their short-circuit evaluation, stubs
  with typing and labelled application, at once and in stages, the expansion into All
  and Specific, what is written item by item, and the table behind `have`.
- **Smaller algorithms** (`SizePrinter`, `Rlimit`, `Readlink`, `Syslog`).

Loops and objects that the source updates in place are methods and classes here, each
tied by its `ensures` to a function about which the lemmas are proved.

Where documentation and code differ the code is modelled:

- the comments in `src/extUnix.pp.ml:386-394` say that `all_pwrite` never returns 0. It
  does when the kernel accepts no byte, and when nothing is to be written
  (`AllReturnsZeroIff`, `AllWriteCanReturnZero`);
- the comments in `src/extUnix.pp.ml:316-325` say that `all_pread` returns 0 at the end
  of the file only. It also does when nothing is to be read (`AllReadReturnsZero`);
- the comments in `src/extUnix.pp.ml:3048-3051` say that `have` tells whether a function
  is available. It denies one that Specific has when the last section declaring the
  name does not hold but another declaration of it, in an earlier section or outside
  sections, is there (`HaveTellsTruthIff`, `HaveCanDeny`, `HaveCanDenyUnguarded`). The
  repository has such names: without the feature ENDIAN, `unsafe_get_uint8` is denied
  (`src/extUnix.pp.ml:1549`) and bound in HostEndian (`src/extUnix.pp.ml:1918`);
- `[@have ...]` on a constructor takes effect only if the constructor has no other
  attribute (`ppx_have/ppx_have.ml:101-111`): with a documentation comment it keeps its
  name even where it is missing (`MissingIsRenamedIff`).

`setlogmask` follows POSIX in leaving the mask alone when it is given an empty one.

`dafny verify dfyconfig.toml` checks the project.

## Model

| member | source | states |
|---|---|---|
| Transfer.OutcomeTable | src/unistd.c:206-220 | For every run in every mode, the last reply and whether a byte was moved alone decide between returning and raising, and with which errno |
| Transfer.EarlierRepliesContinue | src/unistd.c:201-221 | Every reply before the last is an interruption being retried or a non-zero count outside ONCE; a loop that is still running has seen only such replies |
| Transfer.LastReply | src/unistd.c:201-223 | What one more reply does to a run, from what was moved before it: EINTR under NOINTR is retried, an error ends it with a short count only after progress and on EAGAIN, EWOULDBLOCK or under NOERROR, a count moves its share and ends it when it is 0, when all is moved or under ONCE; this determines every run |
| Transfer.RunAnswers | src/unistd.c:206-223 | The answer of a call, by its last reply: the errno is raised unless bytes were moved and the error ends transfers with a short count, a count gives the bytes moved, and there is no answer exactly while it runs |
| TransferLaws.DriverPromises | src/extUnix.pp.ml:316-377 | Plain and intr_ calls raise only if nothing was moved; all_ raises after progress only on errnos other than EINTR, EAGAIN, EWOULDBLOCK; all_ and plain never raise EINTR; single_ makes exactly one call; any mode returns 0 only if len is 0 or its last call moved nothing; error-free, all but single_ move min(len, available) |
| TransferLaws.AllReplies | src/unistd.c:226-230 | all_ goes on after counts, retries EINTR, returns short on EAGAIN and EWOULDBLOCK after progress, and raises every other errno, after progress too |
| TransferLaws.PlainReplies | src/unistd.c:238-242 | The plain call goes on after counts, retries EINTR, and raises an errno only before the first byte |
| TransferLaws.IntrReplies | src/unistd.c:244-248 | intr_ goes on after counts and treats EINTR as any error: raised before the first byte, a short count after |
| TransferLaws.SingleReplies | src/unistd.c:232-236 | single_ answers its first reply: the errno, or the bytes of one call |
| Transfer.Turn | src/unistd.c:206-220 | One turn of the loop, by what the call gave back: how the run ends, or how it goes on |
| TransferLaws.SplitIndependence | src/unistd.c:201-221 | Against a kernel that does not fail, every mode but ONCE moves min(len, available), for every split into short counts and every chunk size, after at most len calls |
| TransferLaws.ChunkedRefinesDirect | src/pread_pwrite_ba.c:24-42 | Every run of the chunked loop, errors and ONCE included, is a run of the direct loop against a kernel that offers at most a chunk at a time: same bytes, calls and ending |
| TransferLaws.DirectRefinesChunked | src/unistd.c:201-221 | Every run of the direct loop outside ONCE has a chunked run that moves as much and ends the same way |
| TransferLaws.OnceAgreesIff | src/unistd.c:232-236 | single_ calls of the two forms agree exactly when the call would not have moved more than the chunk |
| TransferLaws.EintrStutters | src/unistd.c:208 | Under NOINTR, deleting all EINTRs from a schedule changes neither the bytes moved nor the ending |
| TransferLaws.EintrInsertion | src/unistd.c:208 | Schedules that differ only in EINTRs are indistinguishable under NOINTR |
| TransferLaws.CallBound | src/unistd.c:201-221 | At most len calls plus one for each retried EINTR, and a kernel that answers that often has seen the loop end |
| TransferLaws.FullServiceCost | src/unistd.c:202 | A kernel that serves each request in full is called exactly ceil(len / UNIX_BUFFER_SIZE) times |
| TransferLaws.CeilDiv | src/unistd.c:202 | The result is the least r with n <= r * d |
| TransferLaws.AllReturnsZeroIff | src/extUnix.pp.ml:386-394 | all_ calls, of reads and of writes, return 0 if and only if nothing is wanted or the first answer that is not EINTR offers no byte or finds none there |
| TransferLaws.AllWriteCanReturnZero | src/extUnix.pp.ml:386-394 | A schedule on which all_pwrite returns 0 for a non-empty buffer |
| TransferLaws.AllReadReturnsZero | src/extUnix.pp.ml:316-325 | all_pread returns 0 for an empty window anywhere in the file; for others, if the kernel's counts are not 0, only at its end |
| Posix.Kernel.Pread | src/unistd.c:204 | The system call: the first answer of the script, and the file's bytes in the buffer |
| Posix.Kernel.Pwrite | src/unistd.c:292 | The system call: the first answer of the script, and the bytes in the file |
| Posix.Kernel.Read | src/unistd.c:378 | The system call: bytes leave the stream for the buffer |
| Posix.Kernel.Write | src/unistd.c:437 | The system call: bytes go to the sink |
| Posix.WriteAtAppend | src/unistd.c:303-306 | Two adjacent positional writes leave the file one write of both would leave |
| Unistd.PreadCommon | src/unistd.c:192-224 | The value, the script consumed and the whole buffer: the file's bytes at the offset in a prefix of the window, everything else untouched, also when the loop raises; value and buffer are PreadEffect, about which the theorems speak; the answer, count or errno, is that of RunAnswers |
| Unistd.PwriteCommon | src/unistd.c:279-311 | The whole file: the moved prefix of the window at the offset, everything else untouched, also when the loop raises; value and file are PwriteEffect; the answer, count or errno, is that of RunAnswers |
| Unistd.ReadCommon | src/unistd.c:366-397 | The buffer gets exactly the bytes the stream loses, in order, in every outcome; value, buffer and stream are ReadEffect; the answer, count or errno, is that of RunAnswers |
| Unistd.WriteCommon | src/unistd.c:424-455 | The sink grows by exactly the moved prefix of the window, in every outcome; value and sink are WriteEffect; the answer, count or errno, is that of RunAnswers |
| PreadPwriteBa.PreadCommon | src/pread_pwrite_ba.c:16-45 | As the string form, with the rest of the buffer requested in each call; the same effect with the buffer's length as chunk, the same answers |
| PreadPwriteBa.PwriteCommon | src/pread_pwrite_ba.c:100-129 | As the string form, with the rest of the buffer offered in each call; the same effect with the buffer's length as chunk, the same answers |
| PreadPwriteBa.ReadCommon | src/pread_pwrite_ba.c:184-212 | As the string form, straight into the bigarray, the same answers |
| PreadPwriteBa.WriteCommon | src/pread_pwrite_ba.c:239-267 | As the string form, straight out of the bigarray, the same answers |
| TransferTheorems.FileAnswers | src/unistd.c:206-223 | PreadEffect and PwriteEffect answer a value or an errno as the last reply and the progress have it |
| TransferTheorems.StreamAnswers | src/unistd.c:380-396 | Likewise ReadEffect and WriteEffect |
| TransferTheorems.FirstErrorIsRaised | src/unistd.c:206-213 | An error in the first call, other than a retried EINTR, is raised with its errno by all eight loops in every mode |
| TransferTheorems.ReadExact | src/unistd.c:215-219 | Byte by byte: a prefix of the window equals the file, every other byte of the buffer is its old self, and a returned value is the prefix's length |
| TransferTheorems.WriteExact | src/unistd.c:290-306 | Byte by byte: the file is the old one with a prefix of the window at the offset, and zeros in a gap past its old end |
| TransferTheorems.FullPread | src/unistd.c:201-223 | Error-free, a read outside ONCE returns min(len, max(0, filesize - off)) and leaves one buffer, whatever the schedule and chunk size |
| TransferTheorems.StringAgreesWithBigarray | src/pread_pwrite_ba.c:24-44 | Error-free, the string loop with any UNIX_BUFFER_SIZE and the bigarray loop return the same value and buffer on independent schedules |
| TransferTheorems.StringRefinesBigarray | src/unistd.c:201-223 | With errors and ONCE too, every effect of the four string loops, value or errno and contents, is one of the bigarray loop on the schedule clamped to iobuf |
| TransferTheorems.BigarrayRefinesString | src/pread_pwrite_ba.c:24-44 | And the other way round outside ONCE, for all four loops, on schedules that are constructed |
| TransferTheorems.WriteReadRoundTrip | src/unistd.c:279-311 | After a pwrite that returned the full length, a pread there gets the written bytes, as many as it moves, and a full one gets all; modes, chunks and schedules of the two sides are independent |
| TransferTheorems.StreamConserved | src/unistd.c:375-396 | For every run of a stream read, however it ends: the bytes put in the window followed by the rest of the stream are the original stream, and the buffer is unchanged elsewhere |
| TransferTheorems.SinkGrowsByPrefix | src/unistd.c:433-454 | For every run of a stream write, however it ends: the sink has grown by exactly a prefix of the window |
| TransferTheorems.ResumedPwrite | src/unistd.c:303-306 | After a pwrite that returned p, one for the rest at the advanced offsets leaves the file one write of p + q bytes leaves, and the one an uninterrupted pwrite leaves when all is moved; modes, chunks and schedules are independent |
| TransferTheorems.ResumedPread | src/unistd.c:216-219 | Likewise for the buffer of two preads; against a kernel that does not fail the second completes min(len, available) |
| TransferTheorems.ResumedRead | src/unistd.c:390-392 | Likewise for two reads of a stream: one window filled, one stream consumed, nothing lost between |
| TransferTheorems.ResumedWrite | src/unistd.c:448-450 | Likewise for two writes: the sink grows by one prefix |
| ExtUnixIo.RejectedIff | src/extUnix.pp.ml:328-331 | The test rejects exactly the windows that do not lie in the buffer, for all 63-bit ints, wrap-around included |
| ExtUnixIo.Pread | src/extUnix.pp.ml:328-331 | Invalid_argument leaves kernel and buffer alone; otherwise the loop runs inside the checked window, with PreadEffect |
| ExtUnixIo.Pwrite | src/extUnix.pp.ml:397-400 | Likewise for writes at an offset |
| ExtUnixIo.Read | src/extUnix.pp.ml:467-470 | Likewise for a stream |
| ExtUnixIo.Write | src/extUnix.pp.ml:531-534 | Likewise for a sink |
| ExtUnixIo.LargeFilePread | src/extUnix.pp.ml:606-609 | Only the offset is tested; the window is the caller's to keep in bounds; then the loop runs as for Pread |
| EndianLaws.LittleIsBigReversed | src/endian_helper.h:35-79 | The little-endian value of bytes is the big-endian value of the bytes reversed |
| EndianLaws.LittleSplits | src/endian_helper.h:35-79 | In little endian a later byte counts 256 times the one before it |
| EndianLaws.BigSplits | src/endian_helper.h:35-79 | In big endian an earlier byte counts 256 times the one after it |
| EndianLaws.TopByte | src/endian_helper.h:35-79 | A value is in the upper half of its range if and only if its first byte in big endian, its last in little endian, is 128 or more |
| EndianLaws.SwapReads | src/endian_helper.h:61-73 | A byte swap reads big-endian what was stored little-endian |
| EndianLaws.ConvAfterLoad | src/endian_helper.h:35-79 | On either host, loading in host order and converting gives the window's value in the named order |
| EndianLaws.ConvBeforeStore | src/endian_helper.h:35-79 | On either host, converting and storing in host order writes the named order |
| EndianLaws.ConvTwice | src/endian_helper.h:35-79 | A conversion undoes itself |
| EndianLaws.TaggingWraps | src/endian.c:61-62 | Val_long followed by Long_val wraps at 63 bits, and is the identity exactly on OCaml ints |
| EndianTheorems.GetReads | src/endian.c:19-27 | A get is the positional value of its window in the named order, read as signed or unsigned, then tagged or boxed |
| EndianTheorems.GetIs | src/endian.c:56-63 | A get of up to 32 bits, or of 64 in a box, answers the positional value of the bytes in the named order, less 256^size for signed types whose most significant byte is 128 or more; so it is in the type's range |
| EndianTheorems.Get63Is | src/endian.c:61-62 | A 63-bit get answers an OCaml int congruent to the window's value modulo 2^63 |
| EndianTheorems.GetIsHostIndependent | src/endian.c:56-63 | BigEndian and LittleEndian gets cannot tell the host's byte order |
| EndianTheorems.LittleGetIsBigGetReversed | src/endian.c:85-92 | A little-endian get on one host is the big-endian get of the reversed window on any other |
| EndianTheorems.EncodeWrites | src/endian.c:30-38 | A set writes the value's low bytes in the named order, on either host |
| EndianTheorems.SetThenGet | src/endian.c:65-69 | What was set is got, even when set on a host of the other byte order: the number in the type's range that is congruent to it modulo 256^size |
| EndianTheorems.SetFrame | src/endianba.c:21-29 | A set changes no byte outside its window |
| EndianTheorems.SetRestoresIff | src/endian.c:30-38 | A set leaves the buffer as it was if and only if the value has the window's bits at the type's width |
| EndianTheorems.GetThenSet | src/endian.c:19-38 | Get then set restores the bytes for every type that fits its OCaml type |
| EndianTheorems.Uint63IsInt63 | src/endian.c:61-62 | get_uint63 and get_int63 agree on every window |
| EndianTheorems.Set63ThenGet63 | src/endian.c:68 | Every OCaml int survives a 63-bit set and get |
| EndianTheorems.Get63ThenSet63 | src/endian.c:61-68 | A 63-bit get and set restores the eight bytes if and only if the top two bits of their value are equal |
| EndianTheorems.ConversionIs | src/endian.c:43-54 | A conversion answers the number in the type's range whose bytes on the host are the argument's in the named order, negative exactly if the type is signed and the top byte is 128 or more |
| EndianTheorems.ConversionTwice | src/endian.c:43-54 | From host and to host gives the number in the type's range congruent to the argument modulo 256^size |
| EndianTheorems.ConversionThenHostSet | src/endian.c:72-83 | Converting and setting in host order is setting in the named order |
| EndianTheorems.DisjointSetsCommute | src/extUnix.pp.ml:1633-1681 | Sets on pairwise disjoint windows give one buffer in every order |
| Endian.CheckedGet | src/extUnix.pp.ml:1561-1609 | Invalid_argument exactly if the window does not lie in the buffer, else the get, about which GetIs speaks |
| Endian.CheckedSet | src/extUnix.pp.ml:1633-1681 | Invalid_argument exactly for windows out of bounds, leaving the buffer alone, else the set in place |
| HaveCondition.EvalCondDenotes | ppx_have/ppx_have.ml:32-42 | With all features registered, evaluation is the disjunction of conjunctions the tuple syntax denotes |
| HaveCondition.EvalCondAnswersIff | ppx_have/ppx_have.ml:12-42 | Short-circuit evaluation answers if and only if the condition is well formed and, in the tuple as written, before every unregistered feature stands one that is off, or before its conjunction one whose features are all on |
| HaveCondition.EvalCondSound | ppx_have/ppx_have.ml:12-42 | An answer is right, and stays right however the features evaluation did not look at turn out; it is given exactly for settled conditions, and failure means a malformed condition, exactly, or an unregistered feature |
| HaveCondition.EvalCondReports | ppx_have/ppx_have.ml:12-15 | The feature reported as unregistered is the first that evaluation reaches: all before it in its conjunction are on, and no conjunction before its own holds or lacks an answer |
| HaveCondition.EvalCondMonotone | ppx_have/ppx_have.ml:38-42 | Turning features on never turns a condition off: one that held holds still if and only if it is still settled, and fails otherwise |
| HaveCondition.EnablingCanReachUnregistered | ppx_have/ppx_have.ml:12-15 | With an unregistered feature behind it, turning a feature on can turn an answer into a failure; EvalCondMonotone says exactly when |
| HaveStub.StubHasDeclaredType | ppx_have/ppx_have.ml:48-57 | For every arrow type with plain, labelled and optional arguments the stub has the declared type and no other |
| HaveStub.TypeIsUnique | ppx_have/ppx_have.ml:56 | The annotation on its result makes a stub's type the one it is exported with |
| HaveStub.StubRaisesIffSaturated | ppx_have/ppx_have.ml:58-61 | In one application to any labelled arguments in any order, a stub raises Not_available with its external's name if and only if every parameter is supplied or rightfully omitted, and otherwise waits |
| HaveStub.StubWaitsForItsArguments | ppx_have/ppx_have.ml:48-61 | It raises once all arguments are supplied and never with too few positional ones |
| HaveStages.ResidualIsStub | ppx_have/ppx_have.ml:48-57 | What a partial application of a stub returns is the stub of the parameters that are left, with their type |
| HaveStages.ChainRaisesIff | ppx_have/ppx_have.ml:48-61 | Given its arguments in any number of stages, a stub raises if and only if no parameter is left, so at the stage that takes the last one and at no earlier one |
| HaveStages.StagesAreOneApplicationIff | ppx_have/ppx_have.ml:50-55 | Stages take what one application with all arguments takes, if and only if no optional parameter can be confused with a later one of its name |
| HaveStages.ChainIsOneApplication | ppx_have/ppx_have.ml:48-61 | For such types a chain of applications ends as the one application with all their arguments does |
| HaveExpand.Rewriter.RecordExternal | ppx_have/ppx_have.ml:82-93 | The loop over items, nested modules included, leaves the table that recording one by one leaves |
| HaveExpand.Rewriter.HaveExpand | ppx_have/ppx_have.ml:125-133 | The written items and the new table, for each of the four cases, or the failure; HaveWritten says what the items are |
| HaveExpand.Rewriter.ShowMeTheMoneyExpand | ppx_have/ppx_have.ml:144-162 | Nothing is written in Specific; in All exactly one binding, `have` of type string -> bool option, which answers of every name what the table holds and None of others, in whatever order the table is listed |
| HaveExpand.Rewriter.Transform | ppx_have/ppx_have.ml:125-176 | A whole source file, sections inside modules included, with the table passed along |
| HaveWritten.HaveConstrOnlyRenames | ppx_have/ppx_have.ml:95-123 | A section that holds is written in Specific item by item as it is, nested modules included, but for the names of constructors whose only attribute is a condition that does not hold; these get the suffix |
| HaveWritten.InvalidateOnlyStubs | ppx_have/ppx_have.ml:62-80 | A section that does not hold is written in All item by item as it is, but for its externals, which become stubs |
| HaveWritten.ExpandWrites | ppx_have/ppx_have.ml:125-162 | All that is written of a file, in order: what is outside sections unchanged, sections as the two rows above say or not at all, `have` in All, groups likewise; with conditions by what they denote |
| HaveWritten.ExpandReports | ppx_have/ppx_have.ml:125-133 | If nothing is written, the error is that of evaluating a condition of the source |
| HaveTheorems.AllHasTheWholeInterface | ppx_have/ppx_have.ml:128-133 | All has the interface of the source without its section brackets: every name and type, in order |
| HaveTheorems.AllIsTheSameEverywhere | ppx_have/ppx_have.ml:128-133 | Hence one interface under all configurations |
| HaveTheorems.SpecificHasTheKeptInterface | ppx_have/ppx_have.ml:125-133 | Specific has the interface of the sections that hold and of what is outside sections, with missing constructors under their changed names |
| HaveTheorems.ConstructorsKeepTheirPlaces | ppx_have/ppx_have.ml:95-123 | A constructor is renamed exactly when [@have ...] is its only attribute and the condition does not hold, and all keep their positions |
| HaveTheorems.MissingIsRenamedIff | ppx_have/ppx_have.ml:101-120 | A constructor marked with a condition that does not hold is renamed if and only if the mark is its only attribute |
| HaveTheorems.ExternalsAreBound | ppx_have/ppx_have.ml:46-93 | All binds each declared external to itself where its condition holds and else to its stub; the externals of Specific are exactly those that hold and the unguarded ones; paths, types and order are the source's |
| HaveTheorems.AllHasExternalOrStub | ppx_have/ppx_have.ml:64-80 | Wherever the source declares an external, the structure All has at that path the external itself if it is there and the stub if it is missing |
| HaveTheorems.MissingExternalRaises | ppx_have/ppx_have.ml:64-80 | At the path of a missing external All has a function of its type that raises Not_available with its name exactly when saturated, by one application or at the last of several |
| HaveTable.ExpandTabulates | ppx_have/ppx_have.ml:82-93 | After expansion the table holds the guarded declarations in source order, later ones replacing earlier ones |
| HaveExpand.AnswerIsLookup | ppx_have/ppx_have.ml:147-154 | In whatever order the table is listed, the generated function looks a name up in it |
| HaveTable.HaveAnswersLast | ppx_have/ppx_have.ml:144-162 | `have` knows exactly the guarded names and answers what the last section declaring the name came to |
| HaveTable.HaveTellsTruthIff | ppx_have/ppx_have.ml:82-93 | All's `have` says Some true exactly of guarded names of which Specific has an external, if and only if the name is unguarded, or the last section declaring it holds, or nothing of that name, guarded or not, is there; in particular when all its declarations agree |
| HaveTable.HaveCanDeny | ppx_have/ppx_have.ml:89 | A source with two sections for one name on which `have` answers Some false and Specific has the external |
| HaveTable.HaveCanDenyUnguarded | src/extUnix.pp.ml:1918 | The same with a name declared in a section and outside, as unsafe_get_uint8 is |
| HaveTable.SpecificHasIff | ppx_have/ppx_have.ml:125-133 | Specific has an external of a name if and only if some declaration of it, guarded or not, is there |
| HaveTable.GeneratedIff | ppx_have/ppx_have.ml:125-133 | All, and Specific, is generated if and only if the conditions on its sections, and for Specific those on constructors in sections that hold, are well formed and settled |
| HaveTable.SpecificGrows | ppx_have/ppx_have.ml:125-133 | With well-formed, registered conditions, turning features on removes no external from Specific, which is generated before and after |
| HaveTable.SpecificGrowsIfGenerated | ppx_have/ppx_have.ml:125-133 | The same for all sources whose conditions are settled before and after, unregistered features or not |
| HaveTable.AllIsGenerated | ppx_have/ppx_have.ml:125-133 | All is generated for every source whose conditions are well formed and registered |
| HaveTable.SpecificIsGenerated | ppx_have/ppx_have.ml:125-133 | Specific is generated if the conditions on constructors are, too |
| SizePrinter.ReadInvertsPrint | src/extUnix.pp.ml:1188-1198 | Reading the printed text back, count times unit, gives the number printed, for every number |
| SizePrinter.PrintingIsInjective | src/extUnix.pp.ml:1188-1198 | Different sizes print differently |
| SizePrinter.PartsTotal | src/extUnix.pp.ml:1189-1195 | The counts times their units add up to the number, under truncating division |
| SizePrinter.PartsAreCanonical | src/extUnix.pp.ml:1189-1195 | Units strictly decrease, no count is zero, all have the number's sign, and below TB they stay under 1024 |
| SizePrinter.FoldPrintsParts | src/extUnix.pp.ml:1188-1198 | The text of the fold is these parts, largest first, or 0 B |
| SizePrinter.TextIs | src/extUnix.pp.ml:1196-1198 | The words of the text are the counts and units in that order, with one space between any two; 0 alone is 0 B |
| SizePrinter.DecimalIsPlain | src/extUnix.pp.ml:1192 | Counts are printed in digits without leading zeros, with a sign if negative |
| Rlimit.DecodeEncode | src/resource.c:115-145 | Every limit the kernel reports is set back unchanged, whatever number RLIM_INFINITY is |
| Rlimit.EncodeDecodeIff | src/resource.c:115-145 | Every OCaml limit comes back unchanged, except the number with the bits of RLIM_INFINITY |
| Rlimit.CompareIsUnsignedIff | src/extUnix.pp.ml:1213-1224 | compare is the kernel's unsigned order exactly when both sides are at most infinity, if one of them is infinity, or else both are on one side of 2^63 |
| Rlimit.CompareMatchesKernel | src/extUnix.pp.ml:1213-1224 | So on infinity and all values below it and 2^63 |
| Rlimit.HugeLimitComparesBelow | src/extUnix.pp.ml:1215 | With the infinity of Linux and that of macOS a limit of 2^63 compares below 0, where the kernel's order has it above |
| Rlimit.CompareIsTotalOrder | src/extUnix.pp.ml:1213-1224 | compare is antisymmetric, transitive and zero on equals only |
| Readlink.Heap.Resize | src/atfile.c:225-231 | caml_stat_resize_noexc: a new block for the old one, or none and the old one stays |
| Readlink.RunEndsIn | src/atfile.c:223-244 | The first turn whose link does not fill the buffer decides: failure if there is no memory or the call fails, else the target in a buffer of 100 * 2^i bytes; overflow after 24 doublings |
| Readlink.ReadlinkatMalloc | src/atfile.c:216-245 | Its outcome for links that change and calls that fail; on success the caller owns exactly the buffer returned, which holds the target and a terminator in bounds; on failure nothing stays allocated, and nothing is freed twice |
| Readlink.StableLinkIsRead | src/atfile.c:223-244 | A stable link is read in full into the least 100 * 2^k bytes longer than it, at most max(100, 2L), exactly for L below 100 * 2^24, where the doubling leaves int |
| Readlink.Readlinkat | src/atfile.c:247-263 | The value is the target of the first link that fits, up to a null byte; it raises exactly if no memory or a failing call comes first; either way both blocks are freed |
| Syslog.MaskOfBits | src/syslog.c:19 | The mask of a list has the bits of its entries |
| Syslog.Logger.SetLogMask | src/syslog.c:12-41 | The levels whose bits the previous mask has, in descending order, and the new mask, bit by bit |
| Syslog.DecodeEncode | src/syslog.c:19-38 | For every table of disjoint masks, decoding the mask of a list gives its members, once each, in strictly descending order |
| Syslog.DescendingIsFixed | src/syslog.c:25-38 | A descending list is reported back as it was set |
| Syslog.LogUptoIs | src/extUnix.pp.ml:75-81 | log_upto gives the level and all more severe ones; its assertion is never reached |
| Syslog.LogUptoIsFixed | src/extUnix.pp.ml:75-81 | Its mask is 2^(l+1) - 1, and it is reported back unchanged |

## Left out

- Everything around one system call (fsync, mount, ptrace, sockopt, signalfd, statvfs and the like): argument marshalling without a property of its own.
- sendmsg and recvmsg, getifaddrs, SIOCGIFCONF, poll: plumbing around kernel structures.
- discover/discover.ml: it runs the C compiler; its result is the arbitrary map `Config`.
- OCaml's runtime: roots, the blocking section, and other threads that change the buffer or the file during a call.
- Overflow of off_t past 2^63 at the end of a file.
- The other LargeFile and bigarray wrappers: LargeFilePread stands for them, they test the offset alone in the same way.
- The have rewriter: sections inside sections, attributes and types it passes through, locations and documentation, and the order in which OCaml reports one of several malformed conditions.
- HaveStub.StubRaisesIffSaturated: applications that leave out all labels of a fully applied function, which OCaml accepts with a warning; it speaks also of applications OCaml's typing rejects, such as one positional argument for `?x:int -> int`.
- Rlimit.to_string and string_of_resource: one case each.
- SizePrinter.ReadInvertsPrint: the reader is this project's; the repository only prints.
- openlog, closelog and syslog: table look-ups.
- 32-bit hosts, for which the source says that the 31-bit functions produce garbage.
- renameat2, fallocate, realpath and the Windows branches: short straight-line code.
