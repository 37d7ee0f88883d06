# Verified models of the fsim benchmark and corpus tooling

fsim is an HDL simulator. Around it sits tooling that decides whether a result
can be trusted: it generates Reed-Solomon stimulus, compares the stimulus two
simulators saw, reuses earlier evidence, resolves conditional compilation in
test sources, gathers include and library files, judges VUnit runs, and audits
string literals. This project models those algorithms in Dafny and proves what
they are relied on for. `dafny verify dfyconfig.toml` checks everything.

| file | what it models |
|---|---|
| Xorshift, Seeds, StreamSeeds | the xorshift32 streams, and the allocation and derivation of their seeds |
| ReedSolomon, MinimumDistance, Burst | the in-place encoder, why a corrupted codeword has one right answer, and the throughput burst |
| CodecTable, Corruption | the codec scenarios and the random error and erasure injection |
| Drivers | the encoder, decoder and throughput input drivers under any ready waveform |
| Transcript, TranscriptReader, TranscriptParity | the stimulus transcript, its canonical form, and parity as trace equivalence |
| PreflightReuse | published preflight proofs and the decision to reuse evidence |
| Includes, Libraries | the include worklist and the library loader |
| Conditionals, BranchTrees, VerilogBranches, CBranches | a reference preprocessor, the comparison of two judges of a text's branches, and the two branch strippers |
| VUnit | the monitor that judges a VUnit run by its markers |
| VestsLibraries | library deletes deferred to the next case |
| Scanning, Literals, Audit | the string-literal scanner and the run-length audit |
| Common | what several modules share |

How things are represented:

- Text lines enter as data: a directive with its test, a marker, a record with
  its fields. Regular expressions, number parsing, sorting, hashing, path
  resolution and the Galois-field product are parameters, constrained only by
  the laws a proof states (`Reading.Sorts`, `World.Ideal`, `Field.Laws`).
- Hardware processes are loops over clock edges. `ready` is an arbitrary
  four-state waveform; `horizon` is how many rising edges a run is watched, so
  a statement for every horizon is a statement about every prefix of every run.
- The generated testbenches are modelled as HDL semantics has them; the
  generator's Python around them is modelled where it computes something.

Where the code falls short of its own description, a witness and the exact
condition are proved:

- The Verilog resolver takes a macro's state as fixed for the whole text. A text
  that undefines one of the caller's macros, or defines VERILATOR itself, or
  includes a file that defines a macro the text itself does not, and then tests
  the macro gets the wrong branch (`VerilogBranches.UndefinedMacroMisleads`,
  `VerilogBranches.DefinedVerilatorMisleads`,
  `VerilogBranches.IncludedMacroMisleads`). For every text and every macro
  table, `VerilogBranches.ResolverMatchesPreprocessor` says exactly when no
  compiled line is dropped and when no other line is kept.
- The C stripper drops an `#else` that another simulator compiles, in a chain
  that opens with the VERILATOR test and whose last `#elif` is some other test
  (`CBranches.ElifLosesElse`); exactly when is
  `CBranches.SoundExactlyIfNotMisjudged`.
- The C stripper keeps text that no other simulator compiles, in an `#elif`
  behind a negated VERILATOR test (`CBranches.ElifKeptAfterNegation`); exactly
  when is `CBranches.PreciseExactlyIfNotOverkept`.
- The VESTs generator hands waiting deletes to the next case even if that case
  does not run in the group's chain, because it is skipped or has a file chain of
  its own. The deletes are then lost (`VestsLibraries.DeleteIsLost`), and a
  library that only such a case was to fill is deleted although it is not there
  (`VestsLibraries.DeleteFails`). The contract of `VestsLibraries.Cases` says
  exactly when the libraries still agree, and that they always do if every case
  runs. Whether the VESTs scripts, which are not part of the repository, delete a
  library just before such a case is not known here.

The encoder and decoder drivers raise valid before looking at the length, so an
empty message would still show the receiver one symbol (last ensures of
`Drivers.DriveEncoder` and `Drivers.DriveDecoder`). No workload has one: the
generator accepts eleven fixed instances and one reduced instance, and none of
their scenarios is empty (`CodecTable.WorkloadMessagesNonempty`).

## Model

| member | source | states |
|---|---|---|
| Xorshift.UnstepUndoesStep | scripts/perf_codec_fixture.py:438-447 | the generator step loses nothing: it has an explicit inverse |
| Xorshift.StepUndoesUnstep | scripts/perf_codec_fixture.py:438-447 | every 32-bit word is reached by a step, from the word the inverse gives |
| Xorshift.StepInjective | scripts/perf_throughput_fixture.py:104-114 | two words never step to the same word |
| Xorshift.StepZero | scripts/perf_throughput_fixture.py:104-114 | zero is fixed and is the only word that steps to zero |
| Xorshift.DrawNonzero | scripts/perf_codec_fixture.py:82-100 | a stream with a nonzero seed never reaches zero |
| Xorshift.StreamReturns | scripts/perf_codec_fixture.py:62-69 | every stream comes back to its own seed within 2^32 draws |
| Xorshift.KnownAnswer | scripts/perf_codec_fixture.py:72-79 | the five published words follow the published seed |
| Xorshift.PythonStepsAgree | scripts/perf_codex_fixture.py:33-41 | the three Python versions, masked differently, all compute the hardware step |
| Seeds.Probe | scripts/perf_codec_fixture.py:96-98 | probing ends while fewer than 2^32 - 1 words are used, at the first free nonzero word at or after the hash, going round through zero |
| Seeds.Allocate | scripts/perf_codec_fixture.py:82-100 | for any hash values and up to 2^32 - 1 streams: distinct nonzero seeds, each the nearest free word to its own hash |
| Seeds.AllocationUnique | scripts/perf_codec_fixture.py:234-257 | the seed table is determined by the hashes: no other table meets the allocator's contract |
| ReedSolomon.Field.ShiftIn | scripts/perf_throughput_fixture.py:209-212 | updating the register in place, from the top cell down, equals computing every cell from the old cells at once |
| ReedSolomon.Field.Encode | scripts/perf_throughput_fixture.py:206-213 | the loop leaves the register of the whole message |
| ReedSolomon.Field.RegisterDivides | scripts/perf_throughput_fixture.py:208-213 | at every point and after every symbol, the symbols sent and the register together are the feedback symbols' polynomial times the generator |
| ReedSolomon.Field.CodewordIsMultiple | scripts/perf_throughput_fixture.py:215-222 | a codeword, message first and register reversed, is a multiple of the generator polynomial |
| ReedSolomon.Field.SyndromesVanish | scripts/perf_throughput_fixture.py:215-222 | every codeword is zero at every root of the generator |
| MinimumDistance.CodewordsFarApart | scripts/perf_throughput_fixture.py:206-222 | two words that vanish at m consecutive powers are equal or differ in more than m places |
| MinimumDistance.UniqueDecoding | scripts/perf_codec_fixture.py:186-231 | a received word with e errors outside s erasures has at most one codeword behind it when 2e + s is at most the number of consecutive roots |
| Burst.Config.StreamSeed | scripts/perf_throughput_fixture.py:64-70 | a derived stream seed is never zero |
| StreamSeeds.RootsApart | scripts/perf_throughput_fixture.py:116-131 | streams from different root seeds have different seeds, unless both are the replacement for zero |
| StreamSeeds.InstancesApart | scripts/perf_throughput_fixture.py:116-131 | so have streams of different instances |
| StreamSeeds.ScenariosApart | scripts/perf_throughput_fixture.py:116-131 | so have streams of different codewords |
| StreamSeeds.PurposesApart | scripts/perf_throughput_fixture.py:116-131 | so have streams for different purposes |
| StreamSeeds.PythonSeedAgrees | scripts/perf_throughput_fixture.py:64-70 | the generator's masked integer version derives the seeds the testbench derives |
| StreamSeeds.CounterTells | scripts/perf_throughput_fixture.py:187-191 | the 32-bit codeword counter takes no value twice within 2^32 codewords |
| Burst.Config.StreamsApart | scripts/perf_throughput_fixture.py:187-191 | no two codewords of a burst share a stream, nor do the payload and the magnitudes of one |
| Burst.Config.DrawPayload | scripts/perf_throughput_fixture.py:193-204 | the message buffer receives the successive draws of its own stream |
| Burst.Config.WriteBlock | scripts/perf_throughput_fixture.py:215-222 | one block receives the message and the reversed register; the rest of the buffer stays |
| Burst.Config.PositionsSpread | scripts/perf_throughput_fixture.py:226-227 | the directed positions rise strictly and stay inside their block, for all N >= T >= 1 |
| Burst.Config.MagnitudeNonzero | scripts/perf_throughput_fixture.py:228-230 | no error magnitude is zero |
| Burst.Config.CorruptedDiffers | scripts/perf_throughput_fixture.py:224-241 | after any number of corruptions exactly the positions used so far differ |
| Burst.Config.DistanceIsT | scripts/perf_throughput_fixture.py:624-647 | a transmitted codeword differs from the expected one in exactly T places |
| Burst.Config.BlockIsDecodable | scripts/perf_throughput_fixture.py:215-241 | every expected block has zero syndromes and its transmitted block is at distance exactly T |
| Burst.Config.OnlyExpectedDecodes | scripts/perf_throughput_fixture.py:440-446 | the block the testbench compares the decoder with is the only codeword within T symbols of what was transmitted |
| Burst.FlatBlock | scripts/perf_throughput_fixture.py:216-221 | block c of a buffer is codeword c |
| Burst.Config.CorruptBlock | scripts/perf_throughput_fixture.py:224-241 | the loop changes one block, by the T directed errors and nothing else |
| Burst.Config.BuildBurst | scripts/perf_throughput_fixture.py:184-244 | both buffers hold all codewords in order, clean and corrupted, with K and T draws counted per codeword |
| CodecTable.ScenariosCorrectable | scripts/perf_codec_fixture.py:186-231 | every scenario satisfies 2 errors + erasures <= parity and has room for its corruptions, for all k <= n and features |
| CodecTable.ScenariosDistinct | scripts/perf_codec_fixture.py:186-231 | tags are unique within an instance; only a shortened one-symbol code gives an empty message |
| Corruption.ScenarioHasOneAnswer | scripts/perf_codec_fixture.py:186-231 | a word corrupted as a scenario says is explained by one codeword only |
| Corruption.PlaceErasures | scripts/perf_codec_fixture.py:854-904 | erasure i stands at the i-th position to come up in the position stream, flagged, with zero magnitude for odd i and else the magnitude stream's next word; it stops short only when the draws run out |
| Corruption.PlaceErrors | scripts/perf_codec_fixture.py:905-943 | the errors follow on at the next positions to come up, unflagged, each with the magnitude stream's next word; it stops short only when the draws run out |
| Corruption.PickIs | scripts/perf_codec_fixture.py:856 | a position is the remainder of the drawn word by the length |
| Corruption.ErrorDeltaIs | scripts/perf_codec_fixture.py:912 | the error magnitude is the masked word with its low bit set, which is the throughput testbench's formula |
| Corruption.ErasureDeltaIs | scripts/perf_codec_fixture.py:865-868 | the erasure magnitude is the masked word, or one in place of zero |
| Corruption.Corrupt | scripts/perf_codec_fixture.py:834-945 | done exactly when the draws bring up ne + ns positions; the received word and flags are the ones the two seeds fix, symbol by symbol; when done, ns positions are flagged, ns div 2 of them unchanged, ne unflagged positions changed, ne + ceil(ns/2) changed in all, and the counters agree |
| Corruption.CorruptScenario | scripts/perf_codec_fixture.py:222-228 | a scenario's codeword, once corrupted, has the counts the table declares, and is the only codeword within the scenario's errors outside the flags |
| Corruption.CorruptionIsFixed | scripts/perf_codec_fixture.py:834-945 | the outcome depends on the seeds and the count alone, never on how many draws were allowed |
| Corruption.EndsExactlyIf | scripts/perf_codec_fixture.py:854-943 | the source draws without a bound; enough positions ever come up exactly when they do within the first 2^32 draws |
| CodecTable.WorkloadMessagesNonempty | scripts/perf_codec_fixture.py:122-151 | no scenario of any accepted instance has an empty message |
| Drivers.EdgePasses | scripts/perf_codec_fixture.py:553-608 | one clock edge keeps the protocol: a beat not taken is shown again, a beat taken is the next one intended, and is logged |
| Drivers.TakeEdge | scripts/perf_codec_fixture.py:553-608 | one turn of a codec driver's loop: what goes over the bus, what is counted and logged, and which beat comes next |
| Drivers.DriveEncoder | scripts/perf_codec_fixture.py:544-612 | under any ready waveform and timeout: beats are held until taken, those taken are a prefix of the message with last only on its final symbol, all of it when done; without a timeout, done exactly when ready was high on as many edges as there are symbols; a timeout can leave one beat taken and uncounted; unknown samples counted; the log is exact up to its capacity |
| Drivers.DriveDecoder | scripts/perf_codec_fixture.py:663-738 | the same for the received word and its erasure flags, with the timeout looked at twice a cycle |
| Drivers.Feed | scripts/perf_throughput_fixture.py:333-406 | the accepted symbols are always the first fi of the burst, with last on every codeword's final symbol; all of them exactly when ready was high on that many edges; unknown samples counted; the first accepting edge is the first with ready high |
| Drivers.CodewordEndsIs | scripts/perf_throughput_fixture.py:339 | symbol i of codeword c is marked last exactly when it is the codeword's final one |
| Transcript.FilterMembers | scripts/perf_campaign.py:1088-1091 | a stream has records exactly when it occurs, and all of them are its own |
| Transcript.CategoryIs | scripts/perf_campaign.py:1015-1021 | which purposes each shared category takes in |
| Transcript.IncreasingIs | scripts/perf_campaign.py:1130-1132 | in an accepted stream a later record has the larger number |
| TranscriptReader.ReaderIs | scripts/perf_campaign.py:1035-1100 | a line belongs to a stream under a number, or to a summary, exactly as the first present field of each kind says |
| TranscriptReader.UnreadableIs | scripts/perf_campaign.py:1035-1100 | a line is rejected exactly when its fields make it neither, and it is no known answer |
| TranscriptReader.SameStreamExactly | scripts/perf_campaign.py:1047-1058 | two events share a stream exactly when their fields name the same instance, scenario and purpose |
| TranscriptReader.BadEventIsUnreadable | scripts/perf_campaign.py:1024-1056 | an unknown bit in a value field, or no field with a number, rejects an event |
| TranscriptReader.RecordsAre | scripts/perf_campaign.py:1065-1066 | the records are the lines of a record kind, stripped, in order |
| TranscriptReader.Gather | scripts/perf_campaign.py:1065-1100 | grouping gives each stream, summary key and the known answers their records in order, and fails exactly on an unreadable record |
| TranscriptReader.ListStreams | scripts/perf_campaign.py:1127-1136 | succeeds exactly when every stream's sequence numbers rise strictly, with the streams in key order |
| TranscriptReader.ListSummaries | scripts/perf_campaign.py:1137-1140 | the unique summary of each key, in key order |
| TranscriptReader.Canonicalise | scripts/perf_campaign.py:1101-1150 | a transcript is accepted exactly when it meets the declared conditions, and the result is its canonical form |
| TranscriptReader.CanonicalTranscript | scripts/perf_campaign.py:1061-1150 | the same from a simulator's output: its record lines stripped of blanks, rejected if any line carries a failure marker or an event line cannot be split |
| TranscriptParity.SwapKeepsVerdict | scripts/perf_campaign.py:1061-1150 | swapping neighbouring records of different tracks, or a summary with anything, changes neither acceptance nor the canonical form |
| TranscriptParity.SameProjectionsEquivalent | scripts/perf_campaign.py:1128-1140 | transcripts with the same records per track are a sequence of such swaps apart |
| TranscriptParity.ParityIsEquivalence | scripts/perf_campaign.py:1529-1543 | two accepted transcripts have equal parity payloads exactly when swaps turn one into the other |
| TranscriptParity.PairParityExactly | scripts/perf_campaign.py:1540-1545 | two runs that passed agree, codec tags and result lines included, exactly when swaps relate their transcripts and the result lines are equal |
| TranscriptParity.EquivalentSameVerdict | scripts/perf_campaign.py:1061-1150 | swaps never change acceptance |
| PreflightReuse.World.ReuseExactly | scripts/perf_campaign.py:1617-1682 | after publishing, reuse returns the recorded result exactly when identity, engine, case and configuration match and no evidence or report content changed, and otherwise asks for a fresh run |
| PreflightReuse.World.ReuseIsSound | scripts/perf_campaign.py:1617-1682 | a reuse that succeeds found every log and transcript as published |
| PreflightReuse.World.ReuseSucceeds | scripts/perf_campaign.py:1617-1682 | a reuse with unchanged evidence succeeds |
| PreflightReuse.World.ReuseChecks | scripts/perf_campaign.py:1623-1668 | on any disk: a reused result was saved, succeeded in every phase, is the one asked for, and stands under a passing report and an intact proof of its identity, with transcripts that its output gives again |
| PreflightReuse.World.ProvedIntact | scripts/perf_campaign.py:1629-1655 | under such a proof every piece of evidence still has the hash it was published with |
| PreflightReuse.World.EvidenceIs | scripts/perf_campaign.py:1648-1652 | the evidence is the result, both transcripts and the two logs of every phase |
| PreflightReuse.World.OutputsAre | scripts/perf_campaign.py:1656-1660 | the output checked again is all standard outputs in phase order, then all error outputs |
| PreflightReuse.World.CoverageHolds | scripts/perf_campaign.py:1648-1655 | a published proof covers exactly the evidence paths the check requires |
| PreflightReuse.World.PersistRecords | scripts/perf_campaign.py:1445-1473 | a checked run whose files and logs are on disk under a passing report is one the reuse check can rely on |
| PreflightReuse.World.SaveCampaign | scripts/perf_campaign.py:1712-1749 | saving all runs of a campaign and then its report leaves every one of them so |
| PreflightReuse.World.CampaignReuse | scripts/perf_campaign.py:1617-1702 | end to end: after saving and publishing, a later campaign reuses a run exactly when it asks for that run under that identity and finds evidence and report as published |
| PreflightReuse.World.WriteProofs | scripts/perf_campaign.py:1685-1702 | every result gets the proof of its own evidence, and no evidence is touched |
| Includes.Tree.ResolveIncludes | scripts/perf_campaign.py:724-745 | the search ends; it returns each file reachable from the source, other than itself, once; it fails exactly when a reachable file is unreadable or has an include that resolves nowhere |
| Includes.Tree.ResolvesHere | scripts/perf_campaign.py:735-738 | an include points to the file next to the including one if there is one |
| Includes.Tree.ResolvesThere | scripts/perf_campaign.py:735-738 | else to the file in the first include directory that has it |
| Includes.Tree.ResolvesNowhere | scripts/perf_campaign.py:735-740 | else nowhere |
| Libraries.Library.LibraryFiles | scripts/lrm_corpus.py:487-516 | loading ends; real files only, none twice, never the top file or one with a module t, each the first candidate not passed over for a name that an earlier file wants and it declares; every identifier of a scanned file is declared, too long, or has no usable first candidate |
| Libraries.Library.Lookup | scripts/lrm_corpus.py:505-515 | the first candidate not passed over decides, by extension order: it is returned if usable, and if not nothing is |
| BranchTrees.CoversExactly | scripts/lrm_corpus.py:1340-1361 | of two judges of a text's branches, one shows every line the other shows exactly when the other shows no line in a branch the first hides |
| Conditionals.PossibleIsExact | scripts/lrm_corpus.py:1340-1361 | a line is ruled out by the known tests exactly when no run that agrees with them compiles it |
| VerilogBranches.WithoutVerilatorBranches | scripts/lrm_corpus.py:1339-1362 | what is returned is the text at rising places, which are exactly the lines the machine marks |
| VerilogBranches.ReturnsExactlyCompilable | scripts/lrm_corpus.py:1325-1362 | of well-nested text those places are exactly the lines that some run agreeing with the known macros compiles |
| VerilogBranches.KeptIsMarks | scripts/lrm_corpus.py:1342-1361 | on well-nested text the stack machine marks the lines not ruled out and restores its stack |
| VerilogBranches.KeptExactlyCompilable | scripts/lrm_corpus.py:1325-1362 | a line is kept exactly when some run agreeing with the known macros compiles it, even if unknown macros change between lines |
| VerilogBranches.KeptExactlyCompiled | scripts/lrm_corpus.py:1325-1362 | when every tested macro is known, the kept lines are the compiled lines |
| VerilogBranches.KnownMacros | scripts/lrm_corpus.py:1331-1338 | which macros are known, and how, for a caller's set of defined macros |
| VerilogBranches.CallerGetsItsText | scripts/lrm_corpus.py:1325-1338 | no line the caller's preprocessor compiles is dropped, as long as the text undefines no macro of the caller's, every tested macro that some line or included file defines is the caller's or named in the text's own defines, and VERILATOR is defined by the text only if by a caller whose text tests it; if moreover the text itself defines no tested macro but the caller's, no other line is kept |
| VerilogBranches.ResolverMatchesPreprocessor | scripts/lrm_corpus.py:1325-1362 | for every text and macro table: no compiled line is dropped exactly when, in no reached chain, the preprocessor compiles a line of a branch whose own test is known to fail or which an earlier test known to succeed precedes; no other line is kept exactly when it passes by no branch that has a kept line without either being known |
| VerilogBranches.SteadyTextMatches | scripts/lrm_corpus.py:1325-1362 | both hold while no line takes a known macro out of its known state, the second if all tests are known |
| VerilogBranches.UndefinedMacroMisleads | scripts/lrm_corpus.py:1333-1336 | a text that undefines a caller's macro and tests it: the compiled line is dropped and the other kept |
| VerilogBranches.DefinedVerilatorMisleads | scripts/lrm_corpus.py:1331-1338 | the same for a text that defines VERILATOR |
| VerilogBranches.IncludedMacroMisleads | scripts/lrm_corpus.py:1333-1338 | the same for a text that includes a file which defines a macro the text does not |
| CBranches.WithoutCVerilatorBranches | scripts/lrm_corpus.py:1365-1398 | what is returned is the lines at rising places, which are exactly the directives and the text lines the machine marks |
| CBranches.StrippedHoldsSurvivors | scripts/lrm_corpus.py:1382-1397 | on well-nested text the marked lines are those of the branches the structure retains |
| CBranches.StrippingIsIdempotent | scripts/lrm_corpus.py:1365-1398 | stripping twice is stripping once, for any text |
| CBranches.StrippingKeepsDirectives | scripts/lrm_corpus.py:1393-1395 | every directive stays, in order |
| CBranches.UnconditionalVerilatedInclude | scripts/lrm_corpus.py:1307-1322 | the loop decides whether a matching line stands at depth zero |
| CBranches.IncludeCheckIsExact | scripts/lrm_corpus.py:1307-1322 | on well-nested text, stripped or not, that is whether a matching line stands outside every conditional |
| CBranches.StrippingKeepsIncludes | scripts/lrm_corpus.py:1485-1490 | the check gives the same answer before and after stripping, because its depth is the stripper's stack height |
| CBranches.SoundExactlyIfNotMisjudged | scripts/lrm_corpus.py:1382-1397 | every line another simulator may compile is in the stripped file exactly when no reachable chain opens with the VERILATOR test, has no negated VERILATOR test, ends its #elif branches with some other test, and then has an #else with a line that may be compiled |
| CBranches.PreciseExactlyIfNotOverkept | scripts/lrm_corpus.py:1382-1397 | every text line in the stripped file may be compiled elsewhere exactly when no retained chain has, behind a negated VERILATOR test, kept text in an #elif of some other test or in an #else not taken for Verilator's |
| CBranches.ExactWithoutElif | scripts/lrm_corpus.py:1365-1398 | without #elif the stripped file's text is what another simulator may compile, no more and no less |
| CBranches.ElifKeptAfterNegation | scripts/lrm_corpus.py:1386-1387 | a chain whose #elif is kept though no other simulator compiles it |
| CBranches.ElifLosesElse | scripts/lrm_corpus.py:1386-1390 | a three-branch chain whose #else is wrongly dropped |
| VUnit.Subresults | scripts/lrm_corpus.py:3155-3253 | a named row passes exactly when its test started once, was blamed for nothing and the suite finished once; the suite row exactly when no line broke the protocol and the reported count is right |
| VUnit.ObserveFollows | scripts/lrm_corpus.py:3178-3216 | the monitor's counters say what the lines so far say |
| VUnit.PassesExactlyIfClean | scripts/lrm_corpus.py:3155-3253 | all rows pass exactly when tests are configured, the simulation ran, each expected test started once and nothing else did, nothing failed, and one finish with zero failures is the last marker |
| VestsLibraries.Cases | scripts/lrm_corpus.py:2251-2293 | one case per test line; if every case runs in the chain, each sees exactly the libraries immediate deletes would have left, whether or not compilations fail; in general all that run do exactly when, at each of them, the waiting deletes are those of the libraries the script lost since the last one that ran |
| VestsLibraries.RunningIsSettled | scripts/lrm_corpus.py:2261-2293 | while every test runs, the waiting deletes are the right ones, and the libraries tracked as compiled are the libraries there are |
| VestsLibraries.SeesExactly | scripts/lrm_corpus.py:2289-2293 | the exact condition, at every point of a script |
| VestsLibraries.ImmediateIs | scripts/lrm_corpus.py:2251-2293 | a library of the script holds exactly the sources of the tests that ran and compiled into it since its last delete |
| VestsLibraries.CreatedIs | scripts/lrm_corpus.py:2258-2260 | the libraries on offer are those created so far, in order |
| VestsLibraries.WithoutIs | scripts/lrm_corpus.py:2283-2285 | a case searches them all but its own, in order |
| VestsLibraries.DeleteIsLost | scripts/lrm_corpus.py:2289-2301 | a delete that waits for a case which does not run is never done |
| VestsLibraries.DeleteFails | scripts/lrm_corpus.py:2289-2301 | a library only such a case was to fill is deleted all the same, which fails |
| VestsLibraries.DeleteAllSucceeds | scripts/lrm_corpus.py:2289-2290 | a list of deletes succeeds exactly when the libraries are distinct and all there, and removes just them |
| Scanning.Scan | scripts/audit_msvc_test_strings.py:42-93 | the scan returns the literals of its steps, in order |
| Scanning.TokensAreSpans | scripts/audit_msvc_test_strings.py:42-93 | literals are nonempty, in bounds, disjoint, ordered and measured in UTF-8 bytes |
| Scanning.TokensExactly | scripts/audit_msvc_test_strings.py:42-93 | a stretch is found exactly when a step of the scan starts there and is a literal that ends there |
| Scanning.CharBytesIsFewest | scripts/audit_msvc_test_strings.py:73-75 | a character counts as the fewest bytes whose payload bits can carry it |
| Scanning.TokensOfSuffix | scripts/audit_msvc_test_strings.py:42-93 | scanning a suffix alone finds what the whole scan finds from there |
| Scanning.RestartAtBoundary | scripts/audit_msvc_test_strings.py:42-93 | restarting at any step boundary gives the rest of the whole scan |
| Literals.RestartLiterals | scripts/audit_msvc_test_strings.py:42-93 | for the real scanner: at any step boundary the literals are those before it and those of the rest scanned alone |
| Literals.QuoteEndIsFirstClose | scripts/audit_msvc_test_strings.py:30-39 | a literal ends right behind its first quote with an even number of backslashes before it, or with the text |
| Literals.SkipQuoted | scripts/audit_msvc_test_strings.py:30-39 | the loop computes that end |
| Literals.Find | scripts/audit_msvc_test_strings.py:47-51 | the first occurrence at or after a place, or none |
| Literals.NextLooksAhead | scripts/audit_msvc_test_strings.py:46-92 | a scan step depends only on the text from its cursor on |
| Literals.Literals | scripts/audit_msvc_test_strings.py:42-93 | the result is all steps of the scan that are literals, in order, and nothing else |
| Literals.NextExactly | scripts/audit_msvc_test_strings.py:45-92 | what a step is and where it ends: a comment at its mark, a character or string literal behind the first unescaped quote, a raw literal behind the first closing mark of its delimiter, or one character; no other step is possible |
| Literals.FoundExactly | scripts/audit_msvc_test_strings.py:42-93 | both together: which stretches of a text are found |
| Audit.IsTrivia | scripts/audit_msvc_test_strings.py:96-111 | the loop decides whether a text is white space and closed comments, piece by piece |
| Audit.JoinedExactly | scripts/audit_msvc_test_strings.py:96-111 | for consecutive literals that is the case of the text cut out between them exactly when every step of the whole text's scan between them passes white space or a comment |
| Audit.RunStartIsLongest | scripts/audit_msvc_test_strings.py:136-142 | the running group is the longest joined run that ends at its token |
| Audit.AuditFile | scripts/audit_msvc_test_strings.py:130-148 | the running maximum is the largest total of any joined run, and is attained |
| Audit.AuditAll | scripts/audit_msvc_test_strings.py:118-168 | for a positive threshold the audit fails exactly when some file has a joined run that reaches it; otherwise always |

## Left out

- Corrupt: takes a bound on the draws, which the source does not have; its contract and EndsExactlyIf say when drawing without one ends and CorruptionIsFixed that the bound changes nothing else, but that a given seed's stream meets the condition is not shown. It asks for a nonempty codeword.
- PlaceErasures: the same bound on draws.
- PlaceErrors: the same bound on draws.
- DriveDecoder: assumes that a raised timeout stays raised.
- ParityIsEquivalence: is about the transcript part of the payload; PairParityExactly adds the codec tags and the result lines.
- WithoutVerilatorBranches: a directive is a whole line; directives inside a line, and text with unbalanced directives, are outside the well-nested statements.
- Cases: a compilation opens its library before it analyses anything (src/app/application_workspace_compile.cpp), so a failed one leaves the library; a failure before that point, such as a bad command line, is not modelled, nor are groups that are not chained, which ignore deletes.
- Subresults: the wording and truncation of failure details.
- The Galois-field product and the generator coefficients: their definitions are not part of this model; only their laws are used.
- Fingerprints, event printing and the output side of the drivers (capture, drain, stall counters).
- The validation of summaries against fixture metadata, and the known-answer line's syntax.
- Path normalisation inside a preflight identity, JSON encoding, timing, affinity, statistics and qualification rules.
- Rewriting of external testbenches by text anchors, and the per-suite adapters and exclusion tables of the corpus runner.
- Case selection and grouping into units: single-branch filters.
- The simulator itself.
