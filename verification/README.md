# qencoder core in Dafny

qencoder is a Qt front end for chunked AV1/VP9/VP8 encoding. It is built on
a bundled, modified copy of av1an (`qencoder/pav1n.py`), and an older
stand-alone copy (`pav1n.py`) sits next to it. A run goes through these
steps:

1. The window turns its widgets into an argument dictionary. That is
   `getArgs` in `qencoder/window.py`; the older `qencoder.py` does the same.
   `merge_args` then lays it over the back end's defaults.
2. Scene detection picks cut points, which are pruned, reduced and
   serialised.
3. The source is split at those cuts. Each chunk gets an encoder command
   pair. An optional brightness boost, or a target-VMAF search, rewrites
   the chunk's `--cq-level=`.
4. Finished chunks are recorded in a progress ledger (`done.txt` /
   `done.json`), so that a resumed run skips them.
5. The chunks are concatenated with ffmpeg's concat demuxer.

This project models those pure parts as Dafny functions over immutable
values:

- Python strings are `seq<char>`.
- Integers are unbounded, as in Python.
- Floats that only reach comparisons and `round` are exact `real`s.
- Every Python exception the code can raise is an `Err` of `Common.Error`.

The modules follow the program's structure:

| module | file | what it models |
|---|---|---|
| Common | common.dfy | Python built-ins the code leans on: `str(int)`, `int()`, `str.split`, `find`/`rfind`, slicing, `round`, `//`, `join`, `replace` |
| Quoting | quoting.dfy | the POSIX-shell quote `'"'"'` and the concat-list quote `'\''`, a POSIX shell word reader, ffmpeg's `av_get_token` |
| Paths | paths.dfy | `pathlib` name/suffix/with_suffix, `os.path` dirname/basename/splitext |
| ChunkPlan | chunkplan.dfy | `scene_detect`, `reduce_scenes`, `split`, `setup_routine`: keyframe filter, short-scene pruning, worker reduction, cut serialisation |
| EncodeJobs | encodejobs.dfy | `aom_vpx_encode`, `compose_encoding_queue`, the older `aom_encode` |
| CqLevel | cqlevel.dfy | `man_cq`, `boost`, the target quantizer write-back in `encode` |
| Ledger | ledger.dfy | `write_progress_file`, `frame_check`, the `done.txt` records and their reader |
| WorkQueue | workqueue.dfy | `get_video_queue`, `determine_resources`, the resume start state, the progress percentage |
| TargetVmaf | targetvmaf.dfy | `early_skips`, `get_closest`, `target_vmaf_search`, `gen_probes_names`, `probe_cmd`, `two_step_cmd` |
| Parsers | parsers.dfy | the `frame=` probe parsers, the progress-line counter, the keyframe-list parser |
| EncoderOptions | options.dfy | the aomenc/vpxenc flags the GUI emits, their rendering and parsing back, `getCPUUsed` |
| GuiParams | guiparams.dfy | `qencoder/window.py`: `getFFMPEGParams`, `getVideoParams`, `getAudioParams`, `getColorData`, `getArgs`, the queue buttons |
| LegacyGuiParams | legacyparams.dfy | the same builders in the older `qencoder.py` |
| Av1anArgs | mergeargs.dfy | `get_default_args`, `merge_args`, `done_count` |
| Assemble | assemble.dfy | `concatenate_video`: the concat list, the ffmpeg argument vector, the cleanup rule |

Many properties are stated against a second, independent description of the
same thing:

- A shell command string is checked against the argument vector the shell
  gives the program. That vector comes from `Quoting.Tokens`.
- A serialised cut list is checked against the list read back by splitting
  at commas.
- A concat list is checked against what the demuxer reads back.
- The pruning loop is checked against a greedy keep-mask, and that mask is
  proved unique.

Two defects sit on the path from scene detection to the split: `reduce_scenes`
halves only once, and `split` tests the length of its argument (see
Findings). The pipeline members of ChunkPlan therefore take a `Reading`:
`AsWritten` follows the program as it stands, and `Intended` follows the
evident intent. Lemmas state where the two agree and where they differ.

## Model

| member | source | states |
|---|---|---|
| ChunkPlan.KeyframeFilter | qencoder/pav1n.py:189-195 | unsafe split keeps every detector cut. Otherwise a cut survives exactly when it is a keyframe. Order is kept. |
| ChunkPlan.KeyframeFilterCounts | qencoder/pav1n.py:189-192 | the filter keeps each occurrence of a keyframe cut and drops every other cut. Counted with multiplicity. |
| ChunkPlan.GreedyKeep | qencoder/pav1n.py:203-206 | reference rule for the pruning pass. Survivors form a subsequence, and the first is at least the minimum distance past the last kept cut. |
| ChunkPlan.GreedyKeepSpaced | qencoder/pav1n.py:203-206 | consecutive survivors of the reference rule are at least the minimum distance apart |
| ChunkPlan.GreedyPrune | qencoder/pav1n.py:202-206 | the pass keeps the first cut, keeps a subsequence, and leaves an empty list empty |
| ChunkPlan.GreedyPruneSpaced | qencoder/pav1n.py:203-206 | after pruning, neighbouring cuts are at least the minimum distance apart |
| ChunkPlan.PruneShortScenes | qencoder/pav1n.py:202-206 | the literal `imod` loop with in-place `del` computes exactly the greedy reference pass |
| ChunkPlan.DropShortTail | qencoder/pav1n.py:207-208 | an empty list raises. The last cut is dropped exactly when it lies within the minimum distance of the end. |
| ChunkPlan.Prune | qencoder/pav1n.py:200-209 | it raises only for a positive distance on an empty list, and a non-positive distance changes nothing. The result is a spaced subsequence keeping the first cut. |
| ChunkPlan.GreedyPruneIsGreedyMask | qencoder/pav1n.py:203-206 | the pass equals selection by a keep-mask. The mask meets the greedy condition: keep a cut iff it is at least the distance past the last kept one. |
| ChunkPlan.GreedyMaskUnique | qencoder/pav1n.py:203-206 | at most one mask satisfies the greedy condition, so the pass is fully determined by it |
| ChunkPlan.IdealPoints | qencoder/pav1n.py:214 | one ideal split point per worker, the x-th at `x * totalFrames // workers` |
| ChunkPlan.NearestIndex | qencoder/pav1n.py:221 | `min(..., key=abs(x - i))` picks a closest cut, and the first one among ties |
| ChunkPlan.NearestAll | qencoder/pav1n.py:218-221 | one pick per ideal point, each the nearest cut |
| ChunkPlan.SortedSet | qencoder/pav1n.py:222-223 | `sorted(set(xs))` is strictly ascending with exactly the members of `xs` |
| ChunkPlan.ReduceToWorkers | qencoder/pav1n.py:211-224 | raises only for positive workers with no cuts. Otherwise strictly ascending, at most one cut per worker, all drawn from the input. |
| ChunkPlan.ReduceToWorkersPicks | qencoder/pav1n.py:218-224 | the reduced cuts are exactly the nearest cuts to the ideal points, no more and no fewer |
| ChunkPlan.Evens | qencoder/pav1n.py:127 | `scenes[::2]` keeps ceil(n/2) elements and the first one, and shrinks any list of two or more |
| ChunkPlan.EvensAt | qencoder/pav1n.py:127 | the k-th kept element is element 2k, so the result is a subsequence |
| ChunkPlan.ReduceScenesAsWritten | qencoder/pav1n.py:124-129 | as written: at most one halving, because the recursive result is discarded |
| ChunkPlan.ReduceScenesAsWrittenLeavesTooMany | qencoder/pav1n.py:126-129 | with 1202 cuts or more, more than 600 remain, which misses the documented limit |
| ChunkPlan.ReduceScenes | qencoder/pav1n.py:124-129 | corrected: at most 600 remain, more than 300 when halving happened, as a subsequence keeping the first cut |
| ChunkPlan.NatStrings | qencoder/pav1n.py:224 | `[str(x) for x in scenes]`, element by element |
| ChunkPlan.EncodeCuts | qencoder/pav1n.py:229-231 | at most one cut gives the sentinel `['0']`, and nothing else does |
| ChunkPlan.SplitCommaJoin | qencoder/pav1n.py:231 | comma-joined comma-free items split back into the same items |
| ChunkPlan.EncodeCutsRoundTrip | qencoder/pav1n.py:229-231 | splitting the joined string at commas and reading each numeral gives back every cut after the first, in order |
| ChunkPlan.Halve | qencoder/pav1n.py:124-129 | the off-Linux reduction under either reading keeps a subsequence with the first cut. Up to 600 cuts it changes nothing. As intended at most 600 remain; as written at most 600 remain exactly when there were at most 1200. |
| ChunkPlan.HalveReadingsAgree | qencoder/pav1n.py:124-129 | the program's single halving and the intended repeated halving agree exactly on lists of at most 1200 cuts |
| ChunkPlan.WorkerCuts | qencoder/pav1n.py:185-221 | every failure is the bare re-raised Exception, and it cannot fail without pruning or reduction. With reduction the cuts ascend, at most one per worker. |
| ChunkPlan.PlannedCuts | qencoder/pav1n.py:155-228 | fails exactly when the filter, prune and worker steps fail, with the bare Exception. On Linux the cuts are not halved. Off Linux, as intended, at most 600 remain; as written, at most 600 remain exactly when the worker step left at most 1200. |
| ChunkPlan.PlannedCutsReadingsAgree | qencoder/pav1n.py:124-129 | the program plans the same cuts as the corrected pipeline exactly on Linux, after a failure, or with at most 1200 cuts left by the worker step |
| ChunkPlan.PlanCuts | qencoder/pav1n.py:155-233 | under either reading, `scene_detect`'s value fails exactly when planning fails, and is otherwise the serialised planned cuts |
| ChunkPlan.PlannedCutsAreCandidates | qencoder/pav1n.py:158-224 | under either reading, every planned cut is a detector cut that passed the keyframe filter, or the leading 0 of the aomenc scan |
| ChunkPlan.PlannedCutsSpaced | qencoder/pav1n.py:200-209 | without reduction, on Linux, neighbouring planned cuts are at least the minimum distance apart |
| ChunkPlan.SceneDetect | qencoder/pav1n.py:137-238 | scenes `'0'` returns the empty string. A failing frame probe raises. A saved scenes file is returned as read. The only list returned is `['0']`. |
| ChunkPlan.SplitAsWritten | qencoder/pav1n.py:240-249 | as written: a whole-file copy exactly when `len(frames) == 1` |
| ChunkPlan.SplitAsWrittenCopiesSingleDigitCut | qencoder/pav1n.py:229-242 | cuts `[0, 5]` serialise to the string `"5"`, of length 1, so the split copies the whole file instead of cutting at 5 |
| ChunkPlan.Split | qencoder/pav1n.py:240-249 | corrected: a whole-file copy exactly for the `['0']` sentinel |
| ChunkPlan.SplitOfEncodeCuts | qencoder/pav1n.py:229-249 | the whole file is copied iff at most one cut was planned. Otherwise the segment list is the joined cuts after the first. |
| ChunkPlan.SetupSplit | qencoder/pav1n.py:528-540 | a resume with `done.txt` skips splitting, and a detection failure propagates. An empty `framenums` aborts. Otherwise the whole file is copied exactly when `len(framenums) == 1` as written, or for the sentinel as intended, and a cut string is otherwise the segment list. |
| ChunkPlan.SkippedDetectionAbortsSetup | qencoder/pav1n.py:138-140 | choosing to skip detection makes a fresh run abort before splitting |
| ChunkPlan.PlannedCutsReachSplit | qencoder/pav1n.py:229-249 | successfully planned cuts always reach the split. As intended, the whole file is copied iff at most one cut was planned. As written, it is also copied for two cuts whose second is below 10. Otherwise the segments start at the cuts after the first. |
| ChunkPlan.SegmentLengthsSum | qencoder/pav1n.py:248 | cutting at strictly ascending interior frames gives non-empty chunks whose frame counts add up to the total |
| ChunkPlan.WorkedExample | qencoder/pav1n.py:155-233 | as written, a 1000-frame source with cuts 0, 250 and 600 on keyframes plans `"250,600"`, giving chunks of 250, 350 and 400 frames |
| ChunkPlan.LegacyPlan | pav1n.py:146-150 | on Linux, or with at most 600 timecodes, the plan is the timecodes after the first joined by commas, under either reading of `reduce_scenes` (pav1n.py:96-101) |
| ChunkPlan.LegacySplit | pav1n.py:162-170 | the older split copies the whole file exactly for an empty timecode string |
| ChunkPlan.LegacySplitCopiesIffOneScene | pav1n.py:144-170 | with non-empty timecodes, under either reading, the older pipeline copies the whole file iff at most one scene remains after halving |
| CqLevel.ManCqSplice | qencoder/pav1n.py:369-373 | with `--cq-level=` present, the rewrite is a splice: the text up to the value, `str(cq)`, the text after the two-character value. The value stays at the same offset. |
| CqLevel.ManCqAbsent | qencoder/pav1n.py:371-372 | without the flag, `find` gives -1, so the value window is offsets 10 to 12 |
| CqLevel.ParseManCq | pav1n.py:277-278 | a two-digit quantizer written by `man_cq` is read back by `boost`'s `int(command[v:v + 2])` |
| CqLevel.ManCqOverwrite | qencoder/pav1n.py:369-373 | two rewrites in a row equal one rewrite with the second value |
| CqLevel.ManCqOfCurrent | qencoder/pav1n.py:369-373 | writing back the value already there leaves the command unchanged |
| CqLevel.BoostedCq | pav1n.py:279-287 | a non-zero `new_cq` wins. A bright chunk keeps its quantizer. A dark one is lowered by the rounded offset, but not below `bl`. |
| CqLevel.BoostNeverRaises | pav1n.py:280-285 | a non-negative strength never raises the quantizer, except up to the floor |
| CqLevel.BoostAtMostStrength | pav1n.py:280-281 | for brightness in [0, 128), the quantizer drops by at most `br` |
| CqLevel.BoostMonotone | pav1n.py:280-285 | a darker chunk never gets a higher quantizer |
| CqLevel.Boost | pav1n.py:275-291 | fails with ValueError exactly when the current value does not parse. The new quantizer is the boosted one, and the command is rewritten with it. |
| CqLevel.BoostWritesCq | pav1n.py:288-291 | the boosted command carries the new two-digit value, readable by the next `boost`. Every other character is unchanged. |
| CqLevel.BoostLegacyJob | pav1n.py:302-311 | succeeds only for two passes, and an unparsable pass 1 is a ValueError. Source and target are kept, and pass 1 gets the boosted quantizer. |
| CqLevel.BoostLegacyJobSameCq | pav1n.py:305-309 | both passes end with the quantizer chosen for pass 1 |
| CqLevel.ApplyTargetCq | qencoder/pav1n.py:401-410 | a one-pass job raises TypeError (string plus tuple). A two-pass job gets both passes rewritten to the target quantizer, with index and paths kept. |
| CqLevel.ApplyTargetCqSettles | qencoder/pav1n.py:404-408 | both passes then read back as the target, and applying it again changes nothing |
| EncodeJobs.EncoderBinary | qencoder/pav1n.py:285-291 | `vpx` gives vpxenc and `aom` gives aomenc. Any other encoder leaves `enc` unbound. |
| EncodeJobs.IvfTarget | qencoder/pav1n.py:302-305 | `with_suffix(splitext + ".ivf")` fails exactly for a path with an empty name |
| EncodeJobs.IvfTargetOfPlain | qencoder/pav1n.py:302-305 | for an ordinary chunk path `<dir>/0003.mkv`, the target is the path plus `.ivf` |
| EncodeJobs.MakeJob | qencoder/pav1n.py:297-319 | the job for one chunk is built iff its encoded path has a name, and then it is that chunk's one- or two-pass job |
| EncodeJobs.AomVpxEncode | qencoder/pav1n.py:283-320 | an unknown encoder is a NameError, and a pass count other than 1 or 2 returns None. Otherwise one job per chunk, in order, each that chunk's job. |
| EncodeJobs.AomVpxEncodeCommands | qencoder/pav1n.py:293-318 | each queue entry carries the one-pass fragment, or the first-pass and second-pass fragments, of its chunk |
| EncodeJobs.ChunksOf | qencoder/pav1n.py:324-326 | each file maps to its `split/` and `encode/` paths, in order |
| EncodeJobs.ComposeQueue | qencoder/pav1n.py:322-339 | queue entry i has index i, source `split/<name>` and the `.ivf` target. Bad encoder: NameError. Bad pass count: TypeError. No files: exit. |
| EncodeJobs.ComposeQueueOfPlainNames | qencoder/pav1n.py:322-339 | with ordinary chunk names, a queue is always composed, each target being the encoded chunk plus `.ivf` |
| EncodeJobs.FfmpegPipeArgv | qencoder/pav1n.py:60-62 | the pipe fragment splits into `-strict -1 -pix_fmt <fmt>`, the extra ffmpeg words, `-f yuv4mpegpipe -`, and the `|` |
| EncodeJobs.OnePassArgv | qencoder/pav1n.py:303-304 | ffmpeg reads the chunk (any quotes in the path survive). The encoder gets `--passes=1`, the video params, `-o <encoded>.ivf` and reads stdin. |
| EncodeJobs.FirstPassArgv | qencoder/pav1n.py:314-315 | the first pass reads the chunk, writes statistics to `<source>.log` and discards the video to `/dev/null` |
| EncodeJobs.SecondPassArgv | qencoder/pav1n.py:316-318 | the second pass reads the same statistics file and writes `<encoded>.ivf` |
| EncodeJobs.QuoteWithPlainSuffix | qencoder/pav1n.py:300-304 | escaping a path and then appending `.ivf`/`.log` quotes the same as escaping the suffixed path |
| EncodeJobs.LegacyAomJob | pav1n.py:220-225 | the older job is built iff both paths have names. Its target is the encoded path with its extension replaced by `.ivf`. |
| EncodeJobs.LegacyAomEncode | pav1n.py:213-227 | one older two-pass job per chunk, in order |
| EncodeJobs.LegacyComposeQueue | pav1n.py:229-247 | any encoder but aom exits. For aom the queue is built exactly when every chunk path and its target have a name, and then holds one job per name, in order, each the two-pass job for `split/<name>` and `encode/<name>` |
| EncodeJobs.LegacyFirstPassArgv | pav1n.py:221-222 | with plain paths, the older first pass reads the chunk, runs `aomenc -q --passes=2 --pass=1` and keeps statistics in the given file |
| EncodeJobs.LegacySecondPassArgv | pav1n.py:223-224 | the doubled blank after `aomenc` is harmless. The second pass reads the statistics and writes the `.ivf`. |
| EncodeJobs.LegacyAomArgv | pav1n.py:220-225 | both older passes of a job share `<source stem>.log`, and the second writes the target |
| Ledger.Put | qencoder/ffmpeg.py:54 | after `d[k] = v`, `k` maps to `v` and every other key is unchanged. An existing key keeps its place; a new key is appended. Keys stay distinct. |
| Ledger.PutSum | qencoder/pav1n.py:488 | `sum(done.values())` grows by the new count less the one replaced |
| Ledger.WriteProgress | qencoder/ffmpeg.py:50-56 | the total is kept, the chunk's name maps to its frame count, and no other chunk changes |
| Ledger.WriteProgressIdempotent | qencoder/ffmpeg.py:50-56 | recording the same chunk with the same count twice equals recording it once |
| Ledger.FrameCheck | qencoder/ffmpeg.py:59-82 | when the gate passes, the source's count is recorded under its name, and otherwise the ledger is unchanged. It raises exactly when a probe IndexError escapes. |
| Ledger.Swallow | qencoder/ffmpeg.py:74-79 | an IndexError becomes the "Encoding failed" exception, and any other failure leaves the ledger as it was |
| Ledger.FrameCheckEntryOnlyThroughGate | qencoder/ffmpeg.py:64-72 | an entry changes only for the checked chunk, and only when the gate passed. The new value is the source's count. |
| Ledger.FrameCheckNocheckIgnoresEncoded | qencoder/ffmpeg.py:64-66 | with `nocheck` set, the encoded chunk's probe plays no part |
| Ledger.LegacyFrameCheck | pav1n.py:181-191 | fails iff a probe fails. Equal counts append the `(frames, "name"), ` record, and different counts leave done.txt as it was. |
| Ledger.LegacyFrameCheckAppends | pav1n.py:187-189 | on a done.txt made of records, a matching check appends exactly one more record |
| Ledger.ParseOneRecord | pav1n.py:189 | one written record, followed by anything, is read back as its count and name, and the reader stops right after it |
| Ledger.ParseRecordsRoundTrip | pav1n.py:187-202 | the records the older `frame_check` appends are read back by `literal_eval` of the line as the same records, in order |
| Ledger.LiteralEvalLine | pav1n.py:202 | when the line is a record tuple, the records are those the record reader finds |
| Ledger.LastLine | pav1n.py:201-202 | `[line for line in f][-1]` fails exactly on an empty file |
| Ledger.DoneFileLastLine | pav1n.py:382-386 | with records, the last line of done.txt is the record line. Before any record it is the total's line. |
| Ledger.TotalLineIsTotal | pav1n.py:394-396 | the first line of done.txt, as written, reads back as the bare total |
| Ledger.RecordNames | pav1n.py:203 | `[x[1] for x in data]`, element by element |
| Ledger.ResumeNamesAsWrittenFailsOnFreshFile | pav1n.py:199-203 | a done.txt holding only the total makes the reader iterate over an int: TypeError |
| Ledger.ResumeNamesOfDoneFile | pav1n.py:199-203 | corrected reader: every recorded chunk name, in order, and none before the first record |
| WorkQueue.Chunks | qencoder/pav1n.py:261 | the queue holds exactly the entries whose final path component has the suffix `.mkv` |
| WorkQueue.ChunkNames | qencoder/pav1n.py:261 | a numbered chunk is queued. A hidden `.mkv` file and a file under a directory named like a chunk are not. |
| WorkQueue.DropNames | qencoder/pav1n.py:269 | exactly the entries whose name is not recorded remain |
| WorkQueue.SortBySize | qencoder/pav1n.py:274 | `sorted(key=-size)` is a permutation, biggest first |
| WorkQueue.SortBySizeStable | qencoder/pav1n.py:274 | files of equal size keep their listing order, so the sort is fully determined |
| WorkQueue.QueueOf | qencoder/pav1n.py:274-281 | a non-empty, biggest-first permutation of the unskipped chunks. It raises exactly when every chunk is skipped. |
| WorkQueue.SkipSet | qencoder/pav1n.py:263-272 | names are skipped only when resuming from a done.json that loaded |
| WorkQueue.GetVideoQueue | qencoder/pav1n.py:253-281 | biggest first, it holds exactly the chunks without an entry in a loaded ledger, each as often as the listing holds it. It raises exactly when every chunk is skipped. |
| WorkQueue.UnreadableLedgerKeepsAll | qencoder/pav1n.py:265-272 | a done.json that fails to load filters nothing: the queue of a fresh run |
| WorkQueue.RecordedChunkSkipped | qencoder/pav1n.py:264-269 | a chunk that `frame_check` recorded is not queued again on resume |
| WorkQueue.NameSet | pav1n.py:203 | membership in the list of recorded names |
| WorkQueue.LegacyVideoQueueAsWritten | pav1n.py:193-211 | as written: without resume or without done.txt, the queue is every chunk, biggest first |
| WorkQueue.LegacyResumeBeforeFirstChunkFails | pav1n.py:197-203 | resuming before any chunk finished stops with TypeError instead of building the queue |
| WorkQueue.LegacyVideoQueue | pav1n.py:193-211 | corrected: without resume or without done.txt, the queue is every chunk |
| WorkQueue.LegacyResumeSkipsRecorded | pav1n.py:197-211 | resuming skips exactly the chunks whose records were appended |
| WorkQueue.RamGiB | qencoder/pav1n.py:91 | memory in whole GiB, within half a GiB of the exact value |
| WorkQueue.DetermineResources | qencoder/pav1n.py:88-101 | never 0, at least 1 for a known encoder, and the configured count for any other encoder |
| WorkQueue.DetermineResourcesFits | qencoder/pav1n.py:93-101 | beyond the floor of one, aom/rav1e/vpx get at most a worker per two cores and per 1.5 GiB, rounded. SVT-AV1 gets at most one per five cores and per five GiB. |
| WorkQueue.WorkerCap | qencoder/pav1n.py:475 | `min(len(commands), workers)` is one of the two and at most each |
| WorkQueue.PoolFitsQueue | qencoder/pav1n.py:475 | a built queue and a known encoder give at least one worker and no more than one per chunk |
| WorkQueue.StartState | qencoder/pav1n.py:479-498 | a resume reads the stored ledger, and a load failure propagates. Otherwise the input is probed and a fresh ledger starts with nothing done. |
| WorkQueue.ReplayAppends | qencoder/ffmpeg.py:50-56 | successive writes of distinct chunks append them to `done` in order |
| WorkQueue.ResumeCountsRecorded | qencoder/pav1n.py:481-490 | a resumed run counts exactly the chunks recorded and the frames they hold |
| WorkQueue.ProgressPercent | qencoder/pav1n.py:469-470 | the percentage raises ZeroDivisionError exactly for a zero total |
| WorkQueue.ProgressPercentRange | qencoder/pav1n.py:469-470 | over the encode the main bar runs from 10 (nothing done) to 100 (all done) |
| WorkQueue.ProgressMonotone | qencoder/pav1n.py:469-470 | more frames done never lowers the bar |
| Av1anArgs.DictOf | qencoder/av1anworkarounds.py:7-14 | a dict literal has exactly the listed keys, and the last entry's value wins |
| Av1anArgs.DictOfLookup | qencoder/av1anworkarounds.py:7-14 | a key's value is that of its last entry in the literal |
| Av1anArgs.DefaultValues | qencoder/av1anworkarounds.py:10-14 | the defaults give encoder `aom` and quiet `True` |
| Av1anArgs.Overlay | qencoder/av1anworkarounds.py:31-33 | the result has the union of the keys. Supplied values win, and every other default keeps its value. |
| Av1anArgs.MergeArgs | qencoder/av1anworkarounds.py:30-35 | the defaults overlaid with the supplied dictionary: every key of either, supplied values winning |
| Av1anArgs.MergeLoop | qencoder/av1anworkarounds.py:31-35 | the key-by-key assignment loop, in any iteration order, computes the overlay |
| Av1anArgs.OverlayIdempotent | qencoder/av1anworkarounds.py:32-33 | running the assignments a second time changes nothing |
| Av1anArgs.MergeArgsFixpoint | qencoder/av1anworkarounds.py:30-35 | merging an already merged dictionary gives it back |
| Av1anArgs.DoneCount | qencoder/av1anworkarounds.py:38-45 | 0 when not resuming or without done.json. A load failure propagates. |
| Av1anArgs.DoneCountIsInitial | qencoder/av1anworkarounds.py:38-45 | the count agrees with the frames `encoding_loop` starts from |
| Av1anArgs.DoneCountAfterWrites | qencoder/av1anworkarounds.py:38-45 | after a run recorded some chunks on a fresh ledger, the count is the sum of their frames |
| Av1anArgs.DoneCountGrows | qencoder/av1anworkarounds.py:43 | recording one more chunk of n frames raises the count by n |
| TargetVmaf.EarlySkips | qencoder/targetvmaf.py:137-163 | probes the maximum CQ first. It skips there when the rounded score beats the target, and skips at the minimum CQ when that rounded score falls short. Otherwise it continues with both probes. A probe failure propagates. |
| TargetVmaf.EarlySkipsHighCqProbesOnce | qencoder/targetvmaf.py:141-152 | a high-CQ skip returns before the minimum CQ is probed, so that probe plays no part |
| TargetVmaf.EarlySkipsDecides | qencoder/targetvmaf.py:146-163 | with both probes scored, the search continues exactly when the target lies between the two rounded scores |
| TargetVmaf.GetClosest | qencoder/targetvmaf.py:166-174 | `min` over the values on the requested side: a closest one on that side, and ValueError exactly when that side is empty |
| TargetVmaf.GetClosestIsNeighbour | qencoder/targetvmaf.py:169-174 | the closest value above is the least value above, and the closest below is the greatest below |
| TargetVmaf.StepMoves | qencoder/targetvmaf.py:186-192 | one search step probes the floor midpoint between the last and next CQ and records it. The next CQ becomes its nearest probed neighbour, above when the score reached the target and below otherwise. |
| TargetVmaf.MidpointBetween | qencoder/targetvmaf.py:186 | `(last_q + next_q) // 2` lies between the two |
| TargetVmaf.StepSound | qencoder/targetvmaf.py:184-192 | a step keeps every probed CQ within the configured range, with recorded scores matching the probe |
| TargetVmaf.RunSound | qencoder/targetvmaf.py:184-192 | after n steps: n probes recorded, n + 2 CQs listed, all within range |
| TargetVmaf.SearchProbes | qencoder/targetvmaf.py:177-194 | the search returns `vmaf_steps - 2` probes (none for fewer than three steps), each in range and scored by the probe |
| TargetVmaf.IterateFailureSticks | qencoder/targetvmaf.py:184-192 | once a step raises, the search raises that error |
| TargetVmaf.TargetVmafCq | qencoder/targetvmaf.py:197-229 | a failing frame probe propagates. Once the frames are counted, the search succeeds exactly when the early probes succeed and either skip, or the later probes and the interpolation over every probe succeed. Any later Exception becomes the bare Exception. An early skip returns its CQ, and otherwise the CQ is the interpolation over every probe. |
| TargetVmaf.EarlySkipBypassesSearch | qencoder/targetvmaf.py:206-208 | after an early skip, neither the step count nor the interpolation affects the result |
| TargetVmaf.RoundingGapRaises | qencoder/targetvmaf.py:146-191 | a score of 94.7 against target 95 at CQ 10..11 rounds to 95 and passes the early checks. The unrounded score misses the target, so the search looks for a probed CQ below the midpoint 10, finds none, and raises. |
| TargetVmaf.GenProbesName | qencoder/targetvmaf.py:70-73 | the probe's directory, then `v_<q>` plus its stem, with `.ivf` for the last suffix. An empty name raises (`with_name`). |
| TargetVmaf.ProbeNameJoin | qencoder/targetvmaf.py:73 | renaming keeps the directory and gives exactly the new name |
| TargetVmaf.GenProbesNamePlain | qencoder/targetvmaf.py:70-73 | for a stem without dots the name is `<dir>v_<q><stem>.ivf` |
| TargetVmaf.ProbeCmd | qencoder/targetvmaf.py:76-86 | the command ends with `-o <probe name> -`, and it fails exactly when the probe name is empty |
| TargetVmaf.ProbeCmdLayout | qencoder/targetvmaf.py:80-85 | the decoder words, the pipe's words up to `|`, then the encoder's one-pass words at the CQ, writing the probe file |
| TargetVmaf.TwoStep | qencoder/targetvmaf.py:114-120 | the words split around the last `|`. Without a `|`, both halves are empty. |
| TargetVmaf.TwoStepRejoins | qencoder/targetvmaf.py:117-120 | with a `|`, the two halves joined by it give back the command |
| TargetVmaf.TwoStepAt | qencoder/targetvmaf.py:117-120 | the split falls at the given `|` when no later one follows |
| TargetVmaf.ProbeCmdSplits | qencoder/targetvmaf.py:76-86 | when the pipe ends with its one `|`, the probe command splits into the decoder half and the encoder half |
| Parsers.RunSpan | qencoder/ffmpeg.py:16 | a `\s*` or `[0-9]+` run is maximal: every character inside belongs, and the one after does not |
| Parsers.NumeralIsDigitsValue | qencoder/ffmpeg.py:17 | a digit run is read with `int()` |
| Parsers.NumeralOfPrinted | qencoder/ffmpeg.py:16-17 | a printed count is read back as itself |
| Parsers.FindAllLast | qencoder/ffmpeg.py:16-17 | `findall(...)[-1]` is the group of the match that starts last, and `findall` is empty exactly when nothing matches |
| Parsers.LastMatchWins | qencoder/ffmpeg.py:16-17 | a match followed by no other gives the last item of `findall` |
| Parsers.FrameEqualsTidy | qencoder/ffmpeg.py:16 | matches of `frame=\s*([0-9]+)\s` never overlap the next one's start, so the scan over them is the regex's |
| Parsers.FrameEqualsReads | qencoder/ffmpeg.py:16 | `frame=`, spaces, a count and a space read as that count, wherever they stand |
| Parsers.FrameProbe | qencoder/ffmpeg.py:12-17 | the frame count of the `frame=` field that starts last in stderr then stdout. IndexError exactly when there is none. |
| Parsers.FrameProbeReadsLastField | qencoder/ffmpeg.py:12-17 | when the last field written is `frame=<pad><n> `, the probe gives n |
| Parsers.LegacyFrameProbe | pav1n.py:174-179 | `int()` of the text between the last `frame=` and the last `fps=`. A failure is ValueError. |
| Parsers.LastStatusFields | pav1n.py:178 | in a status line `frame=<pad><n> fps=` with no later field, both `rfind`s land on it |
| Common.PyInt | qencoder/pav1n.py:442 | `int()` succeeds exactly on optional blanks around ASCII digits with at most one leading sign, and gives their decimal value, negated after `-` and unchanged after `+` |
| Parsers.PyIntPadded | pav1n.py:178 | `int()` accepts the padded count and its trailing space |
| Parsers.LegacyFrameProbeReads | pav1n.py:174-179 | the probe reads the count of the last status line |
| Parsers.FrameOfTidy | qencoder/pav1n.py:439 | matches of `frame\s+\d+/(\d+)` never overlap the next one's start |
| Parsers.FrameOfReads | qencoder/pav1n.py:439 | `frame<pad><done>/<total>` reads as its total wherever it stands, given that no digit follows |
| Parsers.ProgressTotal | qencoder/pav1n.py:442 | a line reports a total exactly when it holds a match, and the total is the one in the match that starts last |
| Parsers.ProgressTotalReads | qencoder/pav1n.py:439-442 | the last progress field of a line gives its total |
| Parsers.CounterShowsLastReport | qencoder/pav1n.py:440-445 | after any lines, the counter is the starting count plus the last total reported. Lines without one are skipped. |
| Parsers.ProgressCounter | qencoder/pav1n.py:430-445 | the worker's counter shows its starting frames plus the last total the encoder printed, and is unchanged when it printed none |
| Parsers.ByteStrip | qencoder/ffmpeg.py:36 | `strip()` leaves no ASCII space at either end, and keeps a line that has none |
| Parsers.FirstKeyframeNone | qencoder/ffmpeg.py:41-42 | `re.search` finds nothing exactly when no position matches |
| Parsers.GetKeyframes | qencoder/ffmpeg.py:20-46 | at most one keyframe per line |
| Parsers.GetKeyframesAppend | qencoder/ffmpeg.py:35-44 | keyframes are collected line by line, in order |
| Parsers.LineWithoutColon | qencoder/ffmpeg.py:41-44 | a line with no `n:` field yields nothing |
| Parsers.KeyframeFields | qencoder/ffmpeg.py:41-43 | `n:<k>.<frac> pts:` followed on the same line by `key:1` matches with group k |
| Parsers.KeyframeLineReads | qencoder/ffmpeg.py:41-43 | the first such field of a line gives its keyframe |
| Parsers.KeyframeLineCollected | qencoder/ffmpeg.py:35-44 | a debug line carrying a key frame's `n:` field contributes exactly that frame number |
| EncoderOptions.FlagText | qencoder/window.py:627-662 | every printed option is one non-empty shell word that needs no quoting |
| EncoderOptions.RenderTokens | qencoder/window.py:627-662 | the blank-joined options split back, through the shell, into exactly the printed options in order |
| EncoderOptions.ParseFlagText | qencoder/window.py:627-662 | reading a printed option back at its `=` recovers the option |
| EncoderOptions.ParseFlagTexts | qencoder/window.py:627-662 | an encoder's option reader recovers every option, in order |
| EncoderOptions.NumberText | qencoder/window.py:627-648 | `--name=<int>` is read back as that numeric option, negative values included |
| EncoderOptions.Trunc | qencoder/window.py:410-412 | `int()` of a float truncates toward zero |
| EncoderOptions.TruncOdd | qencoder/window.py:410-412 | truncation is symmetric about zero |
| EncoderOptions.TruncMonotone | qencoder/window.py:410-412 | truncation never reverses an order |
| EncoderOptions.PresetSpeed | qencoder/window.py:404-413 | a custom preset (index 9) uses the speed box. Otherwise aom gets `8 - preset`, and vpx-vp9/vp8 spread presets 0..8 over -9..9 and -16..16. An unknown encoder gets 0. |
| EncoderOptions.PresetSpeedTable | qencoder/window.py:407-412 | the full speed table for each encoder, preset by preset |
| EncoderOptions.PresetSpeedMonotone | qencoder/window.py:407-412 | a slower preset never gives a higher speed |
| EncoderOptions.PresetSpeedSymmetric | qencoder/window.py:409-412 | for VP9 and VP8 the presets mirror around the middle preset 4 |
| Paths.Name | qencoder/targetvmaf.py:73 | a path's name holds no separator |
| Paths.StemSuffix | qencoder/targetvmaf.py:73 | stem and suffix together give back the name |
| Paths.WithSuffix | qencoder/targetvmaf.py:73 | `with_suffix` keeps the directory and the stem and replaces the suffix. It raises exactly for an invalid suffix or an empty name. |
| Paths.SplitExt | qencoder/pav1n.py:302 | `splitext`'s extension is empty or starts with a dot, and holds no separator |
| Paths.SplitWithin | qencoder/window.py:766 | `dirname` and `basename` introduce no character the path lacks |
| Paths.NameOfJoin | qencoder/targetvmaf.py:73 | a name placed after a directory prefix is the path's name, and the prefix its directory |
| Paths.SuffixOfPlain | qencoder/pav1n.py:302-305 | for `stem.ext`, the suffix is `.ext` and the stem is `stem` |
| Quoting.ConcatEscapeReads | qencoder/ffmpeg.py:92 | inside single quotes, the rewritten text reads back as the original, whatever follows |
| Quoting.ConcatQuoteRoundTrip | qencoder/ffmpeg.py:92 | `'` + the path with every `'` rewritten as `'\''` + `'` is read by ffmpeg's token reader as exactly the path |
| Quoting.ShellEscapeWord | qencoder/pav1n.py:300-301 | inside single quotes, text with `'` rewritten as `'"'"'` reads back as the original |
| Quoting.ShellQuoteRoundTrip | qencoder/pav1n.py:300-304 | a path single-quoted with that rewriting is one shell word, equal to the path |
| Quoting.QuotedWordTokens | qencoder/pav1n.py:300-304 | an option prefix glued to a quoted path, as in `--fpf='...'`, is one shell word: the prefix followed by the path |
| Quoting.JoinTokens | qencoder/pav1n.py:303-304 | blank-joined plain words split back into exactly those words |
| Quoting.DoubleQuotedTokens | qencoder/window.py:612-621 | a double-quoted filter chain without `"`, `$`, `` ` `` or `\` is one shell word |
| Quoting.TokensAppend | qencoder/pav1n.py:303-304 | the words of two blank-separated command parts are those of each part, in order |
| GuiParams.Quality | qencoder/window.py:539-543 | presets 0..8 map through the quality table, and higher indices use the spin box. A negative index misses the dictionary: KeyError. |
| GuiParams.QualityPresetsDescend | qencoder/window.py:113-123 | a later quality preset always gives a strictly lower CQ |
| GuiParams.AudioBitrate | qencoder/window.py:533-537 | presets 0..7 map through the bitrate table, and higher indices use the spin box. A negative index is KeyError. |
| GuiParams.AudioPresetsAscend | qencoder/window.py:125-134 | a later audio preset always gives a strictly higher bitrate |
| GuiParams.ColorData | qencoder/window.py:414-425 | the custom entry (index 4) returns the text, and VP8 gets nothing. Spaces 0..3 give the aomenc or vpxenc words of the colour table, and any other index is KeyError. |
| GuiParams.FfmpegParams | qencoder/window.py:604-622 | the custom text when chosen. Otherwise it is empty without crop or scale, and with either it ends with the closing `"`. |
| GuiParams.FfmpegParamsTokens | qencoder/window.py:607-622 | through the shell, the result is nothing or exactly `-filter:v` followed by the comma-joined crop and scale filters as one word |
| GuiParams.InVideoFlags | qencoder/window.py:627-662 | an option is printed exactly when it is the threads option, comes from one of the option groups, or is the bit depth |
| GuiParams.VideoFlagsKf | qencoder/window.py:628-633 | `--kf-max-dist` appears exactly for a positive distance, with that value. The speed is always printed. |
| GuiParams.VideoFlagsCodec | qencoder/window.py:630-636 | tiles are set exactly for aom and VP9, `--codec=vp8` exactly for VP8, and `--codec=vp9` exactly for VP9 |
| GuiParams.VideoFlagsMode | qencoder/window.py:638-641 | `--rt` exactly in realtime mode, and `--good` exactly otherwise |
| GuiParams.VideoFlagsUsage | qencoder/window.py:642-643 | bitrate mode gives `--end-usage=vbr` with the quality as the target bitrate. Otherwise the end usage is `q`. |
| GuiParams.VideoFlagsCq | qencoder/window.py:644-650 | in quality mode the CQ is the quality, raised to 4 for VP8. Lossless is printed exactly for quality 0 on aom or VP9. |
| GuiParams.FormatFlag | qencoder/window.py:657-662 | input formats 0..2 give `--i420`, 3..5 `--i422`, and the rest `--i444` |
| GuiParams.VideoParams | qencoder/window.py:624-663 | the custom command when it is chosen. Otherwise the generated options, whose shell words `GuiParams.VideoParamsTokens` states |
| GuiParams.VideoParamsTokens | qencoder/window.py:624-663 | through the shell, the generated options, then the colour words, then the input format option |
| GuiParams.VideoFlagsRead | qencoder/window.py:627-662 | every generated option is read back by the encoder as itself |
| GuiParams.AudioParams | qencoder/window.py:665-671 | the custom command when it is chosen. Otherwise Opus or a stream copy, whose words `GuiParams.AudioParamsWords` states |
| GuiParams.AudioParamsWords | qencoder/window.py:665-671 | Opus at the chosen bitrate with the `k` unit, or a stream copy |
| GuiParams.AudioBitrateInKbit | qencoder/window.py:669 | ffmpeg reads the bitrate as the preset's value in kbit/s |
| GuiParams.GetArgs | qencoder/window.py:752-788 | the dictionary holds temp and the boost keys. The video and audio parameters are the built strings, boost is on exactly in quality mode with a strength of at least 1 and no VMAF target, and the encoder is `vpx` for an index above 0, else `aom` |
| GuiParams.AssignmentsFixed | qencoder/window.py:766-787 | temp becomes `temp_<name>` beside the output with each `'` replaced by `_`, and the boost settings follow the boost rule |
| GuiParams.AssignmentsKeep | qencoder/window.py:766-787 | keys the assignments do not touch keep the literal's value |
| GuiParams.AssignmentsKeys | qencoder/window.py:766-787 | the assignments add no keys beyond those they name |
| GuiParams.ArgsBoost | qencoder/window.py:777-784 | boost is on exactly in quality mode with a strength of at least 1 and no VMAF target. `br` carries the strength, and `bl` is 0. |
| GuiParams.ArgsEncoder | qencoder/window.py:753-786 | encoder `aom` for index 0 and `vpx` for anything above |
| GuiParams.ArgsPasses | qencoder/window.py:756 | two passes exactly when two-pass is checked |
| GuiParams.ArgsMinSplit | qencoder/window.py:760-775 | the minimum split distance is the spin box's value, or 0 when minimum splitting is checked |
| GuiParams.ArgsTemp | qencoder/window.py:766-787 | the temp path never holds `'`, and for an output without one it is `<dir>/temp_<name>` |
| GuiParams.ArgsParams | qencoder/window.py:753-760 | the three parameter strings reach the dictionary unchanged |
| GuiParams.ArgsNoQuiet | qencoder/window.py:752-788 | the window never sets `quiet` |
| GuiParams.MergedArgs | qencoder/window.py:752-788 | after `merge_args` the audio parameters are the window's, and `quiet` comes from the defaults as True |
| GuiParams.LoadModes | qencoder/window.py:699-707 | loading a preset never leaves both two-pass and realtime on. Two-pass is kept, and a valid pair is unchanged. |
| GuiParams.LoadModesIdempotent | qencoder/window.py:699-707 | loading the corrected state again changes nothing |
| GuiParams.Swap | qencoder/window.py:329 | the tuple assignment exchanges the two entries and leaves the rest in place |
| GuiParams.SwapPermutes | qencoder/window.py:329 | a swap keeps the queue's contents |
| GuiParams.QueueMoveUp | qencoder/window.py:327-330 | a selected row above the first swaps with the row above, and anything else is unchanged |
| GuiParams.QueueMoveDownAsWritten | qencoder/window.py:332-335 | as written: a selected row above the last swaps with the next one, and the last row stays. With nothing selected (row -1) the first and last entries trade places. |
| GuiParams.QueueMoveDownAsWrittenSwapsEnds | qencoder/window.py:332-335 | with nothing selected (row -1), the last entry swaps with the first |
| GuiParams.QueueMoveDown | qencoder/window.py:332-335 | corrected: a selected row above the last swaps with the row below, and no selection changes nothing |
| GuiParams.MoveDownThenUp | qencoder/window.py:327-335 | moving a row down and then back up restores the queue |
| GuiParams.MoveUpThenDown | qencoder/window.py:327-335 | moving a row up and then back down restores the queue |
| LegacyGuiParams.ColorData | qencoder.py:157-183 | custom entry 5 returns the text, VP8 gets nothing, and VP9 always gets a `--color-space=` option |
| LegacyGuiParams.ColorDataAgrees | qencoder.py:157-183 | the two front ends agree on spaces 0..2, and for VP9 on space 3 too |
| LegacyGuiParams.ColorDataTransferChanged | qencoder.py:169 | for BT.2020 on aom the front ends name different transfer characteristics |
| LegacyGuiParams.Quality | qencoder.py:310-329 | presets 0..8 give the quality table, and any other index the spin box |
| LegacyGuiParams.QualityAgrees | qencoder.py:310-329 | the two front ends agree on every non-negative index. For a negative one the newer raises while this one uses the spin box. |
| LegacyGuiParams.AudioBitrate | qencoder.py:291-308 | presets 0..6 give the table, preset 7 gives 256, and any other index the spin box |
| LegacyGuiParams.AudioBitrateAgrees | qencoder.py:291-308 | the front ends agree except at preset 7: 250 in the newer, 256 here |
| LegacyGuiParams.InVideoFlags | qencoder.py:389-416 | an option is printed exactly when it comes from the encoder, codec, mode or rate group, or is the bit depth |
| LegacyGuiParams.VideoFlagsFixed | qencoder.py:390-393 | four threads always, no keyframe distance, no lossless, and two tile columns exactly for aom and VP9 |
| LegacyGuiParams.VideoFlagsRate | qencoder.py:402-405 | the CQ is the quality in quality mode (no VP8 floor), and the target bitrate in bitrate mode |
| LegacyGuiParams.VideoParams | qencoder.py:386-417 | the custom command when it is chosen. Otherwise generated options that start with a blank |
| LegacyGuiParams.VideoParamsTokens | qencoder.py:386-417 | through the shell, the generated options, then the colour words, then the input format option |
| LegacyGuiParams.AudioParamsAsWritten | qencoder.py:419-425 | as written: the custom text when chosen, the words `-b:a <n> -c:a libopus` with the bare spin-box number, or the words `-c:a copy` |
| LegacyGuiParams.AudioParams | qencoder.py:419-425 | corrected: the custom text when chosen, and a stream copy exactly as written when audio encoding is off |
| LegacyGuiParams.AudioAsWrittenInBits | qencoder.py:423 | as written: the bitrate lacks `k`, so ffmpeg reads it in bit/s |
| LegacyGuiParams.AudioParamsInKbit | qencoder.py:419-425 | corrected: with `k`, ffmpeg reads the bitrate in kbit/s |
| LegacyGuiParams.FfmpegParams | qencoder.py:381-384 | the custom text when chosen, and otherwise nothing |
| LegacyGuiParams.FfmpegParamsAgree | qencoder.py:381-384 | without crop or scale, both front ends give the same ffmpeg parameters |
| LegacyGuiParams.ArgsBoost | qencoder.py:490-497 | boost is on exactly in quality mode with a strength of at least 1. `br` carries the strength, and `bl` is 0. |
| LegacyGuiParams.BoostOnAgrees | qencoder.py:490 | the newer window's boost rule is this one restricted to runs without a VMAF target |
| LegacyGuiParams.ArgsEncoderPasses | qencoder.py:480-499 | encoder `aom` or `vpx` by index, and two passes exactly when two-pass is checked |
| LegacyGuiParams.ArgsTemp | qencoder.py:482 | temp is the directory passed in (`abspath("temp")`) |
| LegacyGuiParams.ArgsText | qencoder.py:480-485 | the video, audio and ffmpeg parameter texts reach the dictionary unchanged |
| LegacyGuiParams.EncodeArgs | qencoder.py:480-499 | `encodeVideo`'s dictionary carries the boost entries and the built video and ffmpeg parameters. Its audio parameters are the as-written ones, without the unit. |
| LegacyGuiParams.EncodeArgsAudioInBits | qencoder.py:423-485 | with Opus chosen, the pipeline the first front end starts asks for the preset's number in bit/s |
| Assemble.ConcatList | qencoder/ffmpeg.py:88-92 | one `file` line per encoded segment, in order, and an empty list exactly when there are no segments |
| Assemble.ReadConcatList | qencoder/ffmpeg.py:88-92 | the demuxer reads at least one file from a list that is not empty |
| Assemble.ConcatListRoundTrip | qencoder/ffmpeg.py:88-92 | the concat demuxer reads the written list back as exactly the encoded files, in order |
| Assemble.ReadConcatLine | qencoder/ffmpeg.py:92 | each written line reads back as its path, whatever quotes the path holds |
| Assemble.LegacyConcatLineAgrees | pav1n.py:343-346 | the older writer agrees with the newer one on every path without `'` |
| Assemble.LegacyConcatLineMisreads | pav1n.py:346 | the older writer's line for `a'b` is read back as `ab` |
| Assemble.ConcatArgv | qencoder/ffmpeg.py:95-103 | 17 words, or 23 with audio: the quiet concat front, then the list as the first input, the extracted audio as the second exactly when it exists, and the output last after `-y` |
| Assemble.ConcatArgvInputs | qencoder/ffmpeg.py:95-103 | ffmpeg opens the concat list, plus the extracted audio exactly when it exists, and nothing else |
| Assemble.ConcatOutcome | qencoder/ffmpeg.py:104-109 | the run succeeds exactly when ffmpeg prints nothing |
| Assemble.LegacyConcatCleanup | pav1n.py:358-370 | temp is deleted exactly on a silent run without `keep`. Any output ends the program with temp kept. |

## Left out

- Processes, files and threads. The encoders, ffmpeg, the scene detector, VMAF scoring and the file system are not run. Their outputs enter as parameters: cut lists, keyframe lists, frame counts, probe scores as a `Probe` oracle, directory listings in `sorted()` order, and whether `audio.mkv` exists. Locks, the worker pool, the `frameCounterArray` slot index and progress-bar timers are not modelled, and neither is the `finally` that releases `doneFileLock` (qencoder/ffmpeg.py:80-82).
- The Qt window: widget enabling, dialogs, signals, pickled presets and queue files, `removeFromQueue` and `redrawQueueList`. The builders take a `Widgets` record of the values they read.
- Floating point. Brightness, VMAF scores and the target are exact `real`s. `round` is half-to-even on the exact value, and `int()` of a float truncates toward zero.
- `get_target_q` and `interpolate_data` use scipy's cubic interpolation. Modelled as the parameter `targetQ` of `TargetVmaf.TargetVmafCq`.
- `x264_probes`, `call_vmaf`, `read_vmaf_json` and `extract_audio` are external commands. They are not modelled.
- The keyframe reader's poll loop (qencoder/ffmpeg.py:35-39) is not modelled. The model takes the finished list of stripped output lines.
- The `encode` method of qencoder/pav1n.py calls `man_cq` and then uses its string result as an integer. Only the working `boost` of pav1n.py:275-291 is modelled.
- The argument mismatches at the call sites of `frame_probe`, `frame_check` and `concatenate_video` in qencoder/pav1n.py are not modelled. Each function is modelled by its own definition.
- Common.PyInt: accepts ASCII digits, whitespace and a sign. Python's `int()` also accepts underscores between digits and non-ASCII digits and spaces. Likewise the progress pattern's `\d` (qencoder/pav1n.py:439) matches any Unicode decimal digit in Python, while the model's `IsDigit` is ASCII only. The counts come from ffmpeg and aomenc output, which writes ASCII digits.
- Ledger.LiteralEvalLine: reads only the tuple format that `frame_check` writes and the bare total, not every Python literal.
- Paths.Name: paths are the strings of already normalised `pathlib` paths, with no doubled or trailing separators.
- GuiParams.GetArgs: its own contract names temp, the boost keys, both parameter strings and the encoder. The other keys are stated by `GuiParams.ArgsPasses`, `GuiParams.ArgsMinSplit`, `GuiParams.ArgsTemp` and `GuiParams.AssignmentsKeep`.
- GuiParams.VideoParams: its own contract covers the custom command only. The generated options are stated by `GuiParams.VideoParamsTokens`.
- GuiParams.AudioParams: its own contract covers the custom command only. The generated text is stated by `GuiParams.AudioParamsWords` and `GuiParams.AudioBitrateInKbit`.
- LegacyGuiParams.VideoParams: its own contract covers the custom command and the leading blank. The generated options are stated by `LegacyGuiParams.VideoParamsTokens`.
- LegacyGuiParams.ArgsTemp: the temp directory `os.path.abspath("temp")` depends on the working directory, so it is a parameter.
- WorkQueue.DetermineResources: `os.cpu_count()` returning None is not modelled.
- Assemble.ConcatListRoundTrip: assumes no path holds a newline, because the concat list is line based.
- Assemble.ReadConcatList: reads only `file` lines. The demuxer's other directives and comments are not modelled. Its own contract says only that a list that is not empty yields files. What it reads back is stated by `Assemble.ConcatListRoundTrip`.
- Assemble.LegacyConcatCleanup: the shell command string of the older concatenation (pav1n.py:356) is not modelled. Only the outcome rule is.
- Parsers.LegacyFrameProbe: its own contract gives only the error kind. The value read from ffmpeg's last status line is stated by `Parsers.LegacyFrameProbeReads`, with `Parsers.LastStatusFields` for where the slice falls.
- Parsers.GetKeyframes: its own ensures states only a length bound. Its content is stated by `GetKeyframesAppend`, `LineWithoutColon` and `KeyframeLineCollected`.
- TargetVmaf.TargetVmafCq: a failing VMAF run in `call_vmaf` (qencoder/targetvmaf.py:55, 58) ends the process through `sys.exit(1)`. `SystemExit` escapes `except Exception`, so it is not the bare Exception. The probe oracle reports only failures that are Exceptions, and the exit is not modelled.
- TargetVmaf.ProbeCmd: its own ensures states only the output tail. The full layout is `ProbeCmdLayout`, under the assumption that `ffmpeg_pipe` ends with its only `|`.
- The `scene_detect` detectors (PySceneDetect, aomkf, OpenCV) are outside the model. Their cut lists are inputs.

## Findings

| source | as written | input that shows it | evidently intended | confidence | as-written member | corrected member |
|---|---|---|---|---|---|---|
| qencoder/pav1n.py:124-129 | `reduce_scenes` calls itself but discards the result, so at most one halving happens | 1202 cuts leave 601, more than 600 | halve until at most 600 remain | high, not executed | ChunkPlan.ReduceScenesAsWritten, ChunkPlan.ReduceScenesAsWrittenLeavesTooMany, ChunkPlan.PlannedCutsReadingsAgree | ChunkPlan.ReduceScenes, ChunkPlan.Halve |
| qencoder/pav1n.py:229-242 | `split` tests `len(frames) == 1` on the joined cut string | cuts `[0, 5]` give `"5"`, so the whole file is copied | copy the whole file only for the `'0'` sentinel | high, not executed | ChunkPlan.SplitAsWritten, ChunkPlan.SplitAsWrittenCopiesSingleDigitCut, ChunkPlan.PlannedCutsReachSplit | ChunkPlan.Split, ChunkPlan.SplitOfEncodeCuts |
| pav1n.py:197-203 | resuming reads the last line of done.txt as the records tuple | a done.txt holding only the total line: iterating an int raises TypeError | resume with nothing skipped | high, not executed | Ledger.ResumeNamesAsWrittenFailsOnFreshFile, WorkQueue.LegacyResumeBeforeFirstChunkFails | Ledger.ResumeNamesOfDoneFile, WorkQueue.LegacyResumeSkipsRecorded |
| qencoder/window.py:332-335 | `queueMoveDown` checks only the upper bound | no row selected (`currentRow() == -1`) on a queue of two or more swaps the last entry with the first | do nothing without a selection | medium, not executed | GuiParams.QueueMoveDownAsWritten, GuiParams.QueueMoveDownAsWrittenSwapsEnds | GuiParams.QueueMoveDown, GuiParams.MoveDownThenUp |
| qencoder.py:423 | the audio bitrate is written without the `k` unit | preset 96 gives `-b:a 96`, which ffmpeg reads as 96 bit/s | `-b:a 96k` as in qencoder/window.py:669 | high, not executed | LegacyGuiParams.AudioParamsAsWritten, LegacyGuiParams.AudioAsWrittenInBits, LegacyGuiParams.EncodeArgsAudioInBits | LegacyGuiParams.AudioParams, LegacyGuiParams.AudioParamsInKbit |
| pav1n.py:346 | the concat list quotes each path without rewriting `'` | the path `a'b` is read back by the demuxer as `ab` | rewrite `'` as `'\''`, as qencoder/ffmpeg.py:92 does | high, not executed | Assemble.LegacyConcatLine, Assemble.LegacyConcatLineMisreads | Assemble.ConcatLine, Assemble.ConcatListRoundTrip |
