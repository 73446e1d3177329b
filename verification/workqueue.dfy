/**
 The work queue: which chunks of the split directory are still to be
 encoded and in what order (`get_video_queue`, both pipelines), how many
 workers encode them (`determine_resources` and the cap in
 `encoding_loop`), and the counters a resumed run starts from.

 The directory listing is an input: each entry carries its path and its
 size in bytes, in the order `iterdir()` produced them.
 */
module WorkQueue {
  import opened Common
  import opened Paths
  import opened Ledger

  /** An entry of `temp/split` with its `st_size`. */
  datatype SplitFile = SplitFile(path: string, size: nat)

  /** `x.suffix == '.mkv'`: pathlib takes the suffix of the final component,
      so a hidden `.mkv` file has none. */
  predicate IsChunk(f: SplitFile) {
    Suffix(Name(f.path)) == ".mkv"
  }

  /** A numbered chunk is queued; a hidden `.mkv` file and a file in a
      directory named like a chunk are not. */
  lemma ChunkNames(n: nat)
    ensures IsChunk(SplitFile("t/split/00001.mkv", n))
    ensures !IsChunk(SplitFile("t/split/.mkv", n))
    ensures !IsChunk(SplitFile("t/a.mkv/b", n))
  {
    RFindChar("t/split/00001.mkv", '/', 7);
    assert Name("t/split/00001.mkv") == "00001.mkv";
    RFindChar("00001.mkv", '.', 5);
    RFindChar("t/split/.mkv", '/', 7);
    assert Name("t/split/.mkv") == ".mkv";
    RFindChar(".mkv", '.', 0);
    RFindChar("t/a.mkv/b", '/', 7);
    assert Name("t/a.mkv/b") == "b";
    RFindChar("b", '.', -1);
  }

  /** `[x for x in source_path.iterdir() if x.suffix == '.mkv']`. */
  function Chunks(listing: seq<SplitFile>): (r: seq<SplitFile>)
    ensures forall f :: f in r <==> f in listing && IsChunk(f)
  {
    if |listing| == 0 then []
    else
      assert forall f :: f in listing <==> f == listing[0] || f in listing[1..];
      (if IsChunk(listing[0]) then [listing[0]] else []) + Chunks(listing[1..])
  }

  /** `[x for x in queue if x.name not in done]`. */
  function DropNames(queue: seq<SplitFile>, skip: set<string>): (r: seq<SplitFile>)
    ensures forall f :: f in r <==> f in queue && Name(f.path) !in skip
  {
    if |queue| == 0 then []
    else
      assert forall f :: f in queue <==> f == queue[0] || f in queue[1..];
      (if Name(queue[0].path) in skip then [] else [queue[0]]) + DropNames(queue[1..], skip)
  }

  // ---------------------------------------------------------------------------
  // sorted(queue, key=lambda x: -x.stat().st_size)

  /** Biggest first. */
  predicate BigFirst(s: seq<SplitFile>) {
    forall i, j :: 0 <= i < j < |s| ==> s[i].size >= s[j].size
  }

  /** The files of one size, in their order. */
  function OfSize(s: seq<SplitFile>, n: nat): seq<SplitFile> {
    if |s| == 0 then []
    else (if s[0].size == n then [s[0]] else []) + OfSize(s[1..], n)
  }

  lemma OfSizeCons(y: SplitFile, s: seq<SplitFile>, n: nat)
    ensures OfSize([y] + s, n) == (if y.size == n then [y] else []) + OfSize(s, n)
  {
    assert ([y] + s)[0] == y && ([y] + s)[1..] == s;
  }

  /** Places `x` ahead of the first entry that is not bigger, which keeps
      it ahead of the equal-sized entries that came after it. */
  function Insert(x: SplitFile, t: seq<SplitFile>): seq<SplitFile> {
    if |t| == 0 || t[0].size <= x.size then [x] + t
    else [t[0]] + Insert(x, t[1..])
  }

  lemma {:induction false} InsertPermutes(x: SplitFile, t: seq<SplitFile>)
    ensures multiset(Insert(x, t)) == multiset{x} + multiset(t)
    decreases |t|
  {
    if |t| > 0 && t[0].size > x.size {
      InsertPermutes(x, t[1..]);
      assert t == [t[0]] + t[1..];
    }
  }

  predicate AllAtMost(s: seq<SplitFile>, m: nat) {
    forall i :: 0 <= i < |s| ==> s[i].size <= m
  }

  lemma {:induction false} InsertAtMost(x: SplitFile, t: seq<SplitFile>, m: nat)
    requires AllAtMost(t, m) && x.size <= m
    ensures AllAtMost(Insert(x, t), m)
    decreases |t|
  {
    if |t| > 0 && t[0].size > x.size {
      InsertAtMost(x, t[1..], m);
      assert Insert(x, t) == [t[0]] + Insert(x, t[1..]);
    }
  }

  lemma {:induction false} InsertBigFirst(x: SplitFile, t: seq<SplitFile>)
    requires BigFirst(t)
    ensures BigFirst(Insert(x, t))
    decreases |t|
  {
    if |t| > 0 && t[0].size > x.size {
      var rest := Insert(x, t[1..]);
      InsertBigFirst(x, t[1..]);
      assert AllAtMost(t[1..], t[0].size) by {
        forall i | 0 <= i < |t[1..]| ensures t[1..][i].size <= t[0].size {
          assert t[1..][i] == t[i + 1];
        }
      }
      InsertAtMost(x, t[1..], t[0].size);
      assert Insert(x, t) == [t[0]] + rest;
    }
  }

  /** Python's `sorted` is stable; this is insertion sort from the back. */
  function SortBySize(s: seq<SplitFile>): (r: seq<SplitFile>)
    ensures multiset(r) == multiset(s)
    ensures forall f :: f in r <==> f in s
    ensures BigFirst(r)
  {
    if |s| == 0 then []
    else
      var tail := SortBySize(s[1..]);
      assert s == [s[0]] + s[1..];
      InsertBigFirst(s[0], tail);
      InsertPermutes(s[0], tail);
      assert multiset(s) == multiset{s[0]} + multiset(s[1..]);
      assert forall f :: f in Insert(s[0], tail) <==> f in multiset(Insert(s[0], tail));
      Insert(s[0], tail)
  }

  lemma {:induction false} InsertKeepsSizeOrder(x: SplitFile, t: seq<SplitFile>, n: nat)
    ensures OfSize(Insert(x, t), n) == OfSize([x] + t, n)
    decreases |t|
  {
    if |t| > 0 && t[0].size > x.size {
      var rest := Insert(x, t[1..]);
      var head := if t[0].size == n then [t[0]] else [];
      var mine := if x.size == n then [x] else [];
      assert Insert(x, t) == [t[0]] + rest;
      assert t == [t[0]] + t[1..];
      InsertKeepsSizeOrder(x, t[1..], n);
      OfSizeCons(t[0], rest, n);
      OfSizeCons(x, t[1..], n);
      OfSizeCons(t[0], t[1..], n);
      OfSizeCons(x, t, n);
      if x.size == n {
        assert head == [];
        calc {
          OfSize(Insert(x, t), n);
          OfSize(rest, n);
          [x] + OfSize(t[1..], n);
          [x] + OfSize(t, n);
          OfSize([x] + t, n);
        }
      } else {
        assert mine == [];
        calc {
          OfSize(Insert(x, t), n);
          head + OfSize(rest, n);
          head + OfSize(t[1..], n);
          OfSize(t, n);
          OfSize([x] + t, n);
        }
      }
    }
  }

  /** Stability: files of equal size keep their listing order, so the
      result is fully determined. */
  lemma {:induction false} SortBySizeStable(s: seq<SplitFile>, n: nat)
    ensures OfSize(SortBySize(s), n) == OfSize(s, n)
    decreases |s|
  {
    if |s| > 0 {
      SortBySizeStable(s[1..], n);
      InsertKeepsSizeOrder(s[0], SortBySize(s[1..]), n);
      assert ([s[0]] + SortBySize(s[1..]))[1..] == SortBySize(s[1..]);
      assert s == [s[0]] + s[1..];
    }
  }

  // ---------------------------------------------------------------------------
  // get_video_queue

  const NoChunks := "Error: No files found in .temp/split, probably splitting not working"

  /** The tail both pipelines share: keep the chunks not skipped, biggest
      first, and stop when nothing is left. */
  function QueueOf(listing: seq<SplitFile>, skip: set<string>): (r: Result<seq<SplitFile>>)
    ensures r.Ok? ==> |r.value| > 0 && BigFirst(r.value)
    ensures r.Ok? ==> forall f :: f in r.value <==> f in listing && IsChunk(f) && Name(f.path) !in skip
    ensures r.Ok? ==> multiset(r.value) == multiset(DropNames(Chunks(listing), skip))
    ensures r.Err? <==> forall f :: f in listing && IsChunk(f) ==> Name(f.path) in skip
    ensures r.Err? ==> r.error == Fatal(NoChunks)
  {
    var pending := DropNames(Chunks(listing), skip);
    var queue := SortBySize(pending);
    if |queue| == 0 then Err(Fatal(NoChunks))
    else
      assert queue[0] in pending;
      Ok(queue)
  }

  /** The names `get_video_queue` skips: the keys of the `done` map when
      resuming from a done.json that loaded.  A file that failed to load
      (`None`) is logged and skips nothing; so does a missing one. */
  function SkipSet(resume: bool, ledger: Option<Result<Progress>>): (skip: set<string>)
    ensures skip != {} ==> resume && ledger.Some? && ledger.value.Ok?
  {
    if resume && ledger.Some? && ledger.value.Ok? then Keys(ledger.value.value.done) else {}
  }

  /** `get_video_queue(temp, resume)` of the current pipeline; `ledger` is
      `None` when done.json does not exist and an error when loading it or
      reading its `done` map raised. */
  function GetVideoQueue(listing: seq<SplitFile>, resume: bool, ledger: Option<Result<Progress>>): (r: Result<seq<SplitFile>>)
    ensures r.Ok? ==> |r.value| > 0 && BigFirst(r.value)
    ensures r.Ok? ==> forall f :: f in r.value <==>
      f in listing && IsChunk(f) && (resume && ledger.Some? && ledger.value.Ok? ==> Get(ledger.value.value.done, Name(f.path)).None?)
    ensures r.Ok? ==> multiset(r.value) == multiset(DropNames(Chunks(listing), SkipSet(resume, ledger)))
    ensures r.Err? <==> forall f :: f in listing && IsChunk(f) ==> Name(f.path) in SkipSet(resume, ledger)
    ensures r.Err? ==> r.error == Fatal(NoChunks)
  {
    QueueOf(listing, SkipSet(resume, ledger))
  }

  /** A ledger that fails to load filters nothing: the queue is the one a
      fresh run builds. */
  lemma UnreadableLedgerKeepsAll(listing: seq<SplitFile>, e: Error)
    ensures GetVideoQueue(listing, true, Some(Err(e))) == GetVideoQueue(listing, false, None)
  {
  }

  /** A chunk that `frame_check` recorded is not encoded again on resume. */
  lemma RecordedChunkSkipped(listing: seq<SplitFile>, p: Progress, source: string, nocheck: bool, probeSource: Result<int>, probeEncoded: Result<int>, f: SplitFile)
    requires GatePasses(nocheck, probeSource, probeEncoded)
    requires Name(f.path) == Name(source)
    requires GetVideoQueue(listing, true, Some(FrameCheck(p, source, nocheck, probeSource, probeEncoded))).Ok?
    ensures f !in GetVideoQueue(listing, true, Some(FrameCheck(p, source, nocheck, probeSource, probeEncoded))).value
  {
  }

  /** `[x[1] for x in data]` as a membership test. */
  function NameSet(names: seq<string>): (r: set<string>)
    ensures forall n :: n in r <==> n in names
  {
    set n | n in names
  }

  /** The older pipeline's reader as written: a done.txt with no finished
      chunk makes it raise (see Ledger.ResumeNamesAsWritten). */
  function LegacyVideoQueueAsWritten(listing: seq<SplitFile>, resume: bool, doneText: Option<string>): (r: Result<seq<SplitFile>>)
    ensures !resume || doneText.None? ==> r == QueueOf(listing, {})
  {
    if resume && doneText.Some? then
      var names :- ResumeNamesAsWritten(doneText.value);
      QueueOf(listing, NameSet(names))
    else QueueOf(listing, {})
  }

  /** The same with the corrected reader. */
  function LegacyVideoQueue(listing: seq<SplitFile>, resume: bool, doneText: Option<string>): (r: Result<seq<SplitFile>>)
    ensures !resume || doneText.None? ==> r == QueueOf(listing, {})
  {
    if resume && doneText.Some? then
      var names :- ResumeNames(doneText.value);
      QueueOf(listing, NameSet(names))
    else QueueOf(listing, {})
  }

  /** Resuming the older pipeline before any chunk finished stops with a
      TypeError instead of building the queue. */
  lemma LegacyResumeBeforeFirstChunkFails(listing: seq<SplitFile>, total: int)
    ensures LegacyVideoQueueAsWritten(listing, true, Some(DoneFile(total, []))) == Err(TypeError)
  {
    ResumeNamesAsWrittenFailsOnFreshFile(total);
  }

  /** With the corrected reader, resuming skips exactly the chunks whose
      records the older `frame_check` appended. */
  lemma LegacyResumeSkipsRecorded(listing: seq<SplitFile>, total: int, recs: seq<(int, string)>)
    requires forall i :: 0 <= i < |recs| ==> SafeName(recs[i].1)
    ensures LegacyVideoQueue(listing, true, Some(DoneFile(total, recs))) == QueueOf(listing, set i | 0 <= i < |recs| :: recs[i].1)
  {
    ResumeNamesOfDoneFile(total, recs);
    var names := RecordNames(recs);
    assert NameSet(names) == (set i | 0 <= i < |recs| :: recs[i].1) by {
      forall n | n in NameSet(names) ensures n in (set i | 0 <= i < |recs| :: recs[i].1) {
        var i :| 0 <= i < |names| && names[i] == n;
        assert recs[i].1 == n;
      }
      forall i | 0 <= i < |recs| ensures recs[i].1 in NameSet(names) {
        assert names[i] == recs[i].1;
      }
    }
  }

  // ---------------------------------------------------------------------------
  // Workers

  const GiB := 1073741824

  predicate KnownEncoder(encoder: string) {
    encoder == "aom" || encoder == "rav1e" || encoder == "vpx" || encoder == "svt_av1"
  }

  /** `round(virtual_memory().total / 2 ** 30)`: memory in whole GiB. */
  function RamGiB(memBytes: nat): (ram: int)
    ensures ram >= 0
    ensures -0.5 <= ram as real - memBytes as real / GiB as real <= 0.5
  {
    RoundHalfEven(memBytes as real / GiB as real)
  }

  /** `determine_resources()`: the worker count for the machine, given
      `os.cpu_count()` and the installed memory.  Other encoders keep the
      configured count; a count of 0 becomes 1 in every case. */
  function DetermineResources(encoder: string, workers: int, cpu: nat, memBytes: nat): (w: int)
    ensures w != 0
    ensures KnownEncoder(encoder) ==> w >= 1
    ensures !KnownEncoder(encoder) && workers != 0 ==> w == workers
  {
    var ram := RamGiB(memBytes);
    var w0 :=
      if encoder == "aom" || encoder == "rav1e" || encoder == "vpx" then
        var byCpu := cpu as real / 2.0;
        var byRam := ram as real / 1.5;
        RoundHalfEven(if byRam < byCpu then byRam else byCpu)
      else if encoder == "svt_av1" then
        FloorDiv(if ram < cpu then ram else cpu, 5)
      else workers;
    if w0 == 0 then 1 else w0
  }

  /** Beyond the floor of one, the count fits the machine: aomenc, rav1e
      and vpxenc get at most one worker per two cores (rounded) and per
      1.5 GiB, SVT-AV1 at most one per five cores and per five GiB. */
  lemma DetermineResourcesFits(encoder: string, workers: int, cpu: nat, memBytes: nat)
    ensures var w := DetermineResources(encoder, workers, cpu, memBytes);
      var ram := RamGiB(memBytes);
      && (encoder == "aom" || encoder == "rav1e" || encoder == "vpx" ==> w == 1 || (2 * w <= cpu + 1 && 3 * w <= 2 * ram + 1))
      && (encoder == "svt_av1" ==> w == 1 || (5 * w <= cpu && 5 * w <= ram))
  {
    var w := DetermineResources(encoder, workers, cpu, memBytes);
    var ram := RamGiB(memBytes);
    if encoder == "aom" || encoder == "rav1e" || encoder == "vpx" {
      var byCpu := cpu as real / 2.0;
      var byRam := ram as real / 1.5;
      var x := if byRam < byCpu then byRam else byCpu;
      if w != 1 {
        assert w == RoundHalfEven(x);
        assert w as real <= x + 0.5;
        assert (2 * w) as real <= cpu as real + 1.0;
        assert (3 * w) as real <= 2.0 * ram as real + 1.5;
      }
    }
  }

  /** `min(len(commands), workers)` in `encoding_loop`. */
  function WorkerCap(jobs: nat, workers: int): (n: int)
    ensures n <= jobs && n <= workers
    ensures n == jobs || n == workers
  {
    if workers < jobs then workers else jobs
  }

  /** A queue that was built and a known encoder give a pool of at least
      one and at most one worker per chunk. */
  lemma PoolFitsQueue(listing: seq<SplitFile>, resume: bool, ledger: Option<Result<Progress>>, encoder: string, workers: int, cpu: nat, memBytes: nat)
    requires KnownEncoder(encoder)
    requires GetVideoQueue(listing, resume, ledger).Ok?
    ensures var q := GetVideoQueue(listing, resume, ledger).value;
      1 <= WorkerCap(|q|, DetermineResources(encoder, workers, cpu, memBytes)) <= |q|
  {
  }

  // ---------------------------------------------------------------------------
  // Where a run starts (encoding_loop)

  /** The ledger `encoding_loop` works with, the number of chunks already
      done, and the frames they hold. */
  datatype Start = Start(ledger: Progress, doneChunks: nat, initial: int)

  /** `encoding_loop` before the pool starts: resuming from an existing
      done.json reads its counters (a load failure propagates); otherwise
      the input is probed and a fresh ledger with an empty `done` map is
      written. */
  function StartState(resume: bool, stored: Option<Result<Progress>>, probeInput: Result<int>): (r: Result<Start>)
    ensures resume && stored.Some? ==> (r.Ok? <==> stored.value.Ok?)
    ensures !(resume && stored.Some?) ==> (r.Ok? <==> probeInput.Ok?)
    ensures !(resume && stored.Some?) && r.Ok? ==> r.value == Start(Progress(probeInput.value, []), 0, 0)
  {
    if resume && stored.Some? then
      var p :- stored.value;
      Ok(Start(p, |p.done|, Sum(Values(p.done))))
    else
      var total :- probeInput;
      Ok(Start(Progress(total, []), 0, 0))
  }

  /** The ledger after a sequence of successful `frame_check` writes. */
  function Replay(p: Progress, writes: Assoc): Progress
    decreases |writes|
  {
    if |writes| == 0 then p
    else Replay(WriteProgress(p, writes[0].0, writes[0].1), writes[1..])
  }

  lemma {:induction false} ReplayAppends(p: Progress, writes: Assoc)
    requires UniqueKeys(p.done + writes)
    ensures Replay(p, writes) == Progress(p.total, p.done + writes)
    decreases |writes|
  {
    if |writes| > 0 {
      var k := writes[0].0;
      UniqueKeysAppend(p.done, writes);
      assert k in Keys(writes);
      var p' := WriteProgress(p, k, writes[0].1);
      assert p'.done == p.done + [writes[0]];
      assert p.done + writes == p'.done + writes[1..];
      ReplayAppends(p', writes[1..]);
    }
  }

  /** A resumed run counts exactly the chunks the previous run recorded and
      the frames they hold. */
  lemma ResumeCountsRecorded(total: int, writes: Assoc, probeInput: Result<int>)
    requires UniqueKeys(writes)
    ensures StartState(true, Some(Ok(Replay(Progress(total, []), writes))), probeInput)
      == Ok(Start(Progress(total, writes), |writes|, Sum(Values(writes))))
  {
    assert [] + writes == writes;
    ReplayAppends(Progress(total, []), writes);
  }

  // ---------------------------------------------------------------------------
  // The progress bar

  /** `math.floor(90 * frameCount / totalFrames) + 10`: the main bar covers
      10 to 100 percent over the encode. */
  function ProgressPercent(frameCount: int, totalFrames: int): (r: Result<int>)
    ensures r.Err? <==> totalFrames == 0
    ensures r.Err? ==> r.error == ZeroDivisionError
  {
    if totalFrames == 0 then Err(ZeroDivisionError)
    else Ok(FloorDiv(90 * frameCount, totalFrames) + 10)
  }

  /** From the start of the encode to its end the bar runs from 10 to 100. */
  lemma ProgressPercentRange(frameCount: int, totalFrames: int)
    requires 0 <= frameCount <= totalFrames && totalFrames > 0
    ensures 10 <= ProgressPercent(frameCount, totalFrames).value <= 100
    ensures ProgressPercent(0, totalFrames) == Ok(10)
    ensures ProgressPercent(totalFrames, totalFrames) == Ok(100)
  {
    ScaledShareBounds(frameCount, totalFrames, FloorDiv(90 * frameCount, totalFrames));
    ScaledShareBounds(0, totalFrames, FloorDiv(0, totalFrames));
    ScaledShareBounds(totalFrames, totalFrames, FloorDiv(90 * totalFrames, totalFrames));
  }

  /** `t * q <= 90 * f < t * q + t` with `0 <= f <= t` pins `q` to 0..90,
      and to 90 when `f == t`. */
  lemma ScaledShareBounds(f: int, t: int, q: int)
    requires 0 <= f <= t && t > 0
    requires t * q <= 90 * f < t * q + t
    ensures 0 <= q <= 90
    ensures f == 0 ==> q == 0
    ensures f == t ==> q == 90
  {
    if q < 0 {
      assert t * q <= -t by { MulMono(t, q, -1); }
    }
    if q > 90 {
      MulMono(t, 91, q);
    }
    if f == 0 && q > 0 {
      MulMono(t, 1, q);
    }
    if f == t && q < 90 {
      assert t * (q + 1) <= 90 * t by { MulMono(t, q + 1, 90); }
    }
  }

  lemma MulMono(t: int, a: int, b: int)
    requires t > 0 && a <= b
    ensures t * a <= t * b
  {
    assert t * b - t * a == t * (b - a);
  }

  lemma ProgressMonotone(a: int, b: int, totalFrames: int)
    requires 0 <= a <= b && totalFrames > 0
    ensures ProgressPercent(a, totalFrames).value <= ProgressPercent(b, totalFrames).value
  {
    var qa := FloorDiv(90 * a, totalFrames);
    var qb := FloorDiv(90 * b, totalFrames);
    if qa > qb {
      MulMono(totalFrames, qb + 1, qa);
      MulMono(1, 90 * a, 90 * b);
    }
  }
}
