/**
 Target-quality mode (qencoder/targetvmaf.py): before a chunk is encoded,
 short probe encodes at chosen CQ values are scored with VMAF, and a CQ
 meeting the target score is picked.

 The probe itself (encode, score, read the 25th percentile) is an oracle
 `Probe` from a CQ value to the score or the exception it raised; the
 final cubic interpolation (`get_target_q`) is an oracle too.  What is
 modelled is the control around them: the two early skips, the integer
 bisection with its neighbour lookup, the exception policy, and the probe
 commands and file names.
 */
module TargetVmaf {
  import opened Common
  import opened Paths

  /** `vmaf_probe(probe, q, args)`. */
  type Probe = int -> Result<real>

  // ---------------------------------------------------------------------------
  // early_skips

  datatype Early = Skip(cq: int) | Continue(scores: seq<(real, int)>)

  /** `early_skips`: probe `max_cq`; if its rounded score already beats the
      target, that CQ is the answer.  Otherwise probe `min_cq`; if even that
      rounded score misses the target, `min_cq` is the answer.  Otherwise
      both scores go on to the search. */
  function EarlySkips(score: Probe, target: real, minCq: int, maxCq: int): (r: Result<Early>)
    ensures score(maxCq).Err? ==> r == Err(score(maxCq).error)
    ensures r.Ok? && r.value.Skip? ==>
      || (r.value.cq == maxCq && RoundHalfEven(score(maxCq).value) as real > target)
      || (r.value.cq == minCq && RoundHalfEven(score(maxCq).value) as real <= target
          && score(minCq).Ok? && RoundHalfEven(score(minCq).value) as real < target)
    ensures r.Ok? && r.value.Continue? ==>
      && RoundHalfEven(score(maxCq).value) as real <= target
      && score(minCq).Ok? && RoundHalfEven(score(minCq).value) as real >= target
      && r.value.scores == [(score(maxCq).value, maxCq), (score(minCq).value, minCq)]
    ensures r.Err? ==> (score(maxCq).Err? && r.error == score(maxCq).error) || (score(minCq).Err? && r.error == score(minCq).error)
  {
    var sMax :- score(maxCq);
    if RoundHalfEven(sMax) as real > target then Ok(Skip(maxCq))
    else
      var sMin :- score(minCq);
      if RoundHalfEven(sMin) as real < target then Ok(Skip(minCq))
      else Ok(Continue([(sMax, maxCq), (sMin, minCq)]))
  }

  /** A high-CQ skip costs one probe: what the `min_cq` probe would say
      does not matter. */
  lemma EarlySkipsHighCqProbesOnce(score: Probe, other: Probe, target: real, minCq: int, maxCq: int)
    requires score(maxCq) == other(maxCq)
    requires score(maxCq).Ok? && RoundHalfEven(score(maxCq).value) as real > target
    ensures EarlySkips(score, target, minCq, maxCq) == EarlySkips(other, target, minCq, maxCq) == Ok(Skip(maxCq))
  {
  }

  /** When neither skip fires both probes ran, and each either skip or the
      search is always decided. */
  lemma EarlySkipsDecides(score: Probe, target: real, minCq: int, maxCq: int)
    requires score(maxCq).Ok? && score(minCq).Ok?
    ensures EarlySkips(score, target, minCq, maxCq).Ok?
    ensures EarlySkips(score, target, minCq, maxCq).value.Continue? <==>
      RoundHalfEven(score(maxCq).value) as real <= target <= RoundHalfEven(score(minCq).value) as real
  {
  }

  // ---------------------------------------------------------------------------
  // get_closest

  predicate OnSide(x: int, q: int, above: bool) {
    if above then x > q else x < q
  }

  function Dist(x: int, q: int): nat {
    if x >= q then x - q else q - x
  }

  /** `[x for x in q_list if x > q]` (or `< q`). */
  function SideOf(qs: seq<int>, q: int, above: bool): (r: seq<int>)
    ensures forall x :: x in r <==> x in qs && OnSide(x, q, above)
  {
    if |qs| == 0 then []
    else
      assert forall x :: x in qs <==> x == qs[0] || x in qs[1..];
      (if OnSide(qs[0], q, above) then [qs[0]] else []) + SideOf(qs[1..], q, above)
  }

  /** `min(c, key=lambda x: abs(x - q))`: the first element at the least
      distance. */
  function ClosestOf(c: seq<int>, q: int): (m: int)
    requires |c| > 0
    ensures m in c
    ensures forall x :: x in c ==> Dist(m, q) <= Dist(x, q)
  {
    if |c| == 1 then c[0]
    else
      var m := ClosestOf(c[1..], q);
      assert forall x :: x in c ==> x == c[0] || x in c[1..];
      if Dist(m, q) < Dist(c[0], q) then m else c[0]
  }

  /** `get_closest(q_list, q, positive)`: the listed value nearest to `q`
      on the requested side; `min` of an empty list raises ValueError. */
  function GetClosest(qs: seq<int>, q: int, above: bool): (r: Result<int>)
    ensures r.Err? <==> forall x :: x in qs ==> !OnSide(x, q, above)
    ensures r.Err? ==> r.error == ValueError
    ensures r.Ok? ==> r.value in qs && OnSide(r.value, q, above)
    ensures r.Ok? ==> forall x :: x in qs && OnSide(x, q, above) ==> Dist(r.value, q) <= Dist(x, q)
  {
    var side := SideOf(qs, q, above);
    if |side| == 0 then Err(ValueError)
    else
      assert side[0] in side;
      Ok(ClosestOf(side, q))
  }

  /** The nearest value on a side is the next listed value in that
      direction: nothing listed lies strictly between it and `q`. */
  lemma GetClosestIsNeighbour(qs: seq<int>, q: int, above: bool)
    requires GetClosest(qs, q, above).Ok?
    ensures var c := GetClosest(qs, q, above).value;
      if above then q < c && forall x :: x in qs && x > q ==> c <= x
      else c < q && forall x :: x in qs && x < q ==> x <= c
  {
  }

  // ---------------------------------------------------------------------------
  // target_vmaf_search

  /** The loop variables of `target_vmaf_search`: `q_list`, `last_q`,
      `next_q` and the `(score, q)` pairs gathered so far. */
  datatype Bracket = Bracket(qs: seq<int>, lastQ: int, nextQ: int, found: seq<(real, int)>)

  function Initial(minCq: int, maxCq: int): Bracket {
    Bracket([minCq, maxCq], minCq, maxCq, [])
  }

  /** One iteration: probe the midpoint (floor division), list it, and move
      `next_q` to the nearest listed value above it when the score meets the
      target, below it otherwise. */
  function Step(b: Bracket, score: Probe, target: real): Result<Bracket> {
    var p := FloorDiv(b.lastQ + b.nextQ, 2);
    var s := score(p);
    if s.Err? then Err(s.error)
    else
      var qs := b.qs + [p];
      var next := GetClosest(qs, p, s.value >= target);
      if next.Err? then Err(next.error)
      else Ok(Bracket(qs, p, next.value, b.found + [(s.value, p)]))
  }

  /** After an iteration the new point lies between the old `last_q` and
      `next_q`, and `next_q` is its listed neighbour on the side the score
      chose: above when the score meets the target, below otherwise. */
  lemma StepMoves(b: Bracket, score: Probe, target: real)
    requires Step(b, score, target).Ok?
    ensures var p := FloorDiv(b.lastQ + b.nextQ, 2);
      var r := Step(b, score, target).value;
      && score(p).Ok?
      && (b.lastQ <= p <= b.nextQ || b.nextQ <= p <= b.lastQ)
      && r.lastQ == p && r.qs == b.qs + [p]
      && r.found == b.found + [(score(p).value, p)]
      && (score(p).value >= target ==> p < r.nextQ && forall x :: x in r.qs && x > p ==> r.nextQ <= x)
      && (score(p).value < target ==> r.nextQ < p && forall x :: x in r.qs && x < p ==> x <= r.nextQ)
  {
    var p := FloorDiv(b.lastQ + b.nextQ, 2);
    MidpointBetween(b.lastQ, b.nextQ);
    GetClosestIsNeighbour(b.qs + [p], p, score(p).value >= target);
  }

  lemma MidpointBetween(a: int, c: int)
    ensures a <= FloorDiv(a + c, 2) <= c || c <= FloorDiv(a + c, 2) <= a
  {
  }

  /** `n` rounds of `step` from `b`, stopping at the first exception. */
  function Iterate(b: Bracket, step: Bracket -> Result<Bracket>, n: nat): Result<Bracket> {
    if n == 0 then Ok(b)
    else
      var mid :- Iterate(b, step, n - 1);
      step(mid)
  }

  function StepWith(score: Probe, target: real): Bracket -> Result<Bracket> {
    x => Step(x, score, target)
  }

  /** `n` iterations of the search loop from `b`. */
  function Run(b: Bracket, score: Probe, target: real, n: nat): Result<Bracket> {
    Iterate(b, StepWith(score, target), n)
  }

  /** `range(vmaf_steps - 2)` runs no iteration when the count is below 2. */
  function Iterations(steps: int): nat {
    if steps > 2 then steps - 2 else 0
  }

  /** `target_vmaf_search(probe, source, frames, args)`. */
  function TargetVmafSearch(score: Probe, target: real, minCq: int, maxCq: int, steps: int): Result<seq<(real, int)>> {
    var b :- Run(Initial(minCq, maxCq), score, target, Iterations(steps));
    Ok(b.found)
  }

  /** What every reachable bracket satisfies, for `min_cq <= max_cq`: both
      ends stay listed, every listed and probed value lies between them,
      `last_q` and `next_q` are listed, and every pair carries the probe's
      score for its CQ. */
  predicate Sound(b: Bracket, score: Probe, lo: int, hi: int) {
    && lo in b.qs && hi in b.qs
    && (forall x :: x in b.qs ==> lo <= x <= hi)
    && b.lastQ in b.qs && b.nextQ in b.qs
    && (forall i :: 0 <= i < |b.found| ==> lo <= b.found[i].1 <= hi && score(b.found[i].1) == Ok(b.found[i].0))
  }

  lemma StepSound(b: Bracket, score: Probe, target: real, lo: int, hi: int)
    requires Sound(b, score, lo, hi)
    requires Step(b, score, target).Ok?
    ensures Sound(Step(b, score, target).value, score, lo, hi)
  {
    var p := FloorDiv(b.lastQ + b.nextQ, 2);
    assert lo <= p <= hi;
    var r := Step(b, score, target).value;
    StepMoves(b, score, target);
    assert forall x :: x in r.qs ==> x in b.qs || x == p;
    assert forall i :: 0 <= i < |b.found| ==> r.found[i] == b.found[i];
  }

  lemma {:induction false} RunSound(score: Probe, target: real, minCq: int, maxCq: int, n: nat)
    requires minCq <= maxCq
    requires Run(Initial(minCq, maxCq), score, target, n).Ok?
    ensures var b := Run(Initial(minCq, maxCq), score, target, n).value;
      Sound(b, score, minCq, maxCq) && |b.found| == n && |b.qs| == n + 2
  {
    if n > 0 {
      RunSound(score, target, minCq, maxCq, n - 1);
      StepSound(Run(Initial(minCq, maxCq), score, target, n - 1).value, score, target, minCq, maxCq);
    }
  }

  /** A search that returns made one probe per iteration, each at a CQ in
      range, and reports every probe's score with its CQ in probe order. */
  lemma SearchProbes(score: Probe, target: real, minCq: int, maxCq: int, steps: int)
    requires minCq <= maxCq
    requires TargetVmafSearch(score, target, minCq, maxCq, steps).Ok?
    ensures var found := TargetVmafSearch(score, target, minCq, maxCq, steps).value;
      && |found| == (if steps > 2 then steps - 2 else 0)
      && forall i :: 0 <= i < |found| ==> minCq <= found[i].1 <= maxCq && score(found[i].1) == Ok(found[i].0)
  {
    RunSound(score, target, minCq, maxCq, Iterations(steps));
  }

  /** An exception ends the search: once an iteration fails, so do all
      longer runs, with the same error, and no later probe is reported. */
  lemma {:induction false} IterateFailureSticks(b: Bracket, step: Bracket -> Result<Bracket>, k: nat, n: nat)
    requires k <= n
    requires Iterate(b, step, k).Err?
    ensures Iterate(b, step, n) == Err(Iterate(b, step, k).error)
    decreases n
  {
    if n > k {
      IterateFailureSticks(b, step, k, n - 1);
    }
  }

  // ---------------------------------------------------------------------------
  // target_vmaf

  /** `target_vmaf(source, args)`: `frame_probe(source)` runs before the
      `try` and its exception escapes as is; inside the `try` an early skip
      answers directly, otherwise all probe pairs go to the interpolation
      oracle `targetQ` (`get_target_q`).  Any exception inside is replaced by
      a bare `Exception`. */
  function TargetVmafCq(framesProbe: Result<int>, score: Probe, target: real, minCq: int, maxCq: int, steps: int,
                        targetQ: seq<(real, int)> -> Result<int>): (r: Result<int>)
    ensures framesProbe.Err? ==> r == Err(framesProbe.error)
    ensures framesProbe.Ok? && r.Err? ==> r.error == Fatal("")
    ensures framesProbe.Ok? && EarlySkips(score, target, minCq, maxCq).Ok? && EarlySkips(score, target, minCq, maxCq).value.Skip? ==>
      r == Ok(EarlySkips(score, target, minCq, maxCq).value.cq)
    ensures r.Ok? && !(EarlySkips(score, target, minCq, maxCq).Ok? && EarlySkips(score, target, minCq, maxCq).value.Skip?) ==>
      && EarlySkips(score, target, minCq, maxCq).Ok?
      && TargetVmafSearch(score, target, minCq, maxCq, steps).Ok?
      && targetQ(EarlySkips(score, target, minCq, maxCq).value.scores + TargetVmafSearch(score, target, minCq, maxCq, steps).value) == r
    ensures framesProbe.Ok? ==> (r.Ok? <==>
      && EarlySkips(score, target, minCq, maxCq).Ok?
      && (|| EarlySkips(score, target, minCq, maxCq).value.Skip?
          || (&& TargetVmafSearch(score, target, minCq, maxCq, steps).Ok?
              && targetQ(EarlySkips(score, target, minCq, maxCq).value.scores + TargetVmafSearch(score, target, minCq, maxCq, steps).value).Ok?)))
    ensures framesProbe.Ok? && EarlySkips(score, target, minCq, maxCq).Ok? && EarlySkips(score, target, minCq, maxCq).value.Continue?
         && TargetVmafSearch(score, target, minCq, maxCq, steps).Ok?
         && targetQ(EarlySkips(score, target, minCq, maxCq).value.scores + TargetVmafSearch(score, target, minCq, maxCq, steps).value).Ok?
      ==> r == targetQ(EarlySkips(score, target, minCq, maxCq).value.scores + TargetVmafSearch(score, target, minCq, maxCq, steps).value)
  {
    var _ :- framesProbe;
    var inner := TryTargetVmaf(score, target, minCq, maxCq, steps, targetQ);
    if inner.Err? then Err(Fatal("")) else inner
  }

  /** The body of the `try`. */
  function TryTargetVmaf(score: Probe, target: real, minCq: int, maxCq: int, steps: int,
                         targetQ: seq<(real, int)> -> Result<int>): Result<int> {
    var early :- EarlySkips(score, target, minCq, maxCq);
    match early
    case Skip(cq) => Ok(cq)
    case Continue(scores) =>
      var found :- TargetVmafSearch(score, target, minCq, maxCq, steps);
      targetQ(scores + found)
  }

  /** An early skip answers without the search or the interpolation. */
  lemma EarlySkipBypassesSearch(score: Probe, target: real, minCq: int, maxCq: int, steps: int, steps': int,
                                targetQ: seq<(real, int)> -> Result<int>, targetQ': seq<(real, int)> -> Result<int>, frames: int)
    requires EarlySkips(score, target, minCq, maxCq).Ok? && EarlySkips(score, target, minCq, maxCq).value.Skip?
    ensures TargetVmafCq(Ok(frames), score, target, minCq, maxCq, steps, targetQ)
         == TargetVmafCq(Ok(frames), score, target, minCq, maxCq, steps', targetQ')
  {
  }

  /** A failed search is never replaced by a default CQ: when a chunk scores
      just under the target at `min_cq` but rounds up to it, the early skip
      does not fire, the first probe lands on `min_cq` again, nothing lies
      below it, and `get_closest` raises. */
  lemma RoundingGapRaises(frames: int, targetQ: seq<(real, int)> -> Result<int>)
    ensures var score: Probe := q => Ok(94.7);
      && EarlySkips(score, 95.0, 10, 11) == Ok(Continue([(94.7, 11), (94.7, 10)]))
      && TargetVmafSearch(score, 95.0, 10, 11, 3) == Err(ValueError)
      && TargetVmafCq(Ok(frames), score, 95.0, 10, 11, 3, targetQ) == Err(Fatal(""))
  {
    var score: Probe := q => Ok(94.7);
    assert RoundHalfEven(94.7) == 95;
    assert FloorDiv(10 + 10, 2) == 10;
    var b := Initial(10, 11);
    assert Run(b, score, 95.0, 1) == Step(b, score, 95.0);
    assert GetClosest([10, 11, 10], 10, false) == Err(ValueError);
  }

  // ---------------------------------------------------------------------------
  // Probe commands

  /** `gen_probes_names(probe, q)`:
      `probe.with_name(f'v_{q}{probe.stem}').with_suffix('.ivf')`;
      `with_name` raises ValueError for a path without a name. */
  function GenProbesName(probe: string, q: int): (r: Result<string>)
    ensures r.Ok? <==> Name(probe) != ""
    ensures r.Ok? ==> r.value == Dir(probe) + Stem(ProbeBaseName(probe, q)) + ".ivf"
  {
    if Name(probe) == "" then Err(ValueError)
    else
      ProbeNameJoin(probe, q);
      WithSuffix(WithName(probe, ProbeBaseName(probe, q)), ".ivf")
  }

  /** The probe's new name replaces the old one in the same directory. */
  lemma ProbeNameJoin(probe: string, q: int)
    ensures Name(WithName(probe, ProbeBaseName(probe, q))) == ProbeBaseName(probe, q)
    ensures Dir(WithName(probe, ProbeBaseName(probe, q))) == Dir(probe)
  {
    var n := ProbeBaseName(probe, q);
    NumeralLacks(q, '/');
    StemWithoutSlash(Name(probe));
    assert '/' !in n;
    assert n[0] == 'v';
    DirShape(probe);
    NameOfJoin(Dir(probe), n);
  }

  function ProbeBaseName(probe: string, q: int): string {
    "v_" + IntToString(q) + Stem(Name(probe))
  }

  /** `probe_cmd(probe, q, ffmpeg_pipe, encoder, threads)`: the ffmpeg
      decoder words, then aomenc (for `'aom'`) or vpxenc at one pass with
      the CQ and the probe file as output. */
  function ProbeCmd(probe: string, q: int, ffmpegPipe: string, encoder: string, threads: int): (r: Result<seq<string>>)
    ensures r.Ok? <==> Name(probe) != ""
    ensures r.Ok? ==> |r.value| >= 3 && r.value[|r.value| - 3..] == ["-o", GenProbesName(probe, q).value, "-"]
  {
    var out :- GenProbesName(probe, q);
    Ok(ProbeWords(probe, q, out, ffmpegPipe, encoder, threads))
  }

  /** The probe command's words once the output file is known. */
  function ProbeWords(probe: string, q: int, out: string, ffmpegPipe: string, encoder: string, threads: int): seq<string> {
    ["ffmpeg", "-y", "-hide_banner", "-loglevel", "error", "-i", probe] + Words(ffmpegPipe)
      + EncoderWords(q, encoder, threads) + ["-o", out, "-"]
  }

  function EncoderWords(q: int, encoder: string, threads: int): seq<string> {
    if encoder == "aom" then
      ["aomenc", "-q", "--passes=1", "--threads=" + IntToString(threads), "--end-usage=q", "--cpu-used=6", "--cq-level=" + IntToString(q)]
    else
      ["vpxenc", "--codec=vp9", "--passes=1", "--pass=1", "--threads=" + IntToString(threads), "--end-usage=q", "--cpu-used=9", "--cq-level=" + IntToString(q)]
  }

  /** When the stem has no suffix of its own, the probe file is
      `v_<q><stem>.ivf` next to the probe. */
  lemma GenProbesNamePlain(probe: string, q: int)
    requires Name(probe) != "" && '.' !in Stem(Name(probe))
    ensures GenProbesName(probe, q) == Ok(Dir(probe) + "v_" + IntToString(q) + Stem(Name(probe)) + ".ivf")
  {
    var n := ProbeBaseName(probe, q);
    BaseNameNoDot(probe, q);
    NoDotStem(n);
    var d := Dir(probe);
    assert GenProbesName(probe, q).value == d + n + ".ivf";
    Regroup(d, IntToString(q), Stem(Name(probe)));
  }

  lemma Regroup(d: string, num: string, stem: string)
    ensures d + ("v_" + num + stem) + ".ivf" == d + "v_" + num + stem + ".ivf"
  {
  }

  lemma BaseNameNoDot(probe: string, q: int)
    requires '.' !in Stem(Name(probe))
    ensures '.' !in ProbeBaseName(probe, q)
  {
    var n := ProbeBaseName(probe, q);
    var num := IntToString(q);
    var stem := Stem(Name(probe));
    NumeralLacks(q, '.');
    assert n == "v_" + num + stem;
    forall k | 0 <= k < |n| ensures n[k] != '.' {
      if k >= 2 + |num| {
        assert n[k] == stem[k - 2 - |num|];
      } else if k >= 2 {
        assert n[k] == num[k - 2];
      }
    }
  }

  lemma NoDotStem(n: string)
    requires '.' !in n
    ensures Stem(n) == n
  {
    RFindChar(n, '.', -1);
  }

  // ---------------------------------------------------------------------------
  // two_step_cmd

  /** `two_step_cmd(cmd)`: the words before and after the last `"|"`, or two
      empty lists when there is none. */
  function TwoStep(cmd: seq<string>): (r: (seq<string>, seq<string>))
    ensures "|" !in cmd ==> r == ([], [])
    ensures "|" in cmd ==> exists i :: 0 <= i < |cmd| && cmd[i] == "|" && r == (cmd[..i], cmd[i + 1..])
    ensures "|" !in r.1
  {
    var i := LastPipe(cmd, |cmd|);
    if i < 0 then ([], []) else (cmd[..i], cmd[i + 1..])
  }

  /** The index of the last `"|"` below `n`, or -1. */
  function LastPipe(cmd: seq<string>, n: nat): (i: int)
    requires n <= |cmd|
    ensures -1 <= i < n
    ensures i >= 0 ==> cmd[i] == "|"
    ensures forall j :: i < j < n ==> cmd[j] != "|"
  {
    if n == 0 then -1
    else if cmd[n - 1] == "|" then n - 1
    else LastPipe(cmd, n - 1)
  }

  /** Splitting puts the command back together around the pipe. */
  lemma TwoStepRejoins(cmd: seq<string>)
    requires "|" in cmd
    ensures TwoStep(cmd).0 + ["|"] + TwoStep(cmd).1 == cmd
  {
    var i :| 0 <= i < |cmd| && cmd[i] == "|" && TwoStep(cmd) == (cmd[..i], cmd[i + 1..]);
    assert cmd[..i] + ["|"] + cmd[i + 1..] == cmd;
  }

  /** The scan stops at the last pipe below `n`. */
  lemma {:induction false} LastPipeIs(cmd: seq<string>, n: nat, i: nat)
    requires i < n <= |cmd| && cmd[i] == "|"
    requires forall j :: i < j < n ==> cmd[j] != "|"
    ensures LastPipe(cmd, n) == i
    decreases n
  {
    if n - 1 != i {
      LastPipeIs(cmd, n - 1, i);
    }
  }

  lemma TwoStepAt(head: seq<string>, tail: seq<string>)
    requires "|" !in tail
    ensures TwoStep(head + ["|"] + tail) == (head, tail)
  {
    var cmd := head + ["|"] + tail;
    var i := |head|;
    assert cmd[i] == "|";
    forall j | i < j < |cmd| ensures cmd[j] != "|" {
      assert cmd[j] == tail[j - i - 1];
    }
    LastPipeIs(cmd, |cmd|, i);
    assert cmd[..i] == head && cmd[i + 1..] == tail;
  }

  /** No word the probe command puts after the decoder is a pipe. */
  lemma EncoderTailNoPipe(q: int, encoder: string, threads: int, out: string)
    requires out != "|"
    ensures "|" !in EncoderWords(q, encoder, threads) + ["-o", out, "-"]
  {
    var w := EncoderWords(q, encoder, threads);
    forall k | 0 <= k < |w| ensures w[k] != "|" {
      assert |w[k]| >= 2;
    }
  }

  /** With the usual `ffmpeg_pipe` (words ending in one `|`), the probe
      command splits into the ffmpeg decoder and the encoder. */
  lemma ProbeCmdSplits(probe: string, q: int, ffmpegPipe: string, encoder: string, threads: int, before: seq<string>)
    requires Name(probe) != ""
    requires Words(ffmpegPipe) == before + ["|"]
    ensures var cmd := ProbeCmd(probe, q, ffmpegPipe, encoder, threads).value;
      TwoStep(cmd) == (["ffmpeg", "-y", "-hide_banner", "-loglevel", "error", "-i", probe] + before,
                       EncoderWords(q, encoder, threads) + ["-o", GenProbesName(probe, q).value, "-"])
  {
    var out := GenProbesName(probe, q).value;
    var head := ["ffmpeg", "-y", "-hide_banner", "-loglevel", "error", "-i", probe] + before;
    var tail := EncoderWords(q, encoder, threads) + ["-o", out, "-"];
    ProbeOutNotPipe(probe, q);
    EncoderTailNoPipe(q, encoder, threads, out);
    ProbeCmdLayout(probe, q, ffmpegPipe, encoder, threads, before);
    TwoStepAt(head, tail);
  }

  lemma ProbeOutNotPipe(probe: string, q: int)
    requires Name(probe) != ""
    ensures GenProbesName(probe, q).value != "|"
  {
    var out := GenProbesName(probe, q).value;
    assert |out| >= 4;
  }

  lemma ProbeCmdLayout(probe: string, q: int, ffmpegPipe: string, encoder: string, threads: int, before: seq<string>)
    requires Name(probe) != ""
    requires Words(ffmpegPipe) == before + ["|"]
    ensures ProbeCmd(probe, q, ffmpegPipe, encoder, threads).value
      == (["ffmpeg", "-y", "-hide_banner", "-loglevel", "error", "-i", probe] + before) + ["|"]
         + (EncoderWords(q, encoder, threads) + ["-o", GenProbesName(probe, q).value, "-"])
  {
    var out := GenProbesName(probe, q).value;
    assert ProbeCmd(probe, q, ffmpegPipe, encoder, threads).value == ProbeWords(probe, q, out, ffmpegPipe, encoder, threads);
    ProbeWordsLayout(probe, q, out, ffmpegPipe, encoder, threads, before);
  }

  lemma ProbeWordsLayout(probe: string, q: int, out: string, ffmpegPipe: string, encoder: string, threads: int, before: seq<string>)
    requires Words(ffmpegPipe) == before + ["|"]
    ensures ProbeWords(probe, q, out, ffmpegPipe, encoder, threads)
      == (["ffmpeg", "-y", "-hide_banner", "-loglevel", "error", "-i", probe] + before) + ["|"]
         + (EncoderWords(q, encoder, threads) + ["-o", out, "-"])
  {
    var a := ["ffmpeg", "-y", "-hide_banner", "-loglevel", "error", "-i", probe];
    var e := EncoderWords(q, encoder, threads);
    var t := ["-o", out, "-"];
    assert a + (before + ["|"]) + e + t == (a + before) + ["|"] + (e + t);
  }
}
