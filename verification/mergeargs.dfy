/**
 The argument dictionary handed to the av1an back end
 (qencoder/av1anworkarounds.py): the back end's defaults, overlaid with the
 values the front end supplies, and the count of frames a resumed run has
 already encoded.

 An argument value is one of the Python values the dictionaries hold: `None`,
 a boolean, an integer, a string, a float or a `pathlib.Path`.
 */
module Av1anArgs {
  import opened Common
  import opened Ledger
  import opened WorkQueue

  datatype ArgValue =
    | NoneArg
    | BoolArg(b: bool)
    | IntArg(i: int)
    | StrArg(s: string)
    | RealArg(x: real)
    | PathArg(path: string)

  type Args = map<string, ArgValue>

  /** The entries of `get_default_args()`, in the order the literal lists them. */
  const DefaultEntries: seq<(string, ArgValue)> := [
    ("input", NoneArg), ("temp", NoneArg), ("output_file", NoneArg), ("mkvmerge", BoolArg(false)),
    ("logging", NoneArg), ("resume", BoolArg(false)), ("keep", BoolArg(false)), ("config", NoneArg),
    ("webm", BoolArg(false)), ("chunk_method", NoneArg), ("scenes", NoneArg),
    ("split_method", StrArg("pyscene")), ("extra_split", NoneArg), ("threshold", IntArg(35)),
    ("min_scene_len", IntArg(60)), ("reuse_first_pass", BoolArg(false)), ("passes", NoneArg),
    ("video_params", NoneArg), ("encoder", StrArg("aom")), ("workers", IntArg(0)),
    ("no_check", BoolArg(false)), ("force", BoolArg(false)), ("vvc_conf", NoneArg),
    ("ffmpeg", StrArg("")), ("audio_params", StrArg("-c:a copy")), ("pix_format", StrArg("yuv420p10le")),
    ("vmaf", BoolArg(false)), ("vmaf_path", NoneArg), ("vmaf_res", StrArg("1920x1080")),
    ("n_threads", NoneArg), ("target_quality", NoneArg), ("target_quality_method", StrArg("per_shot")),
    ("probes", IntArg(4)), ("min_q", NoneArg), ("max_q", NoneArg), ("vmaf_plots", BoolArg(false)),
    ("probing_rate", IntArg(4)), ("vmaf_filter", NoneArg), ("quiet", BoolArg(true))
  ]

  /** The dictionary a literal `{k0: v0, k1: v1, ...}` builds: a later entry
      for the same key wins. */
  function DictOf(entries: seq<(string, ArgValue)>): (d: Args)
    ensures d.Keys == set i | 0 <= i < |entries| :: entries[i].0
    ensures |entries| > 0 ==> d[entries[|entries| - 1].0] == entries[|entries| - 1].1
  {
    if |entries| == 0 then map[]
    else
      var last := entries[|entries| - 1];
      var d := DictOf(entries[..|entries| - 1])[last.0 := last.1];
      assert d.Keys == set i | 0 <= i < |entries| :: entries[i].0 by {
        forall k | k in d.Keys ensures k in set i | 0 <= i < |entries| :: entries[i].0 {
          if k != last.0 {
            var i :| 0 <= i < |entries| - 1 && entries[..|entries| - 1][i].0 == k;
            assert entries[i].0 == k;
          }
        }
        forall i | 0 <= i < |entries| ensures entries[i].0 in d.Keys {
          if i < |entries| - 1 {
            assert entries[..|entries| - 1][i].0 == entries[i].0;
          }
        }
      }
      d
  }

  /** `get_default_args()` */
  function Defaults(): Args {
    DictOf(DefaultEntries)
  }

  /** The value a dict literal gives a key is that of the key's last entry. */
  lemma {:induction false} DictOfLookup(entries: seq<(string, ArgValue)>, i: nat)
    requires i < |entries|
    requires forall j :: i < j < |entries| ==> entries[j].0 != entries[i].0
    ensures DictOf(entries)[entries[i].0] == entries[i].1
  {
    if i < |entries| - 1 {
      var front := entries[..|entries| - 1];
      assert front[i] == entries[i];
      DictOfLookup(front, i);
    }
  }

  /** A few of the defaults the back end falls back on. */
  lemma DefaultValues()
    ensures "encoder" in Defaults() && Defaults()["encoder"] == StrArg("aom")
    ensures "quiet" in Defaults() && Defaults()["quiet"] == BoolArg(true)
  {
    var e := DefaultEntries;
    assert e[18] == ("encoder", StrArg("aom"));
    assert forall j :: 18 < j < |e| ==> e[j].0 != "encoder";
    DictOfLookup(e, 18);
    DictOfLookup(e, 38);
  }

  /** `base[key] = supplied[key]` for every key of `supplied`: supplied
      values win, every other key of `base` keeps its value, and no key is
      lost or invented. */
  function Overlay(base: Args, supplied: Args): (r: Args)
    ensures r.Keys == base.Keys + supplied.Keys
    ensures forall k :: k in supplied ==> r[k] == supplied[k]
    ensures forall k :: k in base && k !in supplied ==> r[k] == base[k]
  {
    base + supplied
  }

  /** `merge_args(dictargs)` */
  function MergeArgs(dictargs: Args): (r: Args)
    ensures r.Keys == Defaults().Keys + dictargs.Keys
    ensures forall k :: k in dictargs ==> r[k] == dictargs[k]
    ensures forall k :: k in Defaults() && k !in dictargs ==> r[k] == Defaults()[k]
  {
    Overlay(Defaults(), dictargs)
  }

  /** The loop of `merge_args`, starting from `base` and visiting the keys
      of `dictargs` in its iteration order `order` (a dict visits each of its
      keys once). */
  method MergeLoop(base: Args, dictargs: Args, order: seq<string>) returns (args1: Args)
    requires forall k :: k in order <==> k in dictargs
    ensures args1 == Overlay(base, dictargs)
  {
    args1 := base;
    var i := 0;
    while i < |order|
      invariant 0 <= i <= |order|
      invariant args1.Keys == base.Keys + set j | 0 <= j < i :: order[j]
      invariant forall j :: 0 <= j < i ==> args1[order[j]] == dictargs[order[j]]
      invariant forall k :: k in base && k !in order[..i] ==> args1[k] == base[k]
    {
      var key := order[i];
      args1 := args1[key := dictargs[key]];
      assert order[..i + 1] == order[..i] + [key];
      i := i + 1;
    }
    assert order[..i] == order;
    OverlayEq(args1, base, dictargs, order);
  }

  /** A map is the overlay once it has the overlay's keys and values. */
  lemma OverlayEq(m: Args, base: Args, dictargs: Args, order: seq<string>)
    requires forall k :: k in order <==> k in dictargs
    requires m.Keys == base.Keys + set j | 0 <= j < |order| :: order[j]
    requires forall j :: 0 <= j < |order| ==> m[order[j]] == dictargs[order[j]]
    requires forall k :: k in base && k !in order ==> m[k] == base[k]
    ensures m == Overlay(base, dictargs)
  {
    var r := Overlay(base, dictargs);
    assert (set j | 0 <= j < |order| :: order[j]) == dictargs.Keys by {
      forall k | k in dictargs ensures k in set j | 0 <= j < |order| :: order[j] {
        var j :| 0 <= j < |order| && order[j] == k;
      }
    }
    forall k | k in m ensures m[k] == r[k] {
      if k in dictargs {
        var j :| 0 <= j < |order| && order[j] == k;
      }
    }
  }

  /** Running the assignments of the loop a second time changes nothing. */
  lemma OverlayIdempotent(base: Args, supplied: Args)
    ensures Overlay(Overlay(base, supplied), supplied) == Overlay(base, supplied)
  {
    var once := Overlay(base, supplied);
    var twice := Overlay(once, supplied);
    assert twice.Keys == once.Keys;
    forall k | k in twice ensures twice[k] == once[k] {
    }
  }

  /** Overlaying a merged dictionary on the same base gives it back: it
      already holds every key of the base. */
  lemma OverlayFixpoint(base: Args, supplied: Args)
    ensures Overlay(base, Overlay(base, supplied)) == Overlay(base, supplied)
  {
    var once := Overlay(base, supplied);
    var twice := Overlay(base, once);
    assert twice.Keys == once.Keys;
    forall k | k in twice ensures twice[k] == once[k] {
    }
  }

  /** Feeding a merged dictionary back through `merge_args` gives it back. */
  lemma MergeArgsFixpoint(dictargs: Args)
    ensures MergeArgs(MergeArgs(dictargs)) == MergeArgs(dictargs)
  {
    OverlayFixpoint(Defaults(), dictargs);
  }

  // ---------------------------------------------------------------------------
  // done_count

  /** `done_count(temp, resume)`: the frames recorded in `done.json` when
      resuming from an existing ledger, 0 otherwise.  `stored` is `None`
      when the file is absent, and a failed load propagates. */
  function DoneCount(resume: bool, stored: Option<Result<Progress>>): (r: Result<int>)
    ensures !resume || stored.None? ==> r == Ok(0)
    ensures resume && stored.Some? ==> (r.Ok? <==> stored.value.Ok?)
  {
    if resume && stored.Some? then
      var p :- stored.value;
      Ok(Sum(Values(p.done)))
    else Ok(0)
  }

  /** The count agrees with the frames the run itself starts from. */
  lemma DoneCountIsInitial(resume: bool, stored: Option<Result<Progress>>, probeInput: Result<int>)
    requires StartState(resume, stored, probeInput).Ok?
    ensures DoneCount(resume, stored) == Ok(StartState(resume, stored, probeInput).value.initial)
  {
  }

  /** After a run recorded `writes` on a fresh ledger, the count is the sum
      of the recorded frames. */
  lemma DoneCountAfterWrites(total: int, writes: Assoc)
    requires UniqueKeys(writes)
    ensures DoneCount(true, Some(Ok(Replay(Progress(total, []), writes)))) == Ok(Sum(Values(writes)))
  {
    ResumeCountsRecorded(total, writes, Ok(total));
  }

  /** Recording one more chunk of `n` frames raises the count by `n`. */
  lemma DoneCountGrows(p: Progress, name: string, n: int)
    requires UniqueKeys(p.done) && name !in Keys(p.done)
    ensures DoneCount(true, Some(Ok(WriteProgress(p, name, n))))
         == Ok(DoneCount(true, Some(Ok(p))).value + n)
  {
    PutSum(p.done, name, n);
  }
}
