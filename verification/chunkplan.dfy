/**
 Chunk planning: what `scene_detect` does to the detector's cut list before
 the source is split, and how `split` chooses between a whole-file copy and
 segmenting (qencoder/pav1n.py), plus the timecode variant of the older
 pipeline (pav1n.py).

 The detector (PySceneDetect or the aomenc first-pass keyframe scan), the
 container's keyframe list and the total frame count are inputs.  Cuts are
 frame numbers; the Python code keeps them as decimal strings and converts
 with `int()`, which is the identity on the numbers themselves.
 */
module ChunkPlan {
  import opened Common

  // ---------------------------------------------------------------------------
  // Sequence vocabulary

  /** `a` is `b` with some elements left out, order kept. */
  predicate Subseq<T(==)>(a: seq<T>, b: seq<T>)
    decreases |b|
  {
    if |a| == 0 then true
    else if |b| == 0 then false
    else if a[0] == b[0] then Subseq(a[1..], b[1..])
    else Subseq(a, b[1..])
  }

  lemma {:induction false} SubseqMembers<T>(a: seq<T>, b: seq<T>)
    requires Subseq(a, b)
    ensures forall x :: x in a ==> x in b
    decreases |b|
  {
    if |a| > 0 && |b| > 0 {
      if a[0] == b[0] {
        SubseqMembers(a[1..], b[1..]);
        forall x | x in a ensures x in b {
          if x != a[0] {
            assert x in a[1..];
          }
        }
      } else {
        SubseqMembers(a, b[1..]);
      }
    }
  }

  /** A subsequence of the tail is a subsequence of the whole. */
  lemma {:induction false} SubseqCons<T>(a: seq<T>, c: seq<T>)
    requires |c| > 0 && Subseq(a, c[1..])
    ensures Subseq(a, c)
    decreases |c|, 0
  {
    if |a| > 0 && a[0] == c[0] {
      SubseqDropHead(a, c[1..]);
    }
  }

  /** Dropping the first element keeps a subsequence. */
  lemma {:induction false} SubseqDropHead<T>(a: seq<T>, x: seq<T>)
    requires |a| > 0 && Subseq(a, x)
    ensures Subseq(a[1..], x)
    decreases |x|, 1
  {
    if a[0] == x[0] {
      SubseqCons(a[1..], x);
    } else {
      SubseqDropHead(a, x[1..]);
      SubseqCons(a[1..], x);
    }
  }

  lemma {:induction false} SubseqTrans<T>(a: seq<T>, b: seq<T>, c: seq<T>)
    requires Subseq(a, b) && Subseq(b, c)
    ensures Subseq(a, c)
    decreases |c|
  {
    if |a| > 0 && |c| > 0 {
      if b[0] == c[0] {
        if a[0] == b[0] {
          SubseqTrans(a[1..], b[1..], c[1..]);
        } else {
          SubseqTrans(a, b[1..], c[1..]);
        }
      } else {
        SubseqTrans(a, b, c[1..]);
        SubseqCons(a, c);
      }
    }
  }

  lemma {:induction false} SubseqRefl<T>(a: seq<T>)
    ensures Subseq(a, a)
    decreases |a|
  {
    if |a| > 0 {
      SubseqRefl(a[1..]);
    }
  }

  predicate StrictlyAscending(s: seq<int>) {
    forall i, j :: 0 <= i < j < |s| ==> s[i] < s[j]
  }

  function Abs(x: int): nat {
    if x < 0 then -x else x
  }

  // ---------------------------------------------------------------------------
  // Step 1: keyframe-safe filtering (qencoder/pav1n.py:158-195)

  /** Keeps the detector cuts that land on a keyframe of the source, in
      detector order, unless the unsafe override is set. */
  function KeyframeFilter(cuts: seq<nat>, keyframes: seq<nat>, unsafe: bool): (r: seq<nat>)
    ensures unsafe ==> r == cuts
    ensures Subseq(r, cuts)
    ensures forall x :: x in r <==> x in cuts && (unsafe || x in keyframes)
  {
    if unsafe then SubseqRefl(cuts); cuts
    else if |cuts| == 0 then []
    else
      var rest := KeyframeFilter(cuts[1..], keyframes, false);
      assert cuts == [cuts[0]] + cuts[1..];
      if cuts[0] in keyframes then [cuts[0]] + rest else rest
  }

  /** The filter keeps every occurrence of a keyframe cut and no other. */
  lemma {:induction false} KeyframeFilterCounts(cuts: seq<nat>, keyframes: seq<nat>, unsafe: bool)
    ensures forall x :: multiset(KeyframeFilter(cuts, keyframes, unsafe))[x]
                     == if unsafe || x in keyframes then multiset(cuts)[x] else 0
    decreases |cuts|
  {
    if !unsafe && |cuts| > 0 {
      KeyframeFilterCounts(cuts[1..], keyframes, false);
      assert cuts == [cuts[0]] + cuts[1..];
    }
  }

  /** The cut list `scene_detect` starts from: the aomenc keyframe scan
      (`better_split`) starts from frame 0 and appends its filtered cuts; the
      content detector contributes only its filtered scene starts. */
  function Candidates(betterSplit: bool, detected: seq<nat>, keyframes: seq<nat>, unsafe: bool): seq<nat> {
    (if betterSplit then [0] else []) + KeyframeFilter(detected, keyframes, unsafe)
  }

  // ---------------------------------------------------------------------------
  // Step 2: pruning cuts closer than `min_split_dist` (qencoder/pav1n.py:200-208)

  /** Reference definition of the pruning pass: walking left to right, a cut
      survives when it is at least `msd` past the last survivor. */
  function GreedyKeep(last: int, rest: seq<nat>, msd: int): (r: seq<nat>)
    decreases |rest|
    ensures Subseq(r, rest)
    ensures |r| > 0 ==> r[0] - last >= msd
  {
    if |rest| == 0 then []
    else if rest[0] - last >= msd then [rest[0]] + GreedyKeep(rest[0], rest[1..], msd)
    else GreedyKeep(last, rest[1..], msd)
  }

  /** Consecutive survivors are at least `msd` apart. */
  lemma {:induction false} GreedyKeepSpaced(last: int, rest: seq<nat>, msd: int, k: nat)
    requires k + 1 < |GreedyKeep(last, rest, msd)|
    ensures GreedyKeep(last, rest, msd)[k + 1] - GreedyKeep(last, rest, msd)[k] >= msd
    decreases |rest|
  {
    if rest[0] - last >= msd {
      var t := GreedyKeep(rest[0], rest[1..], msd);
      assert GreedyKeep(last, rest, msd) == [rest[0]] + t;
      if k > 0 {
        GreedyKeepSpaced(rest[0], rest[1..], msd, k - 1);
      }
    } else {
      assert GreedyKeep(last, rest, msd) == GreedyKeep(last, rest[1..], msd);
      GreedyKeepSpaced(last, rest[1..], msd, k);
    }
  }

  function GreedyPrune(s: seq<nat>, msd: int): (r: seq<nat>)
    ensures Subseq(r, s)
    ensures |s| > 0 ==> |r| > 0 && r[0] == s[0]
    ensures |s| == 0 ==> r == []
  {
    if |s| == 0 then [] else [s[0]] + GreedyKeep(s[0], s[1..], msd)
  }

  /** The survivors of the greedy pass are at least `msd` apart. */
  lemma GreedyPruneSpaced(s: seq<nat>, msd: int)
    ensures var r := GreedyPrune(s, msd);
      forall k :: 0 <= k < |r| - 1 ==> r[k + 1] - r[k] >= msd
  {
    var r := GreedyPrune(s, msd);
    forall k | 0 <= k < |r| - 1 ensures r[k + 1] - r[k] >= msd {
      if k > 0 {
        GreedyKeepSpaced(s[0], s[1..], msd, k - 1);
      }
    }
  }

  /**
   The pruning loop exactly as written: `imod` starts at -1, iteration `i`
   compares `scenes[i - imod]` with `scenes[i - 1 - imod]` in the list as it
   is being edited, and a deletion bumps `imod` so that the next iteration
   looks at the same index again.  It computes the greedy pass.
   */
  method PruneShortScenes(scenes0: seq<nat>, msd: int) returns (scenes: seq<nat>)
    ensures scenes == GreedyPrune(scenes0, msd)
  {
    scenes := scenes0;
    if |scenes0| == 0 {
      return;
    }
    var n := |scenes0|;
    var imod := -1;
    var i := 0;
    // `kept` is the part of the list already settled: the survivors so far.
    ghost var kept := [scenes0[0]];
    ghost var target := GreedyPrune(scenes0, msd);
    assert scenes0 == kept + scenes0[1..];
    while i < n - 1
      invariant 0 <= i <= n - 1
      invariant |kept| == i - imod >= 1
      invariant scenes == kept + scenes0[i + 1..]
      invariant kept + GreedyKeep(kept[|kept| - 1], scenes0[i + 1..], msd) == target
    {
      scenes, imod, kept := PruneStep(scenes0, msd, i, imod, scenes, kept, target);
      i := i + 1;
    }
    assert scenes0[n..] == [];
  }

  /** One iteration of the pruning loop: compare the cut at `i - imod` with
      the one before it in the list being edited, and delete it when the two
      are closer than `msd`. */
  method PruneStep(scenes0: seq<nat>, msd: int, i: nat, imod: int, scenes: seq<nat>, ghost kept: seq<nat>, ghost target: seq<nat>)
      returns (scenes': seq<nat>, imod': int, ghost kept': seq<nat>)
    requires i + 1 < |scenes0| && |kept| == i - imod >= 1
    requires scenes == kept + scenes0[i + 1..]
    requires kept + GreedyKeep(kept[|kept| - 1], scenes0[i + 1..], msd) == target
    ensures |kept'| == i + 1 - imod' >= 1
    ensures scenes' == kept' + scenes0[i + 1 + 1..]
    ensures kept' + GreedyKeep(kept'[|kept'| - 1], scenes0[i + 1 + 1..], msd) == target
  {
    JoinAt(kept, scenes0, i);
    if scenes[i - imod] - scenes[i - 1 - imod] < msd {
      PruneDrop(kept, scenes0, i, msd, target);
      scenes' := scenes[..i - imod] + scenes[i - imod + 1..];
      imod' := imod + 1;
      kept' := kept;
    } else {
      PruneKeep(kept, scenes0, i, msd, target);
      scenes' := scenes;
      imod' := imod;
      kept' := kept + [scenes0[i + 1]];
    }
  }

  /** The settled part followed by the unexamined cuts: the cut under
      examination and its predecessor. */
  lemma JoinAt(kept: seq<nat>, s0: seq<nat>, i: nat)
    requires |kept| > 0 && i + 1 < |s0|
    ensures var s, k := kept + s0[i + 1..], |kept|;
      s[k] == s0[i + 1] && s[k - 1] == kept[k - 1]
  {
  }

  /** A cut closer than `msd` to the last survivor is deleted and skipped. */
  lemma PruneDrop(kept: seq<nat>, s0: seq<nat>, i: nat, msd: int, target: seq<nat>)
    requires |kept| > 0 && i + 1 < |s0| && s0[i + 1] - kept[|kept| - 1] < msd
    requires kept + GreedyKeep(kept[|kept| - 1], s0[i + 1..], msd) == target
    ensures var s, k := kept + s0[i + 1..], |kept|;
      s[..k] + s[k + 1..] == kept + s0[i + 1 + 1..]
    ensures kept + GreedyKeep(kept[|kept| - 1], s0[i + 1 + 1..], msd) == target
  {
    var s, k := kept + s0[i + 1..], |kept|;
    assert s[..k] == kept;
    assert s[k + 1..] == s0[i + 2..];
    assert s0[i + 1..][1..] == s0[i + 2..];
  }

  /** A cut at least `msd` past the last survivor joins the survivors. */
  lemma PruneKeep(kept: seq<nat>, s0: seq<nat>, i: nat, msd: int, target: seq<nat>)
    requires |kept| > 0 && i + 1 < |s0| && s0[i + 1] - kept[|kept| - 1] >= msd
    requires kept + GreedyKeep(kept[|kept| - 1], s0[i + 1..], msd) == target
    ensures var k' := kept + [s0[i + 1]];
      && kept + s0[i + 1..] == k' + s0[i + 1 + 1..]
      && k' + GreedyKeep(k'[|k'| - 1], s0[i + 1 + 1..], msd) == target
  {
    var x := s0[i + 1];
    var k' := kept + [x];
    GreedyKeepStep(kept[|kept| - 1], s0, i + 1, msd);
    var g := GreedyKeep(x, s0[i + 1 + 1..], msd);
    ConcatAssoc(kept, [x], g);
    ConcatAssoc(kept, [x], s0[i + 1 + 1..]);
    assert s0[i + 1..] == [x] + s0[i + 1 + 1..];
  }

  /** The greedy rule keeps a cut at least `msd` past the last survivor. */
  lemma GreedyKeepStep(last: int, s: seq<nat>, j: nat, msd: int)
    requires j < |s| && s[j] - last >= msd
    ensures GreedyKeep(last, s[j..], msd) == [s[j]] + GreedyKeep(s[j], s[j + 1..], msd)
  {
    assert s[j..][1..] == s[j + 1..];
  }

  /** After the loop, the last cut is dropped when it lies within `msd` of the
      end of the video; an empty list raises IndexError. */
  function DropShortTail(scenes: seq<nat>, totalFrames: int, msd: int): (r: Result<seq<nat>>)
    ensures |scenes| == 0 <==> r.Err?
    ensures r.Ok? ==> r.value == scenes || r.value == scenes[..|scenes| - 1]
    ensures r.Ok? ==> (r.value != scenes <==> totalFrames - scenes[|scenes| - 1] < msd)
  {
    if |scenes| == 0 then Err(IndexError)
    else if totalFrames - scenes[|scenes| - 1] < msd then Ok(scenes[..|scenes| - 1])
    else Ok(scenes)
  }

  /** The whole pruning block, which only runs for a positive distance: the
      surviving cuts keep their order, start with the first candidate and are
      at least `msd` apart. */
  function Prune(scenes: seq<nat>, totalFrames: int, msd: int): (r: Result<seq<nat>>)
    ensures r.Err? <==> msd > 0 && |scenes| == 0
    ensures msd <= 0 ==> r == Ok(scenes)
    ensures r.Ok? ==> Subseq(r.value, scenes)
    ensures r.Ok? && |r.value| > 0 ==> r.value[0] == scenes[0]
    ensures r.Ok? && msd > 0 ==> forall k :: 0 <= k < |r.value| - 1 ==> r.value[k + 1] - r.value[k] >= msd
  {
    if msd <= 0 then SubseqRefl(scenes); Ok(scenes)
    else
      var g := GreedyPrune(scenes, msd);
      GreedyPruneSpaced(scenes, msd);
      var t := DropShortTail(g, totalFrames, msd);
      if t.Ok? && t.value != g then
        PrefixSubseq(g, |g| - 1);
        SubseqTrans(t.value, g, scenes);
        assert forall k :: 0 <= k < |t.value| ==> t.value[k] == g[k];
        t
      else t
  }

  lemma {:induction false} PrefixSubseq<T>(s: seq<T>, k: nat)
    requires k <= |s|
    ensures Subseq(s[..k], s)
    decreases |s|
  {
    if k > 0 {
      PrefixSubseq(s[1..], k - 1);
      assert s[1..][..k - 1] == s[..k][1..];
    } else if |s| > 0 {
      assert s[..k] == [];
    }
  }

  // ---------------------------------------------------------------------------
  // Characterisation of the pruning pass by a keep-mask

  function Select<T>(s: seq<T>, m: seq<bool>): seq<T>
    requires |s| == |m|
  {
    if |s| == 0 then [] else (if m[0] then [s[0]] else []) + Select(s[1..], m[1..])
  }

  /** The index of the last kept position before `j`. */
  function LastKept(m: seq<bool>, j: nat): (i: nat)
    requires 0 < j <= |m| && m[0]
    ensures i < j && m[i]
    ensures forall k :: i < k < j ==> !m[k]
  {
    if m[j - 1] then j - 1 else LastKept(m, j - 1)
  }

  /**
   `m` marks the survivors of a greedy left-to-right pruning of `s`: the first
   cut is kept, and every later cut is kept exactly when it is at least `msd`
   past the last kept cut before it.
   */
  ghost predicate GreedyMask(s: seq<int>, msd: int, m: seq<bool>) {
    && |m| == |s|
    && (|s| > 0 ==> m[0])
    && forall j {:trigger LastKept(m, j)} :: 0 < j < |s| ==> (m[j] <==> s[j] - s[LastKept(m, j)] >= msd)
  }

  function KeepMask(last: int, rest: seq<nat>, msd: int): (m: seq<bool>)
    decreases |rest|
    ensures |m| == |rest|
  {
    if |rest| == 0 then []
    else if rest[0] - last >= msd then [true] + KeepMask(rest[0], rest[1..], msd)
    else [false] + KeepMask(last, rest[1..], msd)
  }

  function PruneMask(s: seq<nat>, msd: int): seq<bool> {
    if |s| == 0 then [] else [true] + KeepMask(s[0], s[1..], msd)
  }

  lemma {:induction false} LastKeptPrefix(m1: seq<bool>, m2: seq<bool>, j: nat)
    requires 0 < j <= |m1| && 0 < j <= |m2| && m1[0] && m2[0]
    requires m1[..j] == m2[..j]
    ensures LastKept(m1, j) == LastKept(m2, j)
    decreases j
  {
    assert m1[j - 1] == m1[..j][j - 1] == m2[..j][j - 1] == m2[j - 1];
    if !m1[j - 1] {
      assert m1[..j - 1] == m1[..j][..j - 1];
      assert m2[..j - 1] == m2[..j][..j - 1];
      LastKeptPrefix(m1, m2, j - 1);
    }
  }

  lemma GreedyMaskSnoc(pre: seq<nat>, mpre: seq<bool>, msd: int, x: nat, b: bool)
    requires |pre| > 0 && GreedyMask(pre, msd, mpre)
    requires b <==> x - pre[LastKept(mpre, |pre|)] >= msd
    ensures GreedyMask(pre + [x], msd, mpre + [b])
    ensures LastKept(mpre + [b], |pre| + 1) == if b then |pre| else LastKept(mpre, |pre|)
  {
    var s := pre + [x];
    var m := mpre + [b];
    forall j | 0 < j < |s|
      ensures (m[j] <==> s[j] - s[LastKept(m, j)] >= msd)
    {
      SnocPoint(pre, mpre, msd, x, b, j);
    }
    assert m[..|pre|] == mpre;
    LastKeptPrefix(m, mpre, |pre|);
  }

  lemma SnocPoint(pre: seq<nat>, mpre: seq<bool>, msd: int, x: nat, b: bool, j: nat)
    requires |pre| > 0 && GreedyMask(pre, msd, mpre)
    requires b <==> x - pre[LastKept(mpre, |pre|)] >= msd
    requires 0 < j <= |pre|
    ensures ((mpre + [b])[j] <==> (pre + [x])[j] - (pre + [x])[LastKept(mpre + [b], j)] >= msd)
  {
    var m := mpre + [b];
    assert m[..j] == mpre[..j];
    LastKeptPrefix(m, mpre, j);
    var l := LastKept(mpre, j);
    assert (pre + [x])[l] == pre[l];
    if j < |pre| {
      assert m[j] == mpre[j];
      assert (pre + [x])[j] == pre[j];
    }
  }

  lemma {:induction false} GreedyMaskExtend(pre: seq<nat>, mpre: seq<bool>, msd: int, rest: seq<nat>)
    requires |pre| > 0 && GreedyMask(pre, msd, mpre)
    ensures GreedyMask(pre + rest, msd, mpre + KeepMask(pre[LastKept(mpre, |pre|)], rest, msd))
    decreases |rest|
  {
    var last := pre[LastKept(mpre, |pre|)];
    if |rest| == 0 {
      assert pre + rest == pre;
      assert mpre + KeepMask(last, rest, msd) == mpre;
    } else {
      var pre', mpre', last' := GreedyMaskStep(pre, mpre, msd, rest);
      GreedyMaskExtend(pre', mpre', msd, rest[1..]);
    }
  }

  /** One step of `GreedyMaskExtend`: the next cut joins the prefix with the
      mask bit the greedy rule gives it. */
  lemma GreedyMaskStep(pre: seq<nat>, mpre: seq<bool>, msd: int, rest: seq<nat>)
      returns (pre': seq<nat>, mpre': seq<bool>, last': int)
    requires |pre| > 0 && GreedyMask(pre, msd, mpre) && |rest| > 0
    ensures |pre'| > 0 && GreedyMask(pre', msd, mpre')
    ensures last' == pre'[LastKept(mpre', |pre'|)]
    ensures pre' + rest[1..] == pre + rest
    ensures mpre' + KeepMask(last', rest[1..], msd) == mpre + KeepMask(pre[LastKept(mpre, |pre|)], rest, msd)
  {
    var last := pre[LastKept(mpre, |pre|)];
    var x := rest[0];
    var b := x - last >= msd;
    GreedyMaskSnoc(pre, mpre, msd, x, b);
    pre' := pre + [x];
    mpre' := mpre + [b];
    last' := pre'[LastKept(mpre', |pre'|)];
    assert last' == if b then x else last;
    assert pre' + rest[1..] == pre + rest;
    assert KeepMask(last, rest, msd) == [b] + KeepMask(last', rest[1..], msd);
  }

  lemma {:induction false} SelectKeepMask(last: int, rest: seq<nat>, msd: int)
    ensures Select(rest, KeepMask(last, rest, msd)) == GreedyKeep(last, rest, msd)
    decreases |rest|
  {
    if |rest| > 0 {
      SelectKeepMask(rest[0], rest[1..], msd);
      SelectKeepMask(last, rest[1..], msd);
    }
  }

  lemma {:induction false} SelectAppend<T>(a: seq<T>, b: seq<T>, ma: seq<bool>, mb: seq<bool>)
    requires |a| == |ma| && |b| == |mb|
    ensures Select(a + b, ma + mb) == Select(a, ma) + Select(b, mb)
    decreases |a|
  {
    if |a| == 0 {
      assert a + b == b;
      assert ma + mb == mb;
    } else {
      var ab, mab := a + b, ma + mb;
      var h := if ma[0] then [a[0]] else [];
      assert ab[0] == a[0] && mab[0] == ma[0];
      assert ab[1..] == a[1..] + b;
      assert mab[1..] == ma[1..] + mb;
      assert Select(ab, mab) == h + Select(a[1..] + b, ma[1..] + mb);
      SelectAppend(a[1..], b, ma[1..], mb);
      assert Select(a, ma) == h + Select(a[1..], ma[1..]);
      assert h + (Select(a[1..], ma[1..]) + Select(b, mb)) == (h + Select(a[1..], ma[1..])) + Select(b, mb);
    }
  }

  /** The greedy pass is exactly the greedy keep-mask applied to the input. */
  lemma GreedyPruneIsGreedyMask(s: seq<nat>, msd: int)
    ensures GreedyMask(s, msd, PruneMask(s, msd))
    ensures GreedyPrune(s, msd) == Select(s, PruneMask(s, msd))
  {
    if |s| > 0 {
      var pre := [s[0]];
      assert GreedyMask(pre, msd, [true]);
      assert LastKept([true], 1) == 0;
      GreedyMaskExtend(pre, [true], msd, s[1..]);
      assert pre + s[1..] == s;
      SelectKeepMask(s[0], s[1..], msd);
      SelectAppend(pre, s[1..], [true], KeepMask(s[0], s[1..], msd));
      assert Select(pre, [true]) == [s[0]];
    }
  }

  /** The greedy condition leaves no choice: at most one mask satisfies it. */
  lemma GreedyMaskUnique(s: seq<int>, msd: int, m1: seq<bool>, m2: seq<bool>)
    requires GreedyMask(s, msd, m1) && GreedyMask(s, msd, m2)
    ensures m1 == m2
  {
    MasksAgree(s, msd, m1, m2, |s|);
  }

  /** Two greedy masks agree on every position below `k`. */
  lemma {:induction false} MasksAgree(s: seq<int>, msd: int, m1: seq<bool>, m2: seq<bool>, k: nat)
    requires GreedyMask(s, msd, m1) && GreedyMask(s, msd, m2) && k <= |s|
    ensures m1[..k] == m2[..k]
    decreases k
  {
    if k > 0 {
      MasksAgree(s, msd, m1, m2, k - 1);
      if k - 1 > 0 {
        LastKeptPrefix(m1, m2, k - 1);
      }
      assert m1[k - 1] == m2[k - 1];
      assert m1[..k] == m1[..k - 1] + [m1[k - 1]];
      assert m2[..k] == m2[..k - 1] + [m2[k - 1]];
    }
  }

  // ---------------------------------------------------------------------------
  // Step 3: reduction to the worker count (qencoder/pav1n.py:211-224)

  /** `[math.floor(x * totalFrames / workers) for x in range(workers)]` */
  function IdealPoints(totalFrames: int, workers: int): (r: seq<int>)
    ensures |r| == if workers > 0 then workers else 0
    ensures forall x :: 0 <= x < |r| ==> r[x] == x * totalFrames / workers
  {
    if workers <= 0 then [] else IdealPointsBelow(totalFrames, workers, workers)
  }

  function IdealPointsBelow(totalFrames: int, workers: int, n: nat): (r: seq<int>)
    requires workers > 0
    ensures |r| == n
    ensures forall x :: 0 <= x < n ==> r[x] == x * totalFrames / workers
  {
    if n == 0 then [] else IdealPointsBelow(totalFrames, workers, n - 1) + [(n - 1) * totalFrames / workers]
  }

  /** The position `min(xs, key=lambda x: abs(x - p))` picks: the FIRST
      element at minimal distance from `p`. */
  function NearestIndex(xs: seq<nat>, p: int): (i: nat)
    requires |xs| > 0
    ensures i < |xs|
    ensures forall k :: 0 <= k < |xs| ==> Abs(xs[i] - p) <= Abs(xs[k] - p)
    ensures forall k :: 0 <= k < i ==> Abs(xs[k] - p) > Abs(xs[i] - p)
  {
    if |xs| == 1 then 0
    else
      var init := xs[..|xs| - 1];
      var i := NearestIndex(init, p);
      assert forall k :: 0 <= k < |init| ==> init[k] == xs[k];
      if Abs(xs[|xs| - 1] - p) < Abs(xs[i] - p) then |xs| - 1 else i
  }

  function Nearest(xs: seq<nat>, p: int): (r: nat)
    requires |xs| > 0
    ensures r in xs
  {
    xs[NearestIndex(xs, p)]
  }

  function NearestAll(xs: seq<nat>, points: seq<int>): (r: seq<nat>)
    requires |xs| > 0
    ensures |r| == |points|
    ensures forall k :: 0 <= k < |r| ==> r[k] == Nearest(xs, points[k])
  {
    if |points| == 0 then [] else [Nearest(xs, points[0])] + NearestAll(xs, points[1..])
  }

  /** Inserts `x` into a strictly ascending list unless it is already there. */
  function InsertUnique(x: nat, s: seq<nat>): (r: seq<nat>)
    requires StrictlyAscending(s)
    ensures StrictlyAscending(r)
    ensures forall y :: y in r <==> y == x || y in s
  {
    if |s| == 0 then [x]
    else if x < s[0] then [x] + s
    else if x == s[0] then s
    else
      var t := InsertUnique(x, s[1..]);
      assert s == [s[0]] + s[1..];
      assert forall y :: y in t ==> s[0] < y by {
        forall y | y in t ensures s[0] < y {
          if y != x {
            var k :| 0 <= k < |s[1..]| && s[1..][k] == y;
            assert s[k + 1] == y;
          }
        }
      }
      var r := [s[0]] + t;
      assert forall j :: 0 < j < |r| ==> r[j] == t[j - 1] && r[j] in t;
      r
  }

  /** `sorted(set(xs))` */
  function SortedSet(xs: seq<nat>): (r: seq<nat>)
    ensures StrictlyAscending(r)
    ensures forall y :: y in r <==> y in xs
  {
    if |xs| == 0 then []
    else
      var init := xs[..|xs| - 1];
      assert xs == init + [xs[|xs| - 1]];
      InsertUnique(xs[|xs| - 1], SortedSet(init))
  }

  /** A strictly ascending list drawn from `q` is no longer than `q`. */
  lemma AscendingFromIsShorter(r: seq<int>, q: seq<int>)
    requires StrictlyAscending(r)
    requires forall y :: y in r ==> y in q
    ensures |r| <= |q|
  {
    DistinctCard(r);
    SetOfSeqCard(q);
    assert (set y | y in r) <= (set y | y in q);
    CardSubset(set y | y in r, set y | y in q);
  }

  lemma CardSubset<T>(a: set<T>, b: set<T>)
    requires a <= b
    ensures |a| <= |b|
  {
    assert b == a + (b - a);
  }

  lemma {:induction false} DistinctCard(r: seq<int>)
    requires StrictlyAscending(r)
    ensures |set y | y in r| == |r|
    decreases |r|
  {
    if |r| > 0 {
      var t := r[1..];
      DistinctCard(t);
      HeadNotInTail(r);
      SetOfCons(r);
    }
  }

  lemma HeadNotInTail(r: seq<int>)
    requires |r| > 0 && StrictlyAscending(r)
    ensures r[0] !in r[1..] && StrictlyAscending(r[1..])
  {
    var t := r[1..];
    forall k | 0 <= k < |t| ensures t[k] != r[0] {
      assert t[k] == r[k + 1];
    }
    forall i, j | 0 <= i < j < |t| ensures t[i] < t[j] {
      assert t[i] == r[i + 1] && t[j] == r[j + 1];
    }
  }

  /** The elements of a non-empty sequence: its head and those of its tail. */
  lemma SetOfCons(r: seq<int>)
    requires |r| > 0
    ensures (set y | y in r) == (set y | y in r[1..]) + {r[0]}
  {
    assert r == [r[0]] + r[1..];
  }

  lemma {:induction false} SetOfSeqCard(q: seq<int>)
    ensures |set y | y in q| <= |q|
    decreases |q|
  {
    if |q| > 0 {
      SetOfSeqCard(q[1..]);
      SetOfCons(q);
    }
  }

  /**
   Picks, for each ideal split point, the first input cut nearest to it, then
   removes duplicates and sorts.  `min` of an empty list raises ValueError.
   */
  function ReduceToWorkers(scenes: seq<nat>, totalFrames: int, workers: int): (r: Result<seq<nat>>)
    ensures r.Err? <==> workers > 0 && |scenes| == 0
    ensures r.Ok? ==> StrictlyAscending(r.value)
    ensures r.Ok? ==> |r.value| <= (if workers > 0 then workers else 0)
    ensures r.Ok? ==> forall y :: y in r.value ==> y in scenes
  {
    var ideal := IdealPoints(totalFrames, workers);
    if |ideal| == 0 then Ok([])
    else if |scenes| == 0 then Err(ValueError)
    else
      var picks := NearestAll(scenes, ideal);
      var sorted := SortedSet(picks);
      AscendingFromIsShorter(sorted, picks);
      Ok(sorted)
  }

  /** The reduced cuts are exactly the nearest cuts to the ideal points
      `x * totalFrames / workers`, `0 <= x < workers`. */
  lemma ReduceToWorkersPicks(scenes: seq<nat>, totalFrames: int, workers: int)
    requires workers > 0 && |scenes| > 0
    ensures var r := ReduceToWorkers(scenes, totalFrames, workers).value;
      && (forall x :: 0 <= x < workers ==> Nearest(scenes, x * totalFrames / workers) in r)
      && (forall y :: y in r ==> exists x :: 0 <= x < workers && y == Nearest(scenes, x * totalFrames / workers))
  {
    var ideal := IdealPoints(totalFrames, workers);
    var picks := NearestAll(scenes, ideal);
    var r := ReduceToWorkers(scenes, totalFrames, workers).value;
    assert r == SortedSet(picks);
    forall x | 0 <= x < workers ensures Nearest(scenes, x * totalFrames / workers) in r {
      assert picks[x] == Nearest(scenes, ideal[x]);
      assert picks[x] in picks;
    }
    forall y | y in r ensures exists x :: 0 <= x < workers && y == Nearest(scenes, x * totalFrames / workers) {
      assert y in picks;
      var x :| 0 <= x < |picks| && picks[x] == y;
      assert y == Nearest(scenes, ideal[x]);
    }
  }

  // ---------------------------------------------------------------------------
  // Step 4: the command-line length workaround (qencoder/pav1n.py:124-129)

  /** `scenes[::2]` */
  function Evens<T>(s: seq<T>): (r: seq<T>)
    ensures |r| == (|s| + 1) / 2
    ensures |s| > 0 ==> r[0] == s[0]
    ensures |s| >= 2 ==> |r| < |s|
  {
    if |s| == 0 then []
    else if |s| == 1 then s
    else [s[0]] + Evens(s[2..])
  }

  /** The `k`-th kept element is the one at `2 * k`: `scenes[::2]`. */
  lemma {:induction false} EvensAt<T>(s: seq<T>, k: nat)
    requires k < |Evens(s)|
    ensures Evens(s)[k] == s[2 * k]
    decreases |s|
  {
    if |s| >= 2 && k > 0 {
      assert Evens(s)[k] == Evens(s[2..])[k - 1];
      EvensAt(s[2..], k - 1);
      assert s[2..][2 * (k - 1)] == s[2 * k];
    }
  }

  lemma {:induction false} EvensSubseq<T>(s: seq<T>)
    ensures Subseq(Evens(s), s)
    decreases |s|
  {
    if |s| == 1 {
      SubseqRefl(s);
    } else if |s| >= 2 {
      EvensSubseq(s[2..]);
      assert Subseq(s[2..], s[1..]) by {
        PrefixDropSubseq(s[1..]);
        assert s[1..][1..] == s[2..];
      }
      SubseqTrans(Evens(s[2..]), s[2..], s[1..]);
    }
  }

  lemma PrefixDropSubseq<T>(s: seq<T>)
    requires |s| > 0
    ensures Subseq(s[1..], s)
  {
    assert s[1..] == s[1..][..|s| - 1];
    SuffixSubseq(s, 1);
  }

  lemma {:induction false} SuffixSubseq<T>(s: seq<T>, k: nat)
    requires k <= |s|
    ensures Subseq(s[k..], s)
    decreases k
  {
    if k == 0 {
      assert s[0..] == s;
      SubseqRefl(s);
    } else {
      SuffixSubseq(s[1..], k - 1);
      assert s[1..][k - 1..] == s[k..];
      SubseqCons(s[k..], s);
    }
  }

  /** `reduce_scenes` as written: the recursive call's result is discarded, so
      a long list is halved exactly once. */
  function ReduceScenesAsWritten<T>(scenes: seq<T>): (r: seq<T>)
    ensures |scenes| <= 600 ==> r == scenes
    ensures |scenes| > 600 ==> r == Evens(scenes)
  {
    if |scenes| > 600 then Evens(scenes) else scenes
  }

  /** The discarded recursion shows: 1202 cuts or more still leave more than
      600 after the workaround. */
  lemma ReduceScenesAsWrittenLeavesTooMany<T>(scenes: seq<T>)
    requires |scenes| >= 1202
    ensures |ReduceScenesAsWritten(scenes)| > 600
  {
  }

  /** The evident intent: halve until at most 600 cuts remain. */
  function ReduceScenes<T(==)>(scenes: seq<T>): (r: seq<T>)
    ensures |scenes| <= 600 ==> r == scenes
    ensures |r| <= 600
    ensures |scenes| > 600 ==> 300 < |r|
    ensures Subseq(r, scenes)
    ensures |scenes| > 0 ==> |r| > 0 && r[0] == scenes[0]
    decreases |scenes|
  {
    if |scenes| > 600 then
      var h := Evens(scenes);
      var r := ReduceScenes(h);
      EvensSubseq(scenes);
      SubseqTrans(r, h, scenes);
      r
    else
      SubseqRefl(scenes);
      scenes
  }

  // ---------------------------------------------------------------------------
  // Step 5: what scene_detect hands to split (qencoder/pav1n.py:229-233)

  /** The Python value `scene_detect` returns: the list `['0']`, or the
      comma-joined cuts as one string. */
  datatype CutArg = CutList(items: seq<string>) | CutString(text: string)

  /** `len()` of that value: list length, or string length. */
  function PyLen(a: CutArg): nat {
    match a
    case CutList(items) => |items|
    case CutString(text) => |text|
  }

  function NatStrings(s: seq<nat>): (r: seq<string>)
    ensures |r| == |s|
    ensures forall k :: 0 <= k < |r| ==> r[k] == NatToString(s[k])
  {
    if |s| == 0 then [] else [NatToString(s[0])] + NatStrings(s[1..])
  }

  /** At most one cut means one chunk, sent as the sentinel `['0']`; otherwise
      the cuts after the first (which is frame 0 of the first chunk) are joined
      with commas. */
  function EncodeCuts(scenes: seq<nat>): (r: CutArg)
    ensures |scenes| <= 1 <==> r == CutList(["0"])
  {
    if |scenes| <= 1 then CutList(["0"]) else CutString(Join(",", NatStrings(scenes[1..])))
  }

  /** `str.split(',')` */
  function SplitComma(s: string): (r: seq<string>)
    ensures |r| > 0
    decreases |s|
  {
    var i := Find(s, ",");
    if i == -1 then [s] else [s[..i]] + SplitComma(s[i + 1..])
  }

  lemma SplitCommaNoComma(s: string)
    requires ',' !in s
    ensures SplitComma(s) == [s]
  {
    forall i | 0 <= i <= |s| ensures !OccursAt(s, ",", i) {
      if i + 1 <= |s| {
        assert s[i..i + 1] == [s[i]];
      }
    }
  }

  lemma {:induction false} SplitCommaJoin(items: seq<string>)
    requires |items| > 0
    requires forall k :: 0 <= k < |items| ==> ',' !in items[k]
    ensures SplitComma(Join(",", items)) == items
    decreases |items|
  {
    if |items| == 1 {
      SplitCommaNoComma(items[0]);
    } else {
      var h := items[0];
      var t := Join(",", items[1..]);
      assert Join(",", items) == h + "," + t;
      SplitCommaHead(h, t);
      SplitCommaJoin(items[1..]);
      assert items == [h] + items[1..];
    }
  }

  /** A comma-free first item is split off at the first comma. */
  lemma SplitCommaHead(h: string, t: string)
    requires ',' !in h
    ensures SplitComma(h + "," + t) == [h] + SplitComma(t)
  {
    var s := h + "," + t;
    FirstComma(h, t);
    assert s[..|h|] == h;
    assert s[|h| + 1..] == t;
  }

  lemma FirstComma(h: string, t: string)
    requires ',' !in h
    ensures Find(h + "," + t, ",") == |h|
  {
    var s := h + "," + t;
    assert s[|h|..|h| + 1] == ",";
    assert OccursAt(s, ",", |h|);
    forall j | 0 <= j < |h| ensures !OccursAt(s, ",", j) {
      assert s[j] == h[j];
      assert s[j..j + 1] == [s[j]];
    }
  }

  /** Round trip: splitting the joined string at commas and reading each
      number back recovers every cut after the first. */
  lemma EncodeCutsRoundTrip(scenes: seq<nat>)
    requires |scenes| >= 2
    ensures EncodeCuts(scenes).CutString?
    ensures var parts := SplitComma(EncodeCuts(scenes).text);
      |parts| == |scenes| - 1 &&
      forall k :: 0 <= k < |parts| ==> AllDigits(parts[k]) && DigitsValue(parts[k]) == scenes[k + 1]
  {
    var strs := NatStrings(scenes[1..]);
    forall k | 0 <= k < |strs| ensures ',' !in strs[k] {
      assert forall j :: 0 <= j < |strs[k]| ==> IsDigit(strs[k][j]);
    }
    SplitCommaJoin(strs);
    forall k | 0 <= k < |strs| ensures DigitsValue(strs[k]) == scenes[k + 1] {
      DigitsValueOfNatToString(scenes[1..][k]);
    }
  }

  // ---------------------------------------------------------------------------
  // The whole post-processing pipeline

  datatype PlanConfig = PlanConfig(
    betterSplit: bool,    // aomenc keyframe scan instead of the content detector
    unsafeSplit: bool,    // keep cuts that do not land on a keyframe
    minSplitDist: int,
    minSplits: bool,      // reduce the cuts to the worker count
    workers: int,
    linux: bool)          // `sys.platform == 'linux'`

  /**
   Which reading of the pipeline's two defects a member follows: the program
   as written (`reduce_scenes` halves once, `split` tests the length of its
   argument) or the evident intent (halve until at most 600 cuts remain, copy
   the whole file only for the `['0']` sentinel).
   */
  datatype Reading = AsWritten | Intended

  /** The off-Linux cut reduction under either reading. */
  function Halve<T(==)>(v: Reading, scenes: seq<T>): (r: seq<T>)
    ensures Subseq(r, scenes)
    ensures |scenes| <= 600 ==> r == scenes
    ensures |scenes| > 0 ==> |r| > 0 && r[0] == scenes[0]
    ensures v == Intended ==> |r| <= 600
    ensures v == AsWritten ==> (|r| <= 600 <==> |scenes| <= 1200)
  {
    match v
    case AsWritten =>
      EvensSubseq(scenes);
      SubseqRefl(scenes);
      ReduceScenesAsWritten(scenes)
    case Intended => ReduceScenes(scenes)
  }

  /** The two readings of the reduction agree exactly up to 1200 cuts: one
      halving suffices there, and beyond it the program keeps more than 600. */
  lemma HalveReadingsAgree<T>(scenes: seq<T>)
    ensures Halve(AsWritten, scenes) == Halve(Intended, scenes) <==> |scenes| <= 1200
  {
    if 600 < |scenes| <= 1200 {
      assert |Evens(scenes)| <= 600;
      assert ReduceScenes(scenes) == ReduceScenes(Evens(scenes));
    }
  }

  /** The cuts before the off-Linux reduction: filtered, pruned and, when
      asked, reduced to the worker count (qencoder/pav1n.py:185-221). */
  function WorkerCuts(cfg: PlanConfig, detected: seq<nat>, keyframes: seq<nat>, totalFrames: int): (r: Result<seq<nat>>)
    ensures r.Err? ==> r.error == Fatal("Not able to split video")
    ensures cfg.minSplitDist <= 0 && !cfg.minSplits ==> r.Ok?
    ensures cfg.minSplitDist <= 0 && cfg.minSplits ==>
      (r.Err? <==> cfg.workers > 0 && |Candidates(cfg.betterSplit, detected, keyframes, cfg.unsafeSplit)| == 0)
    ensures r.Ok? && cfg.minSplits ==> StrictlyAscending(r.value) && |r.value| <= (if cfg.workers > 0 then cfg.workers else 0)
  {
    var c := Candidates(cfg.betterSplit, detected, keyframes, cfg.unsafeSplit);
    var p := Prune(c, totalFrames, cfg.minSplitDist);
    if p.Err? then Err(Fatal("Not able to split video")) else
    var w := if cfg.minSplits then ReduceToWorkers(p.value, totalFrames, cfg.workers) else Ok(p.value);
    if w.Err? then Err(Fatal("Not able to split video")) else w
  }

  /**
   The cut post-processing of `scene_detect` (qencoder/pav1n.py:158-228):
   filter, prune, reduce to the worker count, and reduce the cuts off Linux.
   Every failure inside the `try` is re-raised as a bare Exception.  Only
   the intended reading keeps at most 600 cuts off Linux; as written, more
   than 1200 cuts after the worker step leave more than 600.
   */
  function PlannedCuts(v: Reading, cfg: PlanConfig, detected: seq<nat>, keyframes: seq<nat>, totalFrames: int): (r: Result<seq<nat>>)
    ensures r.Err? <==> WorkerCuts(cfg, detected, keyframes, totalFrames).Err?
    ensures r.Err? ==> r.error == Fatal("Not able to split video")
    ensures cfg.minSplitDist <= 0 && !cfg.minSplits ==> r.Ok?
    ensures cfg.minSplitDist <= 0 && cfg.minSplits ==>
      (r.Err? <==> cfg.workers > 0 && |Candidates(cfg.betterSplit, detected, keyframes, cfg.unsafeSplit)| == 0)
    ensures r.Ok? && cfg.linux ==> r.value == WorkerCuts(cfg, detected, keyframes, totalFrames).value
    ensures r.Ok? && !cfg.linux && v == Intended ==> |r.value| <= 600
    ensures r.Ok? && !cfg.linux && v == AsWritten ==>
      (|r.value| <= 600 <==> |WorkerCuts(cfg, detected, keyframes, totalFrames).value| <= 1200)
    ensures r.Ok? && cfg.minSplits && cfg.linux ==> StrictlyAscending(r.value) && |r.value| <= (if cfg.workers > 0 then cfg.workers else 0)
  {
    var w := WorkerCuts(cfg, detected, keyframes, totalFrames);
    if w.Err? then w else
    Ok(if cfg.linux then w.value else Halve(v, w.value))
  }

  /** The two readings plan the same cuts exactly on Linux, after a failure,
      or when the worker step leaves at most 1200 cuts. */
  lemma PlannedCutsReadingsAgree(cfg: PlanConfig, detected: seq<nat>, keyframes: seq<nat>, totalFrames: int)
    ensures var w := WorkerCuts(cfg, detected, keyframes, totalFrames);
      (PlannedCuts(AsWritten, cfg, detected, keyframes, totalFrames) == PlannedCuts(Intended, cfg, detected, keyframes, totalFrames))
        == (cfg.linux || w.Err? || |w.value| <= 1200)
  {
    var w := WorkerCuts(cfg, detected, keyframes, totalFrames);
    if w.Ok? {
      HalveReadingsAgree(w.value);
    }
  }

  /** `scene_detect`'s return value for the planned cuts. */
  function PlanCuts(v: Reading, cfg: PlanConfig, detected: seq<nat>, keyframes: seq<nat>, totalFrames: int): (r: Result<CutArg>)
    ensures r.Err? <==> PlannedCuts(v, cfg, detected, keyframes, totalFrames).Err?
    ensures r.Ok? ==> r.value == EncodeCuts(PlannedCuts(v, cfg, detected, keyframes, totalFrames).value)
  {
    var p := PlannedCuts(v, cfg, detected, keyframes, totalFrames);
    if p.Err? then Err(p.error) else Ok(EncodeCuts(p.value))
  }

  /** Every planned cut is a detector cut (or the leading frame 0 of the aomenc
      scan), and lies on a keyframe unless the unsafe override is set. */
  lemma PlannedCutsAreCandidates(v: Reading, cfg: PlanConfig, detected: seq<nat>, keyframes: seq<nat>, totalFrames: int)
    requires PlannedCuts(v, cfg, detected, keyframes, totalFrames).Ok?
    ensures forall x :: x in PlannedCuts(v, cfg, detected, keyframes, totalFrames).value ==>
      (x == 0 && cfg.betterSplit) || (x in detected && (cfg.unsafeSplit || x in keyframes))
  {
    var c := Candidates(cfg.betterSplit, detected, keyframes, cfg.unsafeSplit);
    var p := Prune(c, totalFrames, cfg.minSplitDist).value;
    SubseqMembers(p, c);
    var w := if cfg.minSplits then ReduceToWorkers(p, totalFrames, cfg.workers).value else p;
    assert forall x :: x in w ==> x in p;
    var h := if cfg.linux then w else Halve(v, w);
    SubseqRefl(w);
    SubseqMembers(h, w);
    assert h == PlannedCuts(v, cfg, detected, keyframes, totalFrames).value;
    forall x | x in h
      ensures (x == 0 && cfg.betterSplit) || (x in detected && (cfg.unsafeSplit || x in keyframes))
    {
      assert x in c;
      if !(cfg.betterSplit && x == 0) {
        assert x in KeyframeFilter(detected, keyframes, cfg.unsafeSplit);
      }
    }
  }

  /** Without the worker reduction, on Linux, neighbouring planned cuts are
      at least the minimum split distance apart. */
  lemma PlannedCutsSpaced(v: Reading, cfg: PlanConfig, detected: seq<nat>, keyframes: seq<nat>, totalFrames: int)
    requires cfg.minSplitDist > 0 && !cfg.minSplits && cfg.linux
    requires PlannedCuts(v, cfg, detected, keyframes, totalFrames).Ok?
    ensures var r := PlannedCuts(v, cfg, detected, keyframes, totalFrames).value;
      forall k :: 0 <= k < |r| - 1 ==> r[k + 1] - r[k] >= cfg.minSplitDist
  {
  }

  /** Everything that can fail before the cuts are post-processed. */
  datatype DetectorOutput = DetectorOutput(
    totalFrames: Result<nat>,      // the frame-count probe
    keyframes: Result<seq<nat>>,   // the source's keyframe list
    detected: Result<seq<nat>>)    // the scene detector's cut list

  /**
   `scene_detect` (qencoder/pav1n.py:131-238).  `scenes` is the configured
   scenes setting and `saved` the text of that file when it exists.  The
   setting `'0'` skips detection and returns the empty string; the frame
   probe runs first, so a saved scenes file is only read when it succeeds.
   */
  function SceneDetect(v: Reading, scenes: Option<string>, saved: Option<string>, out: DetectorOutput, cfg: PlanConfig): (r: Result<CutArg>)
    ensures scenes == Some("0") ==> r == Ok(CutString(""))
    ensures r.Err? ==> r.error == Fatal("Not able to split video")
    ensures scenes != Some("0") && out.totalFrames.Err? ==> r.Err?
    ensures scenes != Some("0") && out.totalFrames.Ok? && scenes.Some? && scenes.value != "" && saved.Some?
      ==> r == Ok(CutString(saved.value))
    ensures r.Ok? && r.value.CutList? ==> r.value == CutList(["0"])
  {
    if scenes == Some("0") then Ok(CutString(""))
    else if out.totalFrames.Err? then Err(Fatal("Not able to split video"))
    else if scenes.Some? && scenes.value != "" && saved.Some? then Ok(CutString(saved.value))
    else if out.keyframes.Err? || out.detected.Err? then Err(Fatal("Not able to split video"))
    else
      var r := PlanCuts(v, cfg, out.detected.value, out.keyframes.value, out.totalFrames.value);
      assert r.Ok? ==> r.value == EncodeCuts(PlannedCuts(v, cfg, out.detected.value, out.keyframes.value, out.totalFrames.value).value);
      r
  }

  /** What `split` runs: a stream copy of the whole file, or ffmpeg's segment
      muxer at the given frame numbers (qencoder/pav1n.py:240-249). */
  datatype SplitCmd = CopyWhole | Segment(frames: string)

  /** The `{frames}` rendering of the value inside the f-string. */
  function Render(a: CutArg): string {
    match a
    case CutString(t) => t
    case CutList(items) => "[" + Join(", ", QuotedItems(items)) + "]"
  }

  function QuotedItems(items: seq<string>): seq<string> {
    if |items| == 0 then [] else ["'" + items[0] + "'"] + QuotedItems(items[1..])
  }

  /** `split` as written: `len(frames) == 1` picks the whole-file copy. */
  function SplitAsWritten(a: CutArg): (r: SplitCmd)
    ensures r == CopyWhole <==> PyLen(a) == 1
  {
    if PyLen(a) == 1 then CopyWhole else Segment(Render(a))
  }

  /** The length test cannot tell the `['0']` sentinel from a joined string of
      one character: two cuts [0, 5] plan two chunks, yet split copies the
      whole file. */
  lemma SplitAsWrittenCopiesSingleDigitCut()
    ensures EncodeCuts([0, 5]) == CutString("5")
    ensures SplitAsWritten(EncodeCuts([0, 5])) == CopyWhole
  {
    assert [0, 5][1..] == [5];
    assert NatStrings([5]) == ["5"];
  }

  /** The evident intent: copy the whole file exactly for the sentinel. */
  function Split(a: CutArg): (r: SplitCmd)
    ensures r == CopyWhole <==> a.CutList?
  {
    match a
    case CutList(_) => CopyWhole
    case CutString(t) => Segment(t)
  }

  /** With the corrected test, the whole file is copied exactly when at most
      one cut survived planning, and otherwise segmented at the joined cuts. */
  lemma SplitOfEncodeCuts(scenes: seq<nat>)
    ensures Split(EncodeCuts(scenes)) == CopyWhole <==> |scenes| <= 1
    ensures |scenes| >= 2 ==> Split(EncodeCuts(scenes)) == Segment(Join(",", NatStrings(scenes[1..])))
  {
  }

  /**
   The splitting half of `setup_routine` (qencoder/pav1n.py:523-544): a resumed
   run with a `done.txt` in the temporary directory skips it; an empty value
   from `scene_detect` aborts the encode with a RuntimeError; otherwise the
   source is split, by `split` as written or as intended.
   */
  function SetupSplit(v: Reading, resumeWithDoneFile: bool, framenums: Result<CutArg>): (r: Result<Option<SplitCmd>>)
    ensures resumeWithDoneFile ==> r == Ok(None)
    ensures !resumeWithDoneFile && framenums.Err? ==> r == Err(framenums.error)
    ensures !resumeWithDoneFile && framenums.Ok? ==> (r.Ok? <==> PyLen(framenums.value) > 0)
    ensures r.Ok? && r.value.Some? ==>
      (r.value.value == CopyWhole <==> if v == AsWritten then PyLen(framenums.value) == 1 else framenums.value.CutList?)
    ensures r.Ok? && r.value.Some? && framenums.value.CutString? ==> r.value.value in {CopyWhole, Segment(framenums.value.text)}
  {
    if resumeWithDoneFile then Ok(None)
    else if framenums.Err? then Err(framenums.error)
    else if PyLen(framenums.value) == 0 then Err(Fatal("Unable to encode video because splitting failed"))
    else Ok(Some(if v == AsWritten then SplitAsWritten(framenums.value) else Split(framenums.value)))
  }

  /** Choosing to skip scene detection makes a fresh run abort before the
      split, since the skip returns an empty value. */
  lemma SkippedDetectionAbortsSetup(v: Reading, saved: Option<string>, out: DetectorOutput, cfg: PlanConfig)
    ensures SetupSplit(v, false, SceneDetect(v, Some("0"), saved, out, cfg)).Err?
  {
  }

  /** Planned cuts always reach the split.  As intended, the whole file is
      copied for at most one cut and segmented otherwise; as written, two cuts
      whose second is a single digit are copied whole as well. */
  lemma PlannedCutsReachSplit(v: Reading, cfg: PlanConfig, detected: seq<nat>, keyframes: seq<nat>, totalFrames: nat)
    requires PlannedCuts(v, cfg, detected, keyframes, totalFrames).Ok?
    ensures var planned := PlannedCuts(v, cfg, detected, keyframes, totalFrames).value;
      var out := DetectorOutput(Ok(totalFrames), Ok(keyframes), Ok(detected));
      SetupSplit(v, false, SceneDetect(v, None, None, out, cfg))
        == Ok(Some(if |planned| <= 1 || (v == AsWritten && |planned| == 2 && planned[1] < 10) then CopyWhole
                   else Segment(Join(",", NatStrings(planned[1..])))))
  {
    var planned := PlannedCuts(v, cfg, detected, keyframes, totalFrames).value;
    var out := DetectorOutput(Ok(totalFrames), Ok(keyframes), Ok(detected));
    assert SceneDetect(v, None, None, out, cfg) == Ok(EncodeCuts(planned));
    if |planned| > 1 {
      var ns := NatStrings(planned[1..]);
      var t := Join(",", ns);
      assert EncodeCuts(planned) == CutString(t);
      if |planned| == 2 {
        assert t == NatToString(planned[1]);
      } else {
        assert t == ns[0] + "," + Join(",", ns[1..]);
        assert |t| >= 2;
      }
    }
  }

  // ---------------------------------------------------------------------------
  // Segment lengths: what cutting at the planned frames produces

  /** Frame counts of the chunks obtained by cutting `[0, total)` at the
      strictly ascending frames `cuts` (all inside the video). */
  function SegmentLengths(from: nat, cuts: seq<nat>, total: nat): (r: seq<int>)
    ensures |r| == |cuts| + 1
    decreases |cuts|
  {
    if |cuts| == 0 then [total - from] else [cuts[0] - from] + SegmentLengths(cuts[0], cuts[1..], total)
  }

  /** The chunks tile the video: their frame counts add up to the total, and
      none is empty. */
  lemma {:induction false} SegmentLengthsSum(from: nat, cuts: seq<nat>, total: nat)
    requires StrictlyAscending(cuts)
    requires |cuts| > 0 ==> from < cuts[0] && cuts[|cuts| - 1] < total
    requires |cuts| == 0 ==> from <= total
    ensures Sum(SegmentLengths(from, cuts, total)) == total - from
    ensures forall k :: 0 <= k < |cuts| ==> SegmentLengths(from, cuts, total)[k] > 0
    decreases |cuts|
  {
    if |cuts| > 0 {
      SegmentLengthsSum(cuts[0], cuts[1..], total);
    }
  }

  /** The worked example: a 1000-frame source whose detector reports scene
      starts 0, 250 and 600, all on keyframes, is cut at "250,600" into chunks
      of 250, 350 and 400 frames. */
  lemma WorkedExample()
    ensures PlanCuts(AsWritten, PlanConfig(false, false, 60, false, 1, true), [0, 250, 600], [0, 100, 250, 500, 600, 900], 1000)
         == Ok(CutString("250,600"))
    ensures SegmentLengths(0, [250, 600], 1000) == [250, 350, 400]
    ensures Sum(SegmentLengths(0, [250, 600], 1000)) == 1000
  {
    var cfg := PlanConfig(false, false, 60, false, 1, true);
    var c: seq<nat> := [0, 250, 600];
    WorkedExamplePlanned();
    WorkedExampleEncode();
    WorkedExampleSegments();
  }

  lemma WorkedExamplePlanned()
    ensures PlannedCuts(AsWritten, PlanConfig(false, false, 60, false, 1, true), [0, 250, 600], [0, 100, 250, 500, 600, 900], 1000)
         == Ok([0, 250, 600])
  {
    WorkedExampleFilter();
    WorkedExamplePrune();
  }

  lemma WorkedExampleSegments()
    ensures SegmentLengths(0, [250, 600], 1000) == [250, 350, 400]
    ensures Sum(SegmentLengths(0, [250, 600], 1000)) == 1000
  {
    assert [250, 600][1..] == [600];
    assert SegmentLengths(600, [], 1000) == [400];
    assert SegmentLengths(250, [600], 1000) == [350, 400];
  }

  lemma WorkedExampleFilter()
    ensures Candidates(false, [0, 250, 600], [0, 100, 250, 500, 600, 900], false) == [0, 250, 600]
  {
    var kf: seq<nat> := [0, 100, 250, 500, 600, 900];
    var c: seq<nat> := [0, 250, 600];
    assert c[1..] == [250, 600];
    assert c[1..][1..] == [600];
    assert KeyframeFilter([], kf, false) == [];
    assert KeyframeFilter([600], kf, false) == [600];
    assert KeyframeFilter([250, 600], kf, false) == [250, 600];
  }

  lemma WorkedExamplePrune()
    ensures Prune([0, 250, 600], 1000, 60) == Ok([0, 250, 600])
  {
    assert GreedyKeep(600, [], 60) == [];
    assert GreedyKeep(250, [600], 60) == [600];
    assert GreedyKeep(0, [250, 600], 60) == [250, 600];
    var c: seq<nat> := [0, 250, 600];
    assert c[1..] == [250, 600];
    assert GreedyPrune(c, 60) == c;
    assert DropShortTail(c, 1000, 60) == Ok(c);
  }

  lemma WorkedExampleEncode()
    ensures EncodeCuts([0, 250, 600]) == CutString("250,600")
  {
    assert NatToString(2) == "2";
    assert NatToString(25) == "25";
    assert NatToString(250) == "250";
    assert NatToString(6) == "6";
    assert NatToString(60) == "60";
    assert NatToString(600) == "600";
    assert [0, 250, 600][1..] == [250, 600];
    assert NatStrings([250, 600]) == ["250", "600"];
  }

  // ---------------------------------------------------------------------------
  // The timecode variant of the older pipeline (pav1n.py:103-172)

  /** Scene-start timecodes, halved off Linux by the same defective
      `reduce_scenes` (pav1n.py:96-101) or as intended, joined
      without the first. */
  function LegacyPlan(v: Reading, timecodes: seq<string>, linux: bool): (r: string)
    ensures linux || |timecodes| <= 600 ==> r == if |timecodes| == 0 then "" else Join(",", timecodes[1..])
  {
    var s := if linux then timecodes else Halve(v, timecodes);
    if |s| == 0 then "" else Join(",", s[1..])
  }

  lemma JoinEmpty(items: seq<string>)
    requires forall k :: 0 <= k < |items| ==> |items[k]| > 0
    ensures Join(",", items) == "" <==> |items| == 0
  {
    if |items| > 1 {
      assert |Join(",", items)| >= |items[0]|;
    }
  }

  /** The older `split`: an empty timecode string means one whole-file copy. */
  function LegacySplit(timecodes: string): (r: SplitCmd)
    ensures r == CopyWhole <==> |timecodes| == 0
  {
    if |timecodes| == 0 then CopyWhole else Segment(timecodes)
  }

  /** With non-empty timecodes, the older pipeline copies the whole file
      exactly when at most one scene remains. */
  lemma LegacySplitCopiesIffOneScene(v: Reading, timecodes: seq<string>, linux: bool)
    requires forall k :: 0 <= k < |timecodes| ==> |timecodes[k]| > 0
    ensures var s := if linux then timecodes else Halve(v, timecodes);
      LegacySplit(LegacyPlan(v, timecodes, linux)) == CopyWhole <==> |s| <= 1
  {
    var s := if linux then timecodes else Halve(v, timecodes);
    if !linux {
      SubseqMembers(s, timecodes);
    }
    assert forall k :: 0 <= k < |s| ==> |s[k]| > 0 by {
      forall k | 0 <= k < |s| ensures |s[k]| > 0 {
        assert s[k] in timecodes;
      }
    }
    if |s| > 0 {
      JoinEmpty(s[1..]);
    }
  }
}
