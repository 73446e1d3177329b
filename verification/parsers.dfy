/**
 The text parsers: the frame count in ffmpeg's output (current and legacy
 readings), the live frame total in an encoder's progress lines, and the
 keyframe numbers in ffmpeg's debug log.

 Each regular expression is modelled by a matcher at one position that
 follows the engine's greedy, backtracking reading of that pattern;
 `re.findall` and `re.search` are the scans that call it. What a parser
 reads back is stated for a field placed anywhere in a text: `Placed(s, i,
 w)` says that `w` sits in `s` at `i`.
 */
module Parsers {
  import opened Common

  // ---------------------------------------------------------------------------
  // Character runs: what a greedy `[0-9]*` or `\s*` consumes

  datatype Class = Digits | Spaces

  predicate In(k: Class, c: char) {
    match k
    case Digits => IsDigit(c)
    case Spaces => IsSpace(c)
  }

  /** The end of the longest run of class `k` starting at `i`. */
  function Run(k: Class, s: string, i: nat): (e: nat)
    requires i <= |s|
    ensures i <= e <= |s|
    decreases |s| - i
  {
    if i == |s| || !In(k, s[i]) then i else Run(k, s, i + 1)
  }

  /** Every character of the run is in the class, and the one after it is
      not. */
  lemma {:induction false} RunSpan(k: Class, s: string, i: nat)
    requires i <= |s|
    ensures forall j :: i <= j < Run(k, s, i) ==> In(k, s[j])
    ensures Run(k, s, i) < |s| ==> !In(k, s[Run(k, s, i)])
    decreases |s| - i
  {
    if i < |s| && In(k, s[i]) {
      RunSpan(k, s, i + 1);
    }
  }

  /** A run is determined by where it stops. */
  lemma {:induction false} RunIs(k: Class, s: string, i: nat, e: nat)
    requires i <= e <= |s|
    requires forall j :: i <= j < e ==> In(k, s[j])
    requires e < |s| ==> !In(k, s[e])
    ensures Run(k, s, i) == e
    decreases e - i
  {
    if i < e {
      RunIs(k, s, i + 1, e);
    }
  }

  /** The number the digits in `s[i..j]` spell, read in place. */
  function Numeral(s: string, i: nat, j: nat): nat
    requires i <= j <= |s|
    decreases j - i
  {
    if j == i then 0
    else Numeral(s, i, j - 1) * 10 + (if IsDigit(s[j - 1]) then DigitValue(s[j - 1]) else 0)
  }

  lemma {:induction false} NumeralIsDigitsValue(s: string, i: nat, j: nat)
    requires i <= j <= |s|
    requires forall m :: i <= m < j ==> In(Digits, s[m])
    ensures AllDigits(s[i..j]) && Numeral(s, i, j) == DigitsValue(s[i..j])
    decreases j - i
  {
    forall m | 0 <= m < j - i
      ensures IsDigit(s[i..j][m])
    {
      assert s[i..j][m] == s[i + m];
      assert In(Digits, s[i + m]);
    }
    if j > i {
      NumeralIsDigitsValue(s, i, j - 1);
      assert s[i..j][..j - 1 - i] == s[i..j - 1];
      assert In(Digits, s[j - 1]);
    }
  }

  // ---------------------------------------------------------------------------
  // Text placed in a larger text

  predicate Placed(s: string, i: nat, w: string) {
    i + |w| <= |s| && s[i..i + |w|] == w
  }

  lemma PlacedChar(s: string, i: nat, w: string, m: nat)
    requires Placed(s, i, w) && m < |w|
    ensures s[i + m] == w[m]
  {
    assert s[i + m] == s[i..i + |w|][m];
  }

  /** A part of a placed text is placed too. */
  lemma PlacedPart(s: string, i: nat, w: string, lo: nat, hi: nat)
    requires Placed(s, i, w) && lo <= hi <= |w|
    ensures Placed(s, i + lo, w[lo..hi])
  {
    forall m | 0 <= m < hi - lo
      ensures s[i + lo..i + hi][m] == w[lo..hi][m]
    {
      PlacedChar(s, i, w, lo + m);
    }
  }

  /** Both halves of a placed concatenation are placed; the second one at
      `j`. */
  lemma PlacedConcat(s: string, i: nat, a: string, b: string, j: nat)
    requires Placed(s, i, a + b) && j == i + |a|
    ensures Placed(s, i, a) && Placed(s, j, b)
  {
    PlacedPart(s, i, a + b, 0, |a|);
    PlacedPart(s, i, a + b, |a|, |a + b|);
    assert (a + b)[0..|a|] == a;
    assert (a + b)[|a|..|a + b|] == b;
  }

  /** A printed number ending at `j` reads back in place. */
  lemma NumeralOfPrinted(s: string, i: nat, n: nat, j: nat)
    requires Placed(s, i, NatToString(n)) && j == i + |NatToString(n)|
    ensures Numeral(s, i, j) == n
  {
    var t := NatToString(n);
    forall m | i <= m < j
      ensures In(Digits, s[m])
    {
      PlacedChar(s, i, t, m - i);
    }
    NumeralIsDigitsValue(s, i, j);
    DigitsValueOfNatToString(n);
  }

  /** A printed number followed by a non-digit is a whole run of digits. */
  lemma DigitRunOf(s: string, i: nat, n: nat, j: nat)
    requires Placed(s, i, NatToString(n)) && j == i + |NatToString(n)|
    requires j == |s| || !IsDigit(s[j])
    ensures Run(Digits, s, i) == j
  {
    var t := NatToString(n);
    forall m | i <= m < j
      ensures In(Digits, s[m])
    {
      PlacedChar(s, i, t, m - i);
    }
    RunIs(Digits, s, i, j);
  }

  /** A printed number followed by a non-digit is a whole run of digits
      that reads back as the number. */
  lemma NumberRunOf(s: string, i: nat, n: nat, j: nat)
    requires Placed(s, i, NatToString(n)) && j == i + |NatToString(n)|
    requires j == |s| || !IsDigit(s[j])
    ensures Run(Digits, s, i) == j && Numeral(s, i, j) == n
  {
    DigitRunOf(s, i, n, j);
    NumeralOfPrinted(s, i, n, j);
  }

  /** Placed whitespace followed by a digit is a whole run of it. */
  lemma SpaceRunOf(s: string, i: nat, pad: string, j: nat)
    requires Placed(s, i, pad) && forall k :: 0 <= k < |pad| ==> IsSpace(pad[k])
    requires j == i + |pad| && j < |s| && IsDigit(s[j])
    ensures Run(Spaces, s, i) == j
  {
    forall m | i <= m < j
      ensures In(Spaces, s[m])
    {
      PlacedChar(s, i, pad, m - i);
    }
    RunIs(Spaces, s, i, j);
  }

  /** A placed number starts with a digit. */
  lemma PlacedNumber(s: string, i: nat, n: nat)
    requires Placed(s, i, NatToString(n))
    ensures i < |s| && IsDigit(s[i])
  {
    PlacedChar(s, i, NatToString(n), 0);
  }

  /** A placed character. */
  lemma PlacedOne(s: string, i: nat, c: char)
    requires Placed(s, i, [c])
    ensures i < |s| && s[i] == c
  {
    PlacedChar(s, i, [c], 0);
  }

  /** An occurrence starts with the pattern's characters. */
  lemma OccursChar(s: string, pat: string, j: nat, k: nat)
    requires OccursAt(s, pat, j) && k < |pat|
    ensures s[j + k] == pat[k]
  {
    assert s[j + k] == s[j..j + |pat|][k];
  }

  lemma NotOccurs(s: string, pat: string, j: nat)
    requires |pat| > 0 && j < |s| && s[j] != pat[0]
    ensures !OccursAt(s, pat, j)
  {
    if j + |pat| <= |s| {
      assert s[j..j + |pat|][0] == s[j];
    }
  }

  lemma DiffersAt(s: string, pat: string, j: nat, k: nat)
    requires k < |pat| && j + k < |s| && s[j + k] != pat[k]
    ensures !OccursAt(s, pat, j)
  {
    if j + |pat| <= |s| {
      assert s[j..j + |pat|][k] == s[j + k];
    }
  }

  /** No occurrence starts where the pattern's first character is absent. */
  lemma NoOccurrenceIn(s: string, pat: string, lo: nat, hi: nat)
    requires |pat| > 0 && hi <= |s|
    requires forall j :: lo <= j < hi ==> s[j] != pat[0]
    ensures forall j: nat :: lo <= j < hi ==> !OccursAt(s, pat, j)
  {
    forall j: nat | lo <= j < hi
      ensures !OccursAt(s, pat, j)
    {
      NotOccurs(s, pat, j);
    }
  }

  /** A tail that lacks the pattern holds no occurrence of it. */
  lemma NoOccurrenceBeyond(s: string, c: nat, pat: string)
    requires c <= |s| && !Contains(s[c..], pat)
    ensures forall j: nat :: c <= j ==> !OccursAt(s, pat, j)
  {
    forall j: nat | c <= j && OccursAt(s, pat, j)
      ensures false
    {
      assert s[c..][j - c..j - c + |pat|] == s[j..j + |pat|];
      assert OccursAt(s[c..], pat, j - c);
    }
  }

  /** A head that lacks the pattern holds no occurrence of it. */
  lemma NoOccurrenceBefore(s: string, c: nat, pat: string)
    requires c <= |s| && !Contains(s[..c], pat)
    ensures forall j: nat :: j + |pat| <= c ==> !OccursAt(s, pat, j)
  {
    forall j: nat | j + |pat| <= c && OccursAt(s, pat, j)
      ensures false
    {
      assert s[..c][j..j + |pat|] == s[j..j + |pat|];
      assert OccursAt(s[..c], pat, j);
    }
  }

  // ---------------------------------------------------------------------------
  // Scanning with a matcher: `re.findall` and the match that starts last

  /** A match: the number its group reads and where the match ends. */
  datatype Hit = Hit(value: nat, end: nat)

  /** The match of one pattern starting exactly at a position, if any. */
  type Matcher = (string, nat) -> Option<Hit>

  /** What the scans rely on: a match ends inside `s` after its start, and
      no match of the same pattern starts inside it. */
  predicate Tidy(m: Matcher, s: string) {
    forall i: nat :: i < |s| && m(s, i).Some? ==>
      i < m(s, i).value.end <= |s| && forall j: nat :: i < j < m(s, i).value.end ==> m(s, j).None?
  }

  /** `re.findall` from position `i` (each pattern has one group): scan left
      to right, resuming after each match. */
  function FindAll(m: Matcher, s: string, i: nat): seq<nat>
    requires Tidy(m, s) && i <= |s|
    decreases |s| - i
  {
    if i == |s| then []
    else
      match m(s, i)
      case Some(h) => [h.value] + FindAll(m, s, h.end)
      case None => FindAll(m, s, i + 1)
  }

  /** The last position below `k` at which `m` matches. */
  function LastHitBelow(m: Matcher, s: string, k: nat): (r: Option<nat>)
    requires k <= |s|
    ensures r.Some? ==> r.value < k && m(s, r.value).Some?
    ensures r.None? ==> forall j: nat :: j < k ==> m(s, j).None?
    ensures r.Some? ==> forall j: nat :: r.value < j < k ==> m(s, j).None?
  {
    if k == 0 then None
    else if m(s, k - 1).Some? then Some(k - 1)
    else LastHitBelow(m, s, k - 1)
  }

  function LastHit(m: Matcher, s: string): Option<nat> {
    LastHitBelow(m, s, |s|)
  }

  /** The last item `findall` returns is the group of the match that starts
      last, and `findall` returns nothing exactly when nothing matches. */
  lemma {:induction false} FindAllLast(m: Matcher, s: string, i: nat)
    requires Tidy(m, s) && i <= |s|
    ensures var ms := FindAll(m, s, i); var l := LastHit(m, s);
      (|ms| == 0 <==> l.None? || l.value < i)
      && (|ms| > 0 ==> l.Some? && ms[|ms| - 1] == m(s, l.value).value.value)
    decreases |s| - i
  {
    var l := LastHit(m, s);
    if i < |s| {
      var h := m(s, i);
      if h.Some? {
        FindAllLast(m, s, h.value.end);
        var rest := FindAll(m, s, h.value.end);
        assert FindAll(m, s, i) == [h.value.value] + rest;
      } else {
        FindAllLast(m, s, i + 1);
      }
    }
  }

  lemma LastHitIs(m: Matcher, s: string, i: nat)
    requires i < |s| && m(s, i).Some?
    requires forall j: nat :: i < j < |s| ==> m(s, j).None?
    ensures LastHit(m, s) == Some(i)
  {
  }

  /** A match wins when nothing matches after it ends. */
  lemma LastMatchWins(m: Matcher, s: string, i: nat, v: nat, end: nat)
    requires Tidy(m, s) && i < |s| && m(s, i) == Some(Hit(v, end))
    requires forall j: nat :: end <= j < |s| ==> m(s, j).None?
    ensures var ms := FindAll(m, s, 0); |ms| > 0 && ms[|ms| - 1] == v
  {
    LastHitIs(m, s, i);
    FindAllLast(m, s, 0);
  }

  // ---------------------------------------------------------------------------
  // `frame=\s*([0-9]+)\s`: the field of ffmpeg's status line

  /** The match at `i`. Greedy runs give nothing back here: a run of spaces
      is never followed by a digit that backtracking would uncover, nor a
      run of digits by another digit. */
  function FrameEqualsAt(s: string, i: nat): Option<Hit> {
    if i > |s| || !OccursAt(s, "frame=", i) then None else CountThenSpace(s, i + 6)
  }

  /** `\s*([0-9]+)\s` from `y`. */
  function CountThenSpace(s: string, y: nat): (h: Option<Hit>)
    requires y <= |s|
    ensures h.Some? ==> y < h.value.end <= |s|
  {
    var x := Run(Spaces, s, y);
    var e := Run(Digits, s, x);
    if x < e < |s| && IsSpace(s[e]) then Some(Hit(Numeral(s, x, e), e + 1))
    else None
  }

  /** Past its `f` a match holds `rame=`, whitespace and digits only. */
  lemma FrameEqualsTidy(s: string)
    ensures Tidy(FrameEqualsAt, s)
  {
    forall i: nat, j: nat | i < j < |s| && FrameEqualsAt(s, i).Some? && j < FrameEqualsAt(s, i).value.end
      ensures FrameEqualsAt(s, j).None?
    {
      if j < i + 6 {
        OccursChar(s, "frame=", i, j - i);
      } else {
        CountThenSpaceNoF(s, i + 6, j);
      }
      NotOccurs(s, "frame=", j);
    }
  }

  lemma CountThenSpaceNoF(s: string, y: nat, j: nat)
    requires y <= j < |s| && CountThenSpace(s, y).Some? && j < CountThenSpace(s, y).value.end
    ensures s[j] != 'f'
  {
    RunSpan(Spaces, s, y);
    RunSpan(Digits, s, Run(Spaces, s, y));
  }

  /** The match at `i` read off the runs it consists of. */
  lemma FrameEqualsOfRuns(s: string, i: nat, x: nat, e: nat, n: nat)
    requires OccursAt(s, "frame=", i) && Run(Spaces, s, i + 6) == x && Run(Digits, s, x) == e
    requires x < e < |s| && IsSpace(s[e]) && Numeral(s, x, e) == n
    ensures FrameEqualsAt(s, i) == Some(Hit(n, e + 1))
  {
  }

  /** ffmpeg's field `frame=  240 `. */
  function FrameField(pad: string, n: nat): string {
    "frame=" + pad + NatToString(n) + " "
  }

  /** The field reads as its number wherever it is placed. */
  lemma FrameEqualsReads(s: string, i: nat, pad: string, n: nat)
    requires forall k :: 0 <= k < |pad| ==> IsSpace(pad[k])
    requires Placed(s, i, FrameField(pad, n))
    ensures FrameEqualsAt(s, i) == Some(Hit(n, i + |FrameField(pad, n)|))
  {
    var num := NatToString(n);
    var x := i + 6 + |pad|;
    var e := x + |num|;
    PlacedConcat(s, i, "frame=" + pad + num, " ", e);
    PlacedConcat(s, i, "frame=" + pad, num, x);
    PlacedConcat(s, i, "frame=", pad, i + 6);
    FrameEqualsOfParts(s, i, x, e, pad, n);
  }

  /** The same, from the places of the field's parts. */
  lemma FrameEqualsOfParts(s: string, i: nat, x: nat, e: nat, pad: string, n: nat)
    requires forall k :: 0 <= k < |pad| ==> IsSpace(pad[k])
    requires x == i + 6 + |pad| && e == x + |NatToString(n)|
    requires Placed(s, i, "frame=") && Placed(s, i + 6, pad)
    requires Placed(s, x, NatToString(n)) && Placed(s, e, " ")
    ensures FrameEqualsAt(s, i) == Some(Hit(n, e + 1))
  {
    PlacedNumber(s, x, n);
    PlacedOne(s, e, ' ');
    SpaceRunOf(s, i + 6, pad, x);
    NumberRunOf(s, x, n, e);
    FrameEqualsOfRuns(s, i, x, e, n);
  }

  // ---------------------------------------------------------------------------
  // frame_probe (qencoder/ffmpeg.py)

  /** `frame_probe`: the count in the last `frame=` field of ffmpeg's stderr
      followed by its stdout; with no such field `matches[-1]` raises
      IndexError. */
  function FrameProbe(stderr: string, stdout: string): (r: Result<int>)
    ensures r.Err? ==> r.error == IndexError
    ensures r.Ok? ==> r.value >= 0
    ensures var s := stderr + stdout; var l := LastHit(FrameEqualsAt, s);
      r == if l.None? then Err(IndexError) else Ok(FrameEqualsAt(s, l.value).value.value)
  {
    var s := stderr + stdout;
    FrameEqualsTidy(s);
    FindAllLast(FrameEqualsAt, s, 0);
    var ms := FindAll(FrameEqualsAt, s, 0);
    if |ms| == 0 then Err(IndexError) else Ok(ms[|ms| - 1])
  }

  /** The field ffmpeg prints last (`frame=  240 fps=…`) reads back as its
      number, whatever came before it. */
  lemma FrameProbeReadsLastField(stderr: string, stdout: string, i: nat, pad: string, n: nat)
    requires forall k :: 0 <= k < |pad| ==> IsSpace(pad[k])
    requires Placed(stderr + stdout, i, FrameField(pad, n))
    requires forall j: nat :: i + |FrameField(pad, n)| <= j < |stderr + stdout| ==> FrameEqualsAt(stderr + stdout, j).None?
    ensures FrameProbe(stderr, stdout) == Ok(n)
  {
    var s := stderr + stdout;
    FrameEqualsReads(s, i, pad, n);
    FrameEqualsTidy(s);
    LastMatchWins(FrameEqualsAt, s, i, n, i + |FrameField(pad, n)|);
  }

  // ---------------------------------------------------------------------------
  // frame_probe (pav1n.py): the text between the last `frame=` and the last
  // `fps=`

  function LegacyFrameProbe(output: string): (r: Result<int>)
    ensures r.Err? ==> r.error == ValueError
  {
    PyInt(PySlice(output, RFind(output, "frame=") + 6, RFind(output, "fps=")))
  }

  /** The last occurrence is the one with nothing after it. */
  lemma RFindIs(s: string, pat: string, r: nat)
    requires |pat| > 0 && OccursAt(s, pat, r)
    requires forall j: nat :: r < j < |s| ==> !OccursAt(s, pat, j)
    ensures RFind(s, pat) == r
  {
    assert Contains(s, pat);
  }

  /** ffmpeg's status fields `frame=  240 fps=`. */
  function StatusField(pad: string, num: string): string {
    "frame=" + pad + num + " fps="
  }

  lemma StatusFieldLayout(pad: string, num: string)
    ensures var b := StatusField(pad, num); var f := 7 + |pad| + |num|;
      && |b| == f + 4
      && b[..6] == "frame="
      && (forall m :: 6 <= m < 6 + |pad| ==> b[m] == pad[m - 6])
      && (forall m :: 6 + |pad| <= m < f - 1 ==> b[m] == num[m - 6 - |pad|])
      && b[6..f] == pad + num + " "
      && b[f - 1..] == " fps="
  {
  }

  /** Within the fields, neither pattern starts anywhere but where it is
      printed. */
  lemma StatusFieldOccurrences(s: string, i: nat, pad: string, num: string)
    requires forall k :: 0 <= k < |pad| ==> IsSpace(pad[k])
    requires AllDigits(num)
    requires Placed(s, i, StatusField(pad, num))
    ensures var f := i + 7 + |pad| + |num|;
      && OccursAt(s, "frame=", i) && OccursAt(s, "fps=", f)
      && s[i + 6..f] == pad + num + " "
      && (forall j: nat :: i < j < f + 4 ==> !OccursAt(s, "frame=", j))
      && (forall j: nat :: f < j < f + 4 ==> !OccursAt(s, "fps=", j))
  {
    var b := StatusField(pad, num);
    var f := i + 7 + |pad| + |num|;
    StatusFieldLayout(pad, num);
    forall m | 0 <= m < |b|
      ensures s[i + m] == b[m]
    {
      PlacedChar(s, i, b, m);
    }
    assert s[i..i + 6] == b[..6];
    assert b[f - i..] == b[f - i - 1..][1..] == "fps=";
    assert s[f..f + 4] == b[f - i..];
    assert s[i + 6..f] == b[6..f - i];
    forall j | i < j < f + 4 && j != f
      ensures s[j] != 'f'
    {
      if j < i + 6 {
        assert s[j] == "frame="[j - i];
      } else if j < i + 6 + |pad| {
        assert s[j] == pad[j - i - 6];
      } else if j < f - 1 {
        assert s[j] == num[j - i - 6 - |pad|];
      } else {
        assert s[j] == b[j - i] == " fps="[j - f + 1];
      }
    }
    NoOccurrenceIn(s, "frame=", i + 1, f);
    NoOccurrenceIn(s, "frame=", f + 1, f + 4);
    NoOccurrenceIn(s, "fps=", f + 1, f + 4);
    assert s[f + 1] == 'p';
    DiffersAt(s, "frame=", f, 1);
  }

  /** `lstrip` removes a leading run of whitespace and nothing more. */
  lemma {:induction false} LStripSpaces(pad: string, t: string)
    requires forall k :: 0 <= k < |pad| ==> IsSpace(pad[k])
    requires |t| > 0 && !IsSpace(t[0])
    ensures LStrip(pad + t) == t
    decreases |pad|
  {
    if |pad| > 0 {
      assert (pad + t)[1..] == pad[1..] + t;
      LStripSpaces(pad[1..], t);
    } else {
      assert pad + t == t;
    }
  }

  /** `int()` of a padded numeral. */
  lemma PyIntPadded(pad: string, n: nat)
    requires forall k :: 0 <= k < |pad| ==> IsSpace(pad[k])
    ensures PyInt(pad + NatToString(n) + " ") == Ok(n)
  {
    var num := NatToString(n);
    assert pad + num + " " == pad + (num + [' ']);
    LStripSpaces(pad, num + [' ']);
    StripTrailingSpace(num, ' ');
    assert Strip(pad + num + " ") == num;
    DigitsValueOfNatToString(n);
  }

  /** ffmpeg's closing status line `frame=  240 fps=…` reads back as its
      frame number when the text after it names neither field again. */
  lemma LegacyFrameProbeReads(s: string, i: nat, pad: string, n: nat)
    requires forall k :: 0 <= k < |pad| ==> IsSpace(pad[k])
    requires Placed(s, i, StatusField(pad, NatToString(n)))
    requires var c := i + |StatusField(pad, NatToString(n))|;
      !Contains(s[c..], "frame=") && !Contains(s[c..], "fps=")
    ensures LegacyFrameProbe(s) == Ok(n)
  {
    var num := NatToString(n);
    var f := i + 7 + |pad| + |num|;
    LastStatusFields(s, i, f, pad, num);
    LegacyProbeBetween(s, i + 6, f, pad + num + " ");
    PyIntPadded(pad, n);
  }

  /** The probe reads the text between the ends it found. */
  lemma LegacyProbeBetween(s: string, a: nat, b: nat, t: string)
    requires RFind(s, "frame=") + 6 == a && RFind(s, "fps=") == b
    requires a <= b <= |s| && s[a..b] == t
    ensures LegacyFrameProbe(s) == PyInt(t)
  {
  }

  /** Where the last `frame=` and the last `fps=` of such output start. */
  lemma LastStatusFields(s: string, i: nat, f: nat, pad: string, num: string)
    requires forall k :: 0 <= k < |pad| ==> IsSpace(pad[k])
    requires AllDigits(num) && f == i + 7 + |pad| + |num|
    requires Placed(s, i, StatusField(pad, num))
    requires var c := i + |StatusField(pad, num)|;
      !Contains(s[c..], "frame=") && !Contains(s[c..], "fps=")
    ensures f <= |s| && RFind(s, "frame=") == i && RFind(s, "fps=") == f
    ensures s[i + 6..f] == pad + num + " "
  {
    var c := f + 4;
    assert c == i + |StatusField(pad, num)|;
    StatusFieldOccurrences(s, i, pad, num);
    NoOccurrenceBeyond(s, c, "frame=");
    NoOccurrenceBeyond(s, c, "fps=");
    RFindIs(s, "frame=", i);
    RFindIs(s, "fps=", f);
  }

  // ---------------------------------------------------------------------------
  // `frame\s+\d+/(\d+)`: the field of aomenc's and vpxenc's progress line

  function FrameOfAt(s: string, i: nat): Option<Hit> {
    if i > |s| || !OccursAt(s, "frame", i) then None else DoneOfTotal(s, i + 5)
  }

  /** `\s+\d+/(\d+)` from `y`. */
  function DoneOfTotal(s: string, y: nat): (h: Option<Hit>)
    requires y <= |s|
    ensures h.Some? ==> y < h.value.end <= |s|
  {
    var x := Run(Spaces, s, y);
    var e := Run(Digits, s, x);
    if x == y || e == x || e == |s| || s[e] != '/' then None
    else
      var f := Run(Digits, s, e + 1);
      if f == e + 1 then None
      else Some(Hit(Numeral(s, e + 1, f), f))
  }

  /** Past its `f` a match holds `rame`, whitespace, digits and `/` only. */
  lemma FrameOfTidy(s: string)
    ensures Tidy(FrameOfAt, s)
  {
    forall i: nat, j: nat | i < j < |s| && FrameOfAt(s, i).Some? && j < FrameOfAt(s, i).value.end
      ensures FrameOfAt(s, j).None?
    {
      if j < i + 5 {
        OccursChar(s, "frame", i, j - i);
      } else {
        DoneOfTotalNoF(s, i + 5, j);
      }
      NotOccurs(s, "frame", j);
    }
  }

  lemma DoneOfTotalNoF(s: string, y: nat, j: nat)
    requires y <= j < |s| && DoneOfTotal(s, y).Some? && j < DoneOfTotal(s, y).value.end
    ensures s[j] != 'f'
  {
    var x := Run(Spaces, s, y);
    var e := Run(Digits, s, x);
    RunSpan(Spaces, s, y);
    RunSpan(Digits, s, x);
    if e < |s| {
      RunSpan(Digits, s, e + 1);
    }
  }

  /** The match at `i` read off the runs it consists of. */
  lemma FrameOfOfRuns(s: string, i: nat, x: nat, e: nat, f: nat, total: nat)
    requires OccursAt(s, "frame", i) && i + 5 < x < e < |s| && s[e] == '/' && e + 1 < f
    requires Run(Spaces, s, i + 5) == x && Run(Digits, s, x) == e && Run(Digits, s, e + 1) == f
    requires Numeral(s, e + 1, f) == total
    ensures FrameOfAt(s, i) == Some(Hit(total, f))
  {
  }

  /** aomenc's progress field `frame   12/240`. */
  function ProgressField(pad: string, done: nat, total: nat): string {
    "frame" + pad + NatToString(done) + "/" + NatToString(total)
  }

  /** The field reads as its total wherever it is placed, given that no
      digit follows it. */
  lemma FrameOfReads(s: string, i: nat, pad: string, done: nat, total: nat)
    requires |pad| > 0 && forall k :: 0 <= k < |pad| ==> IsSpace(pad[k])
    requires Placed(s, i, ProgressField(pad, done, total))
    requires var c := i + |ProgressField(pad, done, total)|; c == |s| || !IsDigit(s[c])
    ensures FrameOfAt(s, i) == Some(Hit(total, i + |ProgressField(pad, done, total)|))
  {
    var d := NatToString(done);
    var t := NatToString(total);
    var x := i + 5 + |pad|;
    var e := x + |d|;
    var f := e + 1 + |t|;
    assert f == i + |ProgressField(pad, done, total)|;
    PlacedConcat(s, i, "frame" + pad + d + "/", t, e + 1);
    PlacedConcat(s, i, "frame" + pad + d, "/", e);
    PlacedConcat(s, i, "frame" + pad, d, x);
    PlacedConcat(s, i, "frame", pad, i + 5);
    PlacedNumber(s, x, done);
    SpaceRunOf(s, i + 5, pad, x);
    FrameOfOfParts(s, i, x, e, f, done, total);
  }

  /** The same, from the places of the field's parts. */
  lemma FrameOfOfParts(s: string, i: nat, x: nat, e: nat, f: nat, done: nat, total: nat)
    requires Placed(s, i, "frame") && i + 5 < x && Run(Spaces, s, i + 5) == x
    requires e == x + |NatToString(done)| && f == e + 1 + |NatToString(total)|
    requires Placed(s, x, NatToString(done))
    requires Placed(s, e, "/") && Placed(s, e + 1, NatToString(total))
    requires f == |s| || !IsDigit(s[f])
    ensures FrameOfAt(s, i) == Some(Hit(total, f))
  {
    PlacedOne(s, e, '/');
    DigitRunOf(s, x, done, e);
    NumberRunOf(s, e + 1, total, f);
    FrameOfOfRuns(s, i, x, e, f, total);
  }

  // ---------------------------------------------------------------------------
  // Live progress (qencoder/pav1n.py, `encode`)

  /** The total in one progress line
      (`int(re.findall("frame\\s+\\d+/(\\d+)", line)[-1])`), or None where
      the lookup raises and the line is passed over. */
  function ProgressTotal(line: string): (r: Option<nat>)
    ensures r.None? <==> LastHit(FrameOfAt, line).None?
    ensures r.Some? ==> r.value == FrameOfAt(line, LastHit(FrameOfAt, line).value).value.value
  {
    FrameOfTidy(line);
    FindAllLast(FrameOfAt, line, 0);
    var ms := FindAll(FrameOfAt, line, 0);
    if |ms| == 0 then None else Some(ms[|ms| - 1])
  }

  /** aomenc's line `… frame   12/240 …` reads back as its total when no
      field follows. */
  lemma ProgressTotalReads(line: string, i: nat, pad: string, done: nat, total: nat)
    requires |pad| > 0 && forall k :: 0 <= k < |pad| ==> IsSpace(pad[k])
    requires Placed(line, i, ProgressField(pad, done, total))
    requires var c := i + |ProgressField(pad, done, total)|; c == |line| || !IsDigit(line[c])
    requires forall j: nat :: i + |ProgressField(pad, done, total)| <= j < |line| ==> FrameOfAt(line, j).None?
    ensures ProgressTotal(line) == Some(total)
  {
    FrameOfReads(line, i, pad, done, total);
    FrameOfTidy(line);
    LastMatchWins(FrameOfAt, line, i, total, i + |ProgressField(pad, done, total)|);
  }

  /** A worker's frame counter after reading `lines` one at a time:
      `starting + total` for each line that reports, unchanged otherwise. */
  function Counter(report: string -> Option<nat>, counter: int, starting: int, lines: seq<string>): int
    decreases |lines|
  {
    if |lines| == 0 then counter
    else
      var t := report(lines[0]);
      Counter(report, if t.Some? then starting + t.value else counter, starting, lines[1..])
  }

  /** The last report, reading from the end. */
  function LastReport(report: string -> Option<nat>, lines: seq<string>): Option<nat>
    decreases |lines|
  {
    if |lines| == 0 then None
    else
      var t := report(lines[|lines| - 1]);
      if t.Some? then t else LastReport(report, lines[..|lines| - 1])
  }

  /** Reading from the end agrees with reading from the front. */
  lemma {:induction false} LastReportCons(report: string -> Option<nat>, lines: seq<string>)
    requires |lines| > 0
    ensures LastReport(report, lines)
      == if LastReport(report, lines[1..]).Some? then LastReport(report, lines[1..]) else report(lines[0])
    decreases |lines|
  {
    if |lines| > 1 {
      var init := lines[..|lines| - 1];
      assert init[1..] == lines[1..][..|lines[1..]| - 1];
      assert lines[1..][|lines[1..]| - 1] == lines[|lines| - 1];
      assert init[0] == lines[0];
      LastReportCons(report, init);
    } else {
      assert lines[..0] == [];
    }
  }

  /** The counter shows the starting count plus the last total reported, and
      stays where it was while no line reports. */
  lemma {:induction false} CounterShowsLastReport(report: string -> Option<nat>, counter: int, starting: int, lines: seq<string>)
    ensures Counter(report, counter, starting, lines)
      == match LastReport(report, lines) case None => counter case Some(t) => starting + t
    decreases |lines|
  {
    if |lines| > 0 {
      var t := report(lines[0]);
      var c := if t.Some? then starting + t.value else counter;
      CounterShowsLastReport(report, c, starting, lines[1..]);
      LastReportCons(report, lines);
    }
  }

  /** The counter for aomenc's and vpxenc's progress lines. */
  function ProgressCounter(counter: int, starting: int, lines: seq<string>): (c: int)
    ensures LastReport(ProgressTotal, lines).None? ==> c == counter
    ensures LastReport(ProgressTotal, lines).Some? ==> c == starting + LastReport(ProgressTotal, lines).value
  {
    CounterShowsLastReport(ProgressTotal, counter, starting, lines);
    Counter(ProgressTotal, counter, starting, lines)
  }

  // ---------------------------------------------------------------------------
  // get_keyframes (qencoder/ffmpeg.py): `n:([0-9]+)\.[0-9]+ pts:.+key:1`
  // searched in each stripped line of ffmpeg's debug log

  /** `bytes.strip()` strips ASCII whitespace only. */
  predicate AsciiSpace(c: char) {
    c == ' ' || '\t' <= c <= '\r'
  }

  function AsciiLStrip(s: string): (r: string)
    ensures |r| <= |s| && r == s[|s| - |r|..]
    ensures |r| > 0 ==> !AsciiSpace(r[0])
  {
    if |s| > 0 && AsciiSpace(s[0]) then AsciiLStrip(s[1..]) else s
  }

  function AsciiRStrip(s: string): (r: string)
    ensures |r| <= |s| && r == s[..|r|]
    ensures |r| > 0 ==> !AsciiSpace(r[|r| - 1])
  {
    if |s| > 0 && AsciiSpace(s[|s| - 1]) then AsciiRStrip(s[..|s| - 1]) else s
  }

  function ByteStrip(s: string): (r: string)
    ensures |r| > 0 ==> !AsciiSpace(r[0]) && !AsciiSpace(r[|r| - 1])
    ensures |s| > 0 && !AsciiSpace(s[0]) && !AsciiSpace(s[|s| - 1]) ==> r == s
  {
    AsciiRStrip(AsciiLStrip(s))
  }

  /** Stripping adds no character. */
  lemma ByteStripChars(s: string)
    ensures forall c :: c in ByteStrip(s) ==> c in s
  {
    var l := AsciiLStrip(s);
    assert forall c :: c in ByteStrip(s) ==> c in l;
  }

  /** `.+key:1` from `g`: at least one character, none a newline, then
      `key:1`. The first `key:1` past `g` decides: a newline before it
      comes before every later one too. */
  predicate KeyAfter(s: string, g: nat) {
    var k := FindFrom(s, "key:1", g + 1);
    k != -1 && '\n' !in s[g..k]
  }

  /** The keyframe number of a match starting at `i`. */
  function KeyframeAt(s: string, i: nat): (r: Option<nat>)
    ensures r.Some? ==> OccursAt(s, "n:", i)
  {
    if i > |s| || !OccursAt(s, "n:", i) then None
    else
      var e := Run(Digits, s, i + 2);
      if e == i + 2 || e == |s| || s[e] != '.' then None
      else
        var f := Run(Digits, s, e + 1);
        if f == e + 1 || !OccursAt(s, " pts:", f) || !KeyAfter(s, f + 5) then None
        else Some(Numeral(s, i + 2, e))
  }

  /** `re.search`: the leftmost match at or after `i`. */
  function FirstKeyframe(s: string, i: nat): Option<nat>
    requires i <= |s|
    decreases |s| - i
  {
    if i == |s| then None
    else if KeyframeAt(s, i).Some? then KeyframeAt(s, i)
    else FirstKeyframe(s, i + 1)
  }

  /** The search finds nothing exactly when no position matches. */
  lemma {:induction false} FirstKeyframeNone(s: string, i: nat)
    requires i <= |s|
    ensures FirstKeyframe(s, i).None? <==> forall j: nat :: i <= j < |s| ==> KeyframeAt(s, j).None?
    decreases |s| - i
  {
    if i < |s| && KeyframeAt(s, i).None? {
      FirstKeyframeNone(s, i + 1);
    }
  }

  function LineKeyframe(line: string): Option<nat> {
    FirstKeyframe(ByteStrip(line), 0)
  }

  /** The values of the lines that give one, in line order. */
  function Collect(f: string -> Option<nat>, lines: seq<string>): (r: seq<nat>)
    ensures |r| <= |lines|
    decreases |lines|
  {
    if |lines| == 0 then []
    else (if f(lines[0]).Some? then [f(lines[0]).value] else []) + Collect(f, lines[1..])
  }

  lemma {:induction false} CollectAppend(f: string -> Option<nat>, a: seq<string>, b: seq<string>)
    ensures Collect(f, a + b) == Collect(f, a) + Collect(f, b)
    decreases |a|
  {
    if |a| == 0 {
      assert a + b == b;
    } else {
      var h := if f(a[0]).Some? then [f(a[0]).value] else [];
      assert (a + b)[0] == a[0] && (a + b)[1..] == a[1..] + b;
      assert Collect(f, a + b) == h + Collect(f, a[1..] + b);
      CollectAppend(f, a[1..], b);
      assert Collect(f, a) == h + Collect(f, a[1..]);
    }
  }

  /** `get_keyframes`: one number per line that matches, in line order. */
  function GetKeyframes(lines: seq<string>): (r: seq<nat>)
    ensures |r| <= |lines|
  {
    Collect(LineKeyframe, lines)
  }

  /** The log is read line by line: splitting it changes nothing. */
  lemma GetKeyframesAppend(a: seq<string>, b: seq<string>)
    ensures GetKeyframes(a + b) == GetKeyframes(a) + GetKeyframes(b)
  {
    CollectAppend(LineKeyframe, a, b);
  }

  /** A line without a colon contributes nothing. */
  lemma LineWithoutColon(line: string)
    requires ':' !in line
    ensures GetKeyframes([line]) == []
  {
    var s := ByteStrip(line);
    ByteStripChars(line);
    forall j: nat | j < |s|
      ensures KeyframeAt(s, j).None?
    {
      if OccursAt(s, "n:", j) {
        OccursChar(s, "n:", j, 1);
      }
    }
    FirstKeyframeNone(s, 0);
    assert LineKeyframe(line).None?;
  }

  lemma KeyAfterHolds(s: string, g: nat, key: nat)
    requires g < key && OccursAt(s, "key:1", key)
    requires forall m :: g <= m < key ==> s[m] != '\n'
    ensures KeyAfter(s, g)
  {
    var k := FindFrom(s, "key:1", g + 1);
    assert k != -1 && k <= key;
    assert forall m :: g <= m < k ==> s[m] != '\n';
    assert forall m :: 0 <= m < k - g ==> s[g..k][m] == s[g + m];
  }

  /** The select filter's fields `n:<k>.<frac> pts:`. */
  function KeyField(k: nat, frac: nat): string {
    "n:" + NatToString(k) + "." + NatToString(frac) + " pts:"
  }

  lemma KeyFieldParts(a: string, b: string)
    ensures var w := "n:" + a + "." + b + " pts:"; var e := 2 + |a|; var f := e + 1 + |b|;
      && |w| == f + 5
      && w[..2] == "n:" && w[2..e] == a && w[e] == '.' && w[e + 1..f] == b && w[f..] == " pts:"
  {
  }

  /** The match at `i` read off the runs it consists of. */
  lemma KeyframeAtIs(s: string, i: nat, e: nat, f: nat, k: nat)
    requires Placed(s, i, "n:") && i + 2 < e < |s| && s[e] == '.' && e + 1 < f
    requires Run(Digits, s, i + 2) == e && Run(Digits, s, e + 1) == f
    requires Placed(s, f, " pts:") && KeyAfter(s, f + 5) && Numeral(s, i + 2, e) == k
    ensures KeyframeAt(s, i) == Some(k)
  {
    assert OccursAt(s, "n:", i) && OccursAt(s, " pts:", f);
  }

  /** The fields read as `k` wherever they are placed, given a `key:1` on
      the same line after them. */
  lemma KeyframeFields(s: string, i: nat, k: nat, frac: nat)
    requires Placed(s, i, KeyField(k, frac))
    requires KeyAfter(s, i + |KeyField(k, frac)|)
    ensures KeyframeAt(s, i) == Some(k)
  {
    var nk := NatToString(k);
    var nf := NatToString(frac);
    var e := i + 2 + |nk|;
    var f := e + 1 + |nf|;
    assert f + 5 == i + |KeyField(k, frac)|;
    PlacedConcat(s, i, "n:" + nk + "." + nf, " pts:", f);
    PlacedConcat(s, i, "n:" + nk + ".", nf, e + 1);
    PlacedConcat(s, i, "n:" + nk, ".", e);
    PlacedConcat(s, i, "n:", nk, i + 2);
    KeyframeOfParts(s, i, e, f, k, frac);
  }

  /** The same, from the places of the fields' parts. */
  lemma KeyframeOfParts(s: string, i: nat, e: nat, f: nat, k: nat, frac: nat)
    requires e == i + 2 + |NatToString(k)| && f == e + 1 + |NatToString(frac)|
    requires Placed(s, i, "n:") && Placed(s, i + 2, NatToString(k)) && Placed(s, e, ".")
    requires Placed(s, e + 1, NatToString(frac)) && Placed(s, f, " pts:") && KeyAfter(s, f + 5)
    ensures KeyframeAt(s, i) == Some(k)
  {
    PlacedOne(s, e, '.');
    assert !IsDigit(s[f]) by { PlacedChar(s, f, " pts:", 0); }
    NumberRunOf(s, i + 2, k, e);
    DigitRunOf(s, e + 1, frac, f);
    KeyframeAtIs(s, i, e, f, k);
  }

  /** The scan stops at the first position that matches. */
  lemma {:induction false} FirstKeyframeAt(s: string, i: nat, m: nat)
    requires i <= m < |s| && KeyframeAt(s, m).Some?
    requires forall j: nat :: i <= j < m ==> KeyframeAt(s, j).None?
    ensures FirstKeyframe(s, i) == KeyframeAt(s, m)
    decreases m - i
  {
    if i < m {
      FirstKeyframeAt(s, i + 1, m);
    }
  }

  /** No `n:` starts before `i` when the text up to `i` has none and `i`
      holds no colon. */
  lemma NoFieldBefore(s: string, i: nat)
    requires i < |s| && !Contains(s[..i], "n:") && s[i] != ':'
    ensures forall j: nat :: j < i ==> !OccursAt(s, "n:", j)
  {
    NoOccurrenceBefore(s, i, "n:");
    if i > 0 {
      DiffersAt(s, "n:", i - 1, 1);
    }
  }

  /** The select filter's debug line `… n:<k>.<frac> pts:… key:1 …` gives
      `k` when nothing before its `n:` field looks like one. */
  lemma KeyframeLineReads(s: string, i: nat, k: nat, frac: nat, key: nat)
    requires Placed(s, i, KeyField(k, frac)) && !Contains(s[..i], "n:")
    requires i + |KeyField(k, frac)| < key && OccursAt(s, "key:1", key)
    requires '\n' !in s[i + |KeyField(k, frac)|..key]
    ensures FirstKeyframe(s, 0) == Some(k)
  {
    var g := i + |KeyField(k, frac)|;
    forall m | g <= m < key
      ensures s[m] != '\n'
    {
      assert s[m] == s[g..key][m - g];
    }
    KeyAfterHolds(s, g, key);
    KeyframeFields(s, i, k, frac);
    KeyFieldParts(NatToString(k), NatToString(frac));
    PlacedChar(s, i, KeyField(k, frac), 0);
    NoFieldBefore(s, i);
    FirstKeyframeAt(s, 0, i);
  }

  /** A whole debug line, with something other than whitespace at both
      ends, gives its keyframe. */
  lemma KeyframeLineCollected(line: string, i: nat, k: nat, frac: nat, key: nat)
    requires Placed(line, i, KeyField(k, frac)) && !Contains(line[..i], "n:")
    requires i + |KeyField(k, frac)| < key && OccursAt(line, "key:1", key)
    requires '\n' !in line[i + |KeyField(k, frac)|..key]
    requires !AsciiSpace(line[0]) && !AsciiSpace(line[|line| - 1])
    ensures GetKeyframes([line]) == [k]
  {
    KeyframeLineReads(line, i, k, frac, key);
    assert LineKeyframe(line) == Some(k);
    assert GetKeyframes([line]) == [k] + GetKeyframes([]);
  }
}
