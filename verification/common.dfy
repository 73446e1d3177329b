/**
 Shared vocabulary of the model: the exceptions the Python code raises, an
 Option/Result pair to carry them, and the handful of Python string builtins
 the pipeline leans on (`str(int)`, `int(str)`, `str.find`, `str.rfind`,
 slicing with negative or out-of-range bounds, `str.split()`).
 */
module Common {

  /** The Python exceptions whose raising the model keeps apart. */
  datatype Error =
    | IndexError        // list index / empty regex match list
    | ValueError        // `min` of an empty sequence, `int()` of a non-number
    | KeyError          // dictionary lookup of a missing key
    | NameError         // a local read before any assignment (UnboundLocalError)
    | TypeError         // `len(None)` and friends
    | ZeroDivisionError // a division by zero
    | Fatal(reason: string)  // `raise Exception` / `sys.exit()` with a message

  datatype Option<+T> = None | Some(value: T)

  datatype Result<+T> = Ok(value: T) | Err(error: Error) {
    predicate IsFailure() {
      Err?
    }

    function PropagateFailure<U>(): Result<U>
      requires Err?
    {
      Err(error)
    }

    function Extract(): T
      requires Ok?
    {
      value
    }
  }

  // ---------------------------------------------------------------------------
  // Digits and decimal numerals

  predicate IsDigit(c: char) {
    '0' <= c <= '9'
  }

  predicate AllDigits(s: string) {
    forall i :: 0 <= i < |s| ==> IsDigit(s[i])
  }

  function DigitChar(d: nat): (c: char)
    requires d < 10
    ensures IsDigit(c) && c as int - '0' as int == d
  {
    ('0' as int + d) as char
  }

  function DigitValue(c: char): (d: nat)
    requires IsDigit(c)
    ensures d < 10
  {
    c as int - '0' as int
  }

  /** Python's `str(n)` for a non-negative integer: no sign, no leading zeros. */
  function NatToString(n: nat): (s: string)
    ensures 1 <= |s| && AllDigits(s)
    ensures |s| == 1 <==> n < 10
    ensures |s| == 2 <==> 10 <= n < 100
    ensures |s| > 1 ==> s[0] != '0'
  {
    if n < 10 then [DigitChar(n)] else NatToString(n / 10) + [DigitChar(n % 10)]
  }

  /** Python's `str(i)` for any integer. */
  function IntToString(i: int): (s: string)
    ensures 1 <= |s|
    ensures i >= 0 ==> AllDigits(s)
    ensures i < 0 ==> s[0] == '-' && AllDigits(s[1..])
    ensures forall k :: 0 <= k < |s| ==> IsDigit(s[k]) || (k == 0 && s[k] == '-')
  {
    if i < 0 then "-" + NatToString(-i) else NatToString(i)
  }

  /** A numeral holds only digits and a leading minus. */
  lemma NumeralLacks(i: int, c: char)
    requires !IsDigit(c) && c != '-'
    ensures c !in IntToString(i)
  {
    var f := IntToString(i);
    assert forall k :: 0 <= k < |f| ==> f[k] != c;
  }

  /** The value of a run of decimal digits (what `int()` does to it). */
  function DigitsValue(s: string): nat
    requires AllDigits(s)
  {
    if |s| == 0 then 0 else DigitsValue(s[..|s| - 1]) * 10 + DigitValue(s[|s| - 1])
  }

  /** Reading back a printed natural number gives the number. */
  lemma {:induction false} DigitsValueOfNatToString(n: nat)
    ensures DigitsValue(NatToString(n)) == n
  {
    if n >= 10 {
      var s := NatToString(n);
      assert s[..|s| - 1] == NatToString(n / 10);
      DigitsValueOfNatToString(n / 10);
    }
  }

  // ---------------------------------------------------------------------------
  // Whitespace, as Python's `str.isspace` and the `\s` class of `re` see it

  predicate IsSpace(c: char) {
    var k := c as int;
    (9 <= k <= 13) || (28 <= k <= 32) || k == 0x85 || k == 0xA0 || k == 0x1680
    || (0x2000 <= k <= 0x200A) || k == 0x2028 || k == 0x2029 || k == 0x202F
    || k == 0x205F || k == 0x3000
  }

  predicate NoSpace(s: string) {
    forall i :: 0 <= i < |s| ==> !IsSpace(s[i])
  }

  lemma DigitsHaveNoSpace(s: string)
    requires AllDigits(s)
    ensures NoSpace(s)
  {
  }

  /** `s.lstrip()` */
  function LStrip(s: string): (r: string)
    ensures |r| <= |s| && r == s[|s| - |r|..]
    ensures |r| > 0 ==> !IsSpace(r[0])
    ensures forall i :: 0 <= i < |s| - |r| ==> IsSpace(s[i])
  {
    if |s| > 0 && IsSpace(s[0]) then LStrip(s[1..]) else s
  }

  /** `s.rstrip()` */
  function RStrip(s: string): (r: string)
    ensures |r| <= |s| && r == s[..|r|]
    ensures |r| > 0 ==> !IsSpace(r[|r| - 1])
    ensures forall i :: |r| <= i < |s| ==> IsSpace(s[i])
  {
    if |s| > 0 && IsSpace(s[|s| - 1]) then RStrip(s[..|s| - 1]) else s
  }

  /** `s.strip()` */
  function Strip(s: string): string {
    RStrip(LStrip(s))
  }

  lemma StripNoSpace(s: string)
    requires |s| == 0 || (!IsSpace(s[0]) && !IsSpace(s[|s| - 1]))
    ensures Strip(s) == s
  {
  }

  /** A decimal numeral with an optional minus sign, as Python writes and
      reads integer literals. */
  function ParseNumeral(t: string): (r: Option<int>)
    ensures r.Some? <==> (|t| > 0 && AllDigits(t)) || (|t| > 1 && t[0] == '-' && AllDigits(t[1..]))
  {
    if |t| > 0 && AllDigits(t) then Some(DigitsValue(t) as int)
    else if |t| > 1 && t[0] == '-' && AllDigits(t[1..]) then Some(-(DigitsValue(t[1..]) as int))
    else None
  }

  lemma ParseNumeralOfIntToString(i: int)
    ensures ParseNumeral(IntToString(i)) == Some(i)
  {
    var s := IntToString(i);
    if i < 0 {
      assert s[1..] == NatToString(-i);
      DigitsValueOfNatToString(-i);
      assert !AllDigits(s);
    } else {
      DigitsValueOfNatToString(i);
    }
  }

  /** A trailing whitespace character is stripped like any other. */
  lemma StripTrailingSpace(s: string, c: char)
    requires IsSpace(c) && |s| > 0 && !IsSpace(s[0]) && !IsSpace(s[|s| - 1])
    ensures Strip(s + [c]) == s
  {
    var t := s + [c];
    assert LStrip(t) == t;
    assert t[..|t| - 1] == s;
    assert RStrip(t) == RStrip(s);
  }

  /**
   Python's `int(s)` on a string: surrounding whitespace is ignored, then an
   optional sign and at least one decimal digit; anything else raises
   ValueError.
   */
  function PyInt(s: string): (r: Result<int>)
    ensures r.Ok? <==> var t := Strip(s);
      (|t| > 0 && AllDigits(t)) || (|t| > 1 && (t[0] == '-' || t[0] == '+') && AllDigits(t[1..]))
    ensures r.Ok? && AllDigits(Strip(s)) ==> r.value == DigitsValue(Strip(s))
    ensures r.Ok? && Strip(s)[0] == '-' ==> r.value == -(DigitsValue(Strip(s)[1..]) as int)
    ensures r.Ok? && Strip(s)[0] == '+' ==> r.value == DigitsValue(Strip(s)[1..])
  {
    var t := Strip(s);
    if |t| > 0 && AllDigits(t) then Ok(DigitsValue(t))
    else if |t| > 1 && t[0] == '-' && AllDigits(t[1..]) then Ok(-(DigitsValue(t[1..]) as int))
    else if |t| > 1 && t[0] == '+' && AllDigits(t[1..]) then Ok(DigitsValue(t[1..]))
    else Err(ValueError)
  }

  /** On a numeral without surrounding whitespace or a plus sign, `int()`
      agrees with reading the numeral. */
  lemma PyIntOfNumeral(t: string, v: int)
    requires |t| > 0 && !IsSpace(t[0]) && !IsSpace(t[|t| - 1]) && t[0] != '+'
    requires ParseNumeral(t) == Some(v)
    ensures PyInt(t) == Ok(v)
  {
    StripNoSpace(t);
  }

  /** `int(str(i)) == i` */
  lemma PyIntOfIntToString(i: int)
    ensures PyInt(IntToString(i)) == Ok(i)
  {
    var s := IntToString(i);
    ParseNumeralOfIntToString(i);
    PyIntOfNumeral(s, i);
  }

  // ---------------------------------------------------------------------------
  // Python's round on the exact value

  /** `round(x)`: the nearest integer, ties to the even one. */
  function RoundHalfEven(x: real): (n: int)
    ensures -0.5 <= n as real - x <= 0.5
    ensures n as real - x == 0.5 || x - n as real == 0.5 ==> n % 2 == 0
  {
    var fl := x.Floor;
    var d := x - fl as real;
    if d < 0.5 then fl
    else if d > 0.5 then fl + 1
    else if fl % 2 == 0 then fl
    else fl + 1
  }

  /** Python's `a // b` (and `math.floor(a / b)` on exact values): the
      quotient rounded toward minus infinity, for either sign of `b`. */
  function FloorDiv(a: int, b: int): (q: int)
    requires b != 0
    ensures b > 0 ==> b * q <= a < b * q + b
    ensures b < 0 ==> b * q >= a > b * q + b
  {
    if b > 0 then a / b else (-a) / (-b)
  }

  /** Away from ties there is only one integer that close. */
  lemma RoundNearest(x: real, n: int)
    requires -0.5 < n as real - x < 0.5
    ensures RoundHalfEven(x) == n
  {
  }

  lemma RoundMonotone(x: real, y: real)
    requires x <= y
    ensures RoundHalfEven(x) <= RoundHalfEven(y)
  {
  }

  // ---------------------------------------------------------------------------
  // Substring search

  predicate OccursAt(s: string, pat: string, i: int) {
    0 <= i && i + |pat| <= |s| && s[i..i + |pat|] == pat
  }

  predicate StartsWith(s: string, pat: string) {
    |pat| <= |s| && s[..|pat|] == pat
  }

  predicate Contains(s: string, pat: string) {
    exists i :: 0 <= i <= |s| && OccursAt(s, pat, i)
  }

  /** `s.find(pat, i)`: the first occurrence at or after `i`, or -1. */
  function FindFrom(s: string, pat: string, i: nat): (r: int)
    ensures r == -1 || (i <= r && OccursAt(s, pat, r))
    ensures forall j :: i <= j && (r == -1 || j < r) ==> !OccursAt(s, pat, j)
    decreases |s| - i
  {
    if i + |pat| > |s| then -1
    else if s[i..i + |pat|] == pat then i
    else FindFrom(s, pat, i + 1)
  }

  /** `s.find(pat)`. */
  function Find(s: string, pat: string): (r: int)
    ensures r == -1 <==> !Contains(s, pat)
    ensures r != -1 ==> OccursAt(s, pat, r) && forall j :: 0 <= j < r ==> !OccursAt(s, pat, j)
  {
    FindFrom(s, pat, 0)
  }

  /** The last occurrence starting strictly before `k`, or -1. */
  function RFindBelow(s: string, pat: string, k: nat): (r: int)
    ensures r == -1 || (r < k && OccursAt(s, pat, r))
    ensures forall j :: r < j < k ==> !OccursAt(s, pat, j)
  {
    if k == 0 then -1
    else if OccursAt(s, pat, k - 1) then k - 1
    else RFindBelow(s, pat, k - 1)
  }

  /** `s.rfind(pat)`. */
  function RFind(s: string, pat: string): (r: int)
    ensures r == -1 <==> !Contains(s, pat)
    ensures r != -1 ==> OccursAt(s, pat, r) && forall j :: r < j ==> !OccursAt(s, pat, j)
  {
    RFindBelow(s, pat, |s| + 1)
  }

  /** `rfind` of a single character: the position after which it no longer occurs. */
  lemma RFindChar(s: string, c: char, i: int)
    requires i == -1 || (0 <= i < |s| && s[i] == c)
    requires forall j :: i < j < |s| ==> s[j] != c
    ensures RFind(s, [c]) == i
  {
    var r := RFind(s, [c]);
    if i != -1 {
      assert s[i..i + 1] == [c];
      assert OccursAt(s, [c], i);
    }
    if r != -1 {
      assert s[r..r + 1] == [c];
      assert s[r] == c;
    }
  }

  // ---------------------------------------------------------------------------
  // Python slicing `s[a:b]` (step 1): negative bounds count from the end,
  // and every bound is clamped to the string.

  function SliceBound(len: nat, a: int): (b: nat)
    ensures b <= len
    ensures 0 <= a <= len ==> b == a
  {
    if a < 0 then (if a + len < 0 then 0 else a + len)
    else if a > len then len
    else a
  }

  function PySlice<T>(s: seq<T>, a: int, b: int): (r: seq<T>)
    ensures 0 <= a <= b <= |s| ==> r == s[a..b]
  {
    var lo := SliceBound(|s|, a);
    var hi := SliceBound(|s|, b);
    if hi <= lo then [] else s[lo..hi]
  }

  /** `s[:b]` */
  function PyPrefix<T>(s: seq<T>, b: int): seq<T> {
    PySlice(s, 0, b)
  }

  /** `s[a:]` */
  function PySuffix<T>(s: seq<T>, a: int): seq<T> {
    PySlice(s, a, |s|)
  }

  /** Concatenation regroups freely; stated once so that proofs can name the
      step instead of asking for sequence extensionality. */
  lemma ConcatAssoc<T>(a: seq<T>, b: seq<T>, c: seq<T>)
    ensures a + (b + c) == (a + b) + c
  {
  }

  /** The head and tail of `a` followed by a blank and `b`. */
  lemma TailOfJoin(a: string, b: string)
    requires |a| > 0
    ensures (a + " " + b)[0] == a[0]
    ensures (a + " " + b)[1..] == a[1..] + " " + b
  {
    assert (a + " " + b)[1..] == a[1..] + (" " + b);
    ConcatAssoc(a[1..], " ", b);
  }

  // ---------------------------------------------------------------------------
  // `str.split()` with no argument: maximal runs of non-whitespace

  /** The first index at or after `i` holding whitespace, or `|s|`. */
  function WordEnd(s: string, i: nat): (k: nat)
    requires i <= |s|
    ensures i <= k <= |s|
    ensures forall j :: i <= j < k ==> !IsSpace(s[j])
    ensures k < |s| ==> IsSpace(s[k])
    decreases |s| - i
  {
    if i == |s| || IsSpace(s[i]) then i else WordEnd(s, i + 1)
  }

  function Words(s: string): (ws: seq<string>)
    decreases |s|
  {
    if |s| == 0 then []
    else if IsSpace(s[0]) then Words(s[1..])
    else
      var k := WordEnd(s, 1);
      [s[..k]] + Words(s[k..])
  }

  /** Every word is non-empty and free of whitespace. */
  lemma {:induction false} WordsAreWords(s: string)
    ensures forall k :: 0 <= k < |Words(s)| ==> |Words(s)[k]| > 0 && NoSpace(Words(s)[k])
    decreases |s|
  {
    if |s| > 0 {
      if IsSpace(s[0]) {
        WordsAreWords(s[1..]);
      } else {
        var k := WordEnd(s, 1);
        WordsAreWords(s[k..]);
        var ws := Words(s);
        assert ws == [s[..k]] + Words(s[k..]);
        forall j | 0 <= j < |ws|
          ensures |ws[j]| > 0 && NoSpace(ws[j])
        {
          if j > 0 {
            assert ws[j] == Words(s[k..])[j - 1];
          }
        }
      }
    }
  }

  /** Splitting never fuses words across a whitespace boundary. */
  lemma {:induction false} WordsAppend(a: string, b: string)
    requires |a| == 0 || |b| == 0 || IsSpace(a[|a| - 1]) || IsSpace(b[0])
    ensures Words(a + b) == Words(a) + Words(b)
    decreases |a|
  {
    if |a| == 0 {
      assert a + b == b;
    } else if |b| == 0 {
      assert a + b == a;
    } else if IsSpace(a[0]) {
      assert (a + b)[1..] == a[1..] + b;
      WordsAppend(a[1..], b);
    } else {
      WordsStep(a, b);
      var k := WordEnd(a, 1);
      if k == |a| {
        assert a[k..] + b == b;
        assert a[k..] == [];
      } else {
        WordsAppend(a[k..], b);
      }
    }
  }

  /** The first word of `a + b` is the first word of `a`. */
  lemma WordsStep(a: string, b: string)
    requires |a| > 0 && |b| > 0 && !IsSpace(a[0])
    requires IsSpace(a[|a| - 1]) || IsSpace(b[0])
    ensures var k := WordEnd(a, 1);
      && Words(a + b) == [a[..k]] + Words(a[k..] + b)
      && Words(a) == [a[..k]] + Words(a[k..])
  {
    WordEndAppend(a, b, 1, |a| - 1);
    var k := WordEnd(a, 1);
    SliceOfConcat(a, b, k);
    WordsHead(a + b, k);
    WordsHead(a, k);
  }

  /** A string that starts with a word splits into that word and the rest. */
  lemma WordsHead(s: string, k: nat)
    requires |s| > 0 && !IsSpace(s[0]) && 1 <= k <= |s| && k == WordEnd(s, 1)
    ensures Words(s) == [s[..k]] + Words(s[k..])
  {
  }

  /** Slicing `a + b` at a point within `a`. */
  lemma SliceOfConcat<T>(a: seq<T>, b: seq<T>, k: nat)
    requires k <= |a|
    ensures (a + b)[..k] == a[..k] && (a + b)[k..] == a[k..] + b
  {
  }

  /** Within `a + b`, a word that starts in `a` ends where it ends in `a`,
      provided a whitespace character stops it no later than `b`'s first:
      either `b` starts with one, or `a` has one at `e`. */
  lemma {:induction false} WordEndAppend(a: string, b: string, i: nat, e: nat)
    requires 0 < |b| && i <= |a|
    requires IsSpace(b[0]) || (i <= e < |a| && IsSpace(a[e]))
    ensures WordEnd(a + b, i) == WordEnd(a, i)
    decreases |a| - i
  {
    if i < |a| && !IsSpace(a[i]) {
      WordEndAppend(a, b, i + 1, e);
    }
  }

  /** A non-empty word with no whitespace splits to itself. */
  lemma WordsOfWord(w: string)
    requires |w| > 0 && NoSpace(w)
    ensures Words(w) == [w]
  {
    var k := WordEnd(w, 1);
    assert k == |w|;
    assert w[..k] == w;
    assert w[k..] == [];
  }

  /** A string of whitespace splits to nothing. */
  lemma {:induction false} WordsOfBlank(s: string)
    requires forall i :: 0 <= i < |s| ==> IsSpace(s[i])
    ensures Words(s) == []
    decreases |s|
  {
    if |s| > 0 {
      WordsOfBlank(s[1..]);
    }
  }

  /** Every character of `s` that is not `from` is kept, and each `from` becomes `to`. */
  function ReplaceChar(s: string, from: char, to: string): (r: string)
    ensures from !in to ==> from !in r
    ensures forall c :: c in r ==> c in s || c in to
  {
    if |s| == 0 then ""
    else (if s[0] == from then to else [s[0]]) + ReplaceChar(s[1..], from, to)
  }

  lemma ReplaceCharAbsent(s: string, from: char, to: string)
    requires from !in s
    ensures ReplaceChar(s, from, to) == s
  {
    if |s| > 0 {
      assert s[0] != from;
      assert from !in s[1..];
      ReplaceCharAbsent(s[1..], from, to);
      assert [s[0]] + s[1..] == s;
    }
  }

  lemma ReplaceCharAppend(a: string, b: string, from: char, to: string)
    ensures ReplaceChar(a + b, from, to) == ReplaceChar(a, from, to) + ReplaceChar(b, from, to)
  {
    if |a| > 0 {
      assert (a + b)[1..] == a[1..] + b;
    } else {
      assert a + b == b;
    }
  }

  /** `sep.join(items)`. */
  function Join(sep: string, items: seq<string>): string {
    if |items| == 0 then ""
    else if |items| == 1 then items[0]
    else items[0] + sep + Join(sep, items[1..])
  }

  /** Words joined by single blanks split back into the same words. */
  lemma {:induction false} WordsOfJoin(ws: seq<string>)
    requires forall k :: 0 <= k < |ws| ==> |ws[k]| > 0 && NoSpace(ws[k])
    ensures Words(Join(" ", ws)) == ws
    decreases |ws|
  {
    if |ws| == 1 {
      WordsOfWord(ws[0]);
      assert [ws[0]] == ws;
    } else if |ws| > 1 {
      var rest := Join(" ", ws[1..]);
      WordsOfJoin(ws[1..]);
      ConcatAssoc(ws[0], " ", rest);
      WordsAppend(ws[0], " " + rest);
      WordsAppend(" ", rest);
      WordsOfBlank(" ");
      WordsOfWord(ws[0]);
      assert [ws[0]] + ws[1..] == ws;
    }
  }

  function Sum(xs: seq<int>): int {
    if |xs| == 0 then 0 else xs[0] + Sum(xs[1..])
  }

  /** A list comprehension `[f(i, x) for i, x in enumerate(xs, start)]`
      whose element computation may raise: the first error ends it. */
  function MapResult<A, B>(f: (nat, A) -> Result<B>, xs: seq<A>, start: nat): (r: Result<seq<B>>)
    ensures r.Ok? <==> forall i :: 0 <= i < |xs| ==> f(start + i, xs[i]).Ok?
    ensures r.Ok? ==> |r.value| == |xs|
    ensures r.Ok? ==> forall i :: 0 <= i < |xs| ==> f(start + i, xs[i]) == Ok(r.value[i])
    ensures r.Err? ==> exists i :: 0 <= i < |xs| && f(start + i, xs[i]) == Err(r.error)
    decreases |xs|
  {
    if |xs| == 0 then Ok([])
    else
      var y := f(start, xs[0]);
      if y.Err? then
        assert f(start + 0, xs[0]) == y;
        Err(y.error)
      else
        var rest := MapResult(f, xs[1..], start + 1);
        if rest.Err? then
          var k :| 0 <= k < |xs[1..]| && f(start + 1 + k, xs[1..][k]) == Err(rest.error);
          assert f(start + (k + 1), xs[k + 1]) == Err(rest.error);
          Err(rest.error)
        else
          var r := [y.value] + rest.value;
          assert forall i :: 1 <= i < |xs| ==> xs[i] == xs[1..][i - 1] && r[i] == rest.value[i - 1];
          Ok(r)
  }
}
