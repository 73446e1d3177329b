/**
 The progress ledger: which chunks are encoded and with how many frames.

 The current pipeline keeps `done.json`, `{"total": N, "done": {name: frames}}`,
 and updates it through `write_progress_file` behind the frame-count gate
 `frame_check` (qencoder/ffmpeg.py).  A JSON object read back by Python is a
 dict that remembers insertion order, so `done` is an association list with
 distinct keys.

 The older pipeline (pav1n.py) keeps `done.txt`: the total frame count on the
 first line, then one `(frames, "name"), ` record per encoded chunk, all on
 the second line; on resume the last line is read back with
 `ast.literal_eval`.
 */
module Ledger {
  import opened Common
  import opened Paths

  // ---------------------------------------------------------------------------
  // `done`: an insertion-ordered dict from chunk names to frame counts

  type Assoc = seq<(string, int)>

  predicate UniqueKeys(d: Assoc) {
    |d| == 0 || (d[0].0 !in Keys(d[1..]) && UniqueKeys(d[1..]))
  }

  function Keys(d: Assoc): set<string> {
    if |d| == 0 then {} else {d[0].0} + Keys(d[1..])
  }

  /** `d.get(k)` */
  function Get(d: Assoc, k: string): (r: Option<int>)
    ensures r.None? <==> k !in Keys(d)
  {
    if |d| == 0 then None
    else if d[0].0 == k then Some(d[0].1)
    else Get(d[1..], k)
  }

  function Values(d: Assoc): (vs: seq<int>)
    ensures |vs| == |d|
    ensures forall i :: 0 <= i < |d| ==> vs[i] == d[i].1
  {
    if |d| == 0 then [] else [d[0].1] + Values(d[1..])
  }

  /** `d[k] = v`: an existing key keeps its place and takes the new value; a
      new key goes to the end. */
  function Put(d: Assoc, k: string, v: int): (r: Assoc)
    ensures Get(r, k) == Some(v)
    ensures forall j :: j != k ==> Get(r, j) == Get(d, j)
    ensures Keys(r) == Keys(d) + {k}
    ensures UniqueKeys(d) ==> UniqueKeys(r)
    ensures k !in Keys(d) ==> r == d + [(k, v)]
    ensures k in Keys(d) ==> |r| == |d|
  {
    if |d| == 0 then [(k, v)]
    else if d[0].0 == k then
      var r := [(k, v)] + d[1..];
      assert r[1..] == d[1..];
      r
    else
      var r := [d[0]] + Put(d[1..], k, v);
      assert r[1..] == Put(d[1..], k, v);
      assert k !in Keys(d) ==> r == d + [(k, v)] by {
        if k !in Keys(d) {
          assert r == [d[0]] + (d[1..] + [(k, v)]) == d + [(k, v)];
        }
      }
      r
  }

  lemma {:induction false} KeysAppend(a: Assoc, b: Assoc)
    ensures Keys(a + b) == Keys(a) + Keys(b)
    decreases |a|
  {
    if |a| > 0 {
      assert (a + b)[1..] == a[1..] + b;
      KeysAppend(a[1..], b);
    } else {
      assert a + b == b;
    }
  }

  /** Keys are unique in a concatenation exactly when they are unique in
      each part and the parts share none. */
  lemma {:induction false} UniqueKeysAppend(a: Assoc, b: Assoc)
    ensures UniqueKeys(a + b) <==> UniqueKeys(a) && UniqueKeys(b) && Keys(a) !! Keys(b)
    decreases |a|
  {
    if |a| > 0 {
      assert (a + b)[1..] == a[1..] + b;
      assert (a + b)[0] == a[0];
      UniqueKeysAppend(a[1..], b);
      KeysAppend(a[1..], b);
    } else {
      assert a + b == b;
    }
  }

  /** Recording a chunk twice with the same count changes nothing. */
  lemma PutIdempotent(d: Assoc, k: string, v: int)
    ensures Put(Put(d, k, v), k, v) == Put(d, k, v)
  {
    PutSame(Put(d, k, v), k, v);
  }

  /** Writing the value a key already holds is no change at all. */
  lemma {:induction false} PutSame(d: Assoc, k: string, v: int)
    requires Get(d, k) == Some(v)
    ensures Put(d, k, v) == d
  {
    if d[0].0 != k {
      PutSame(d[1..], k, v);
    } else {
      assert [(k, v)] + d[1..] == d;
    }
  }

  /** The frames in the ledger change by exactly what the write changes. */
  lemma {:induction false} PutSum(d: Assoc, k: string, v: int)
    requires UniqueKeys(d)
    ensures Sum(Values(Put(d, k, v))) == Sum(Values(d)) + v - (if Get(d, k).Some? then Get(d, k).value else 0)
  {
    if |d| > 0 {
      assert Values(d) == [d[0].1] + Values(d[1..]);
      if d[0].0 == k {
        assert Values(Put(d, k, v)) == [v] + Values(d[1..]);
        assert Values(d)[1..] == Values(d[1..]);
      } else {
        PutSum(d[1..], k, v);
        assert Values(Put(d, k, v)) == [d[0].1] + Values(Put(d[1..], k, v));
      }
    }
  }

  // ---------------------------------------------------------------------------
  // done.json and the frame-count gate

  datatype Progress = Progress(total: int, done: Assoc)

  /** `write_progress_file(file, chunk, frames)` on the parsed file. */
  function WriteProgress(p: Progress, chunkName: string, frames: int): (r: Progress)
    ensures r.total == p.total
    ensures Get(r.done, chunkName) == Some(frames)
    ensures forall k :: k != chunkName ==> Get(r.done, k) == Get(p.done, k)
  {
    p.(done := Put(p.done, chunkName, frames))
  }

  lemma WriteProgressIdempotent(p: Progress, chunkName: string, frames: int)
    ensures WriteProgress(WriteProgress(p, chunkName, frames), chunkName, frames) == WriteProgress(p, chunkName, frames)
  {
    PutIdempotent(p.done, chunkName, frames);
  }

  /** The gate: the source was counted, and either `nocheck` is set or the
      encoded chunk has the same count. */
  predicate GatePasses(nocheck: bool, probeSource: Result<int>, probeEncoded: Result<int>) {
    probeSource.Ok? && (nocheck || (probeEncoded.Ok? && probeEncoded.value == probeSource.value))
  }

  /** Which probe failure escapes: the source is probed first, the encoded
      chunk only when `nocheck` is unset. */
  predicate RaisesIndexError(nocheck: bool, probeSource: Result<int>, probeEncoded: Result<int>) {
    probeSource == Err(IndexError) || (!nocheck && probeSource.Ok? && probeEncoded == Err(IndexError))
  }

  /** `frame_check(source, encoded, temp, nocheck)` given the ledger and the
      outcome of `frame_probe` on each file (IndexError when ffmpeg printed
      no frame count).  An IndexError becomes the "Encoding failed"
      exception; every other failure is printed and swallowed. */
  function FrameCheck(ledger: Progress, source: string, nocheck: bool, probeSource: Result<int>, probeEncoded: Result<int>): (r: Result<Progress>)
    ensures GatePasses(nocheck, probeSource, probeEncoded) ==> r == Ok(WriteProgress(ledger, Name(source), probeSource.value))
    ensures !GatePasses(nocheck, probeSource, probeEncoded) && r.Ok? ==> r.value == ledger
    ensures r.Err? <==> RaisesIndexError(nocheck, probeSource, probeEncoded)
    ensures r.Err? ==> r.error.Fatal?
  {
    var name := Name(source);
    if nocheck then
      match probeSource
      case Ok(s1) => Ok(WriteProgress(ledger, name, s1))
      case Err(e) => Swallow(e, ledger)
    else if probeSource.Err? then Swallow(probeSource.error, ledger)
    else if probeEncoded.Err? then Swallow(probeEncoded.error, ledger)
    else if probeSource.value == probeEncoded.value then Ok(WriteProgress(ledger, name, probeSource.value))
    else Ok(ledger)
  }

  const EncodingFailed := "Encoding failed, check validity of your encoding settings/commands and start again"

  /** The two `except` clauses of `frame_check`. */
  function Swallow(e: Error, ledger: Progress): (r: Result<Progress>)
    ensures r.Err? <==> e == IndexError
    ensures r.Ok? ==> r.value == ledger
  {
    if e == IndexError then Err(Fatal(EncodingFailed))
    else Ok(ledger)
  }

  /** A chunk gets an entry only through the gate, with the source's count,
      and nothing else in the ledger moves. */
  lemma FrameCheckEntryOnlyThroughGate(ledger: Progress, source: string, nocheck: bool, probeSource: Result<int>, probeEncoded: Result<int>, k: string)
    requires FrameCheck(ledger, source, nocheck, probeSource, probeEncoded).Ok?
    ensures var after := FrameCheck(ledger, source, nocheck, probeSource, probeEncoded).value;
      && after.total == ledger.total
      && (k != Name(source) ==> Get(after.done, k) == Get(ledger.done, k))
      && (Get(after.done, k) != Get(ledger.done, k) ==>
            k == Name(source) && GatePasses(nocheck, probeSource, probeEncoded)
            && Get(after.done, k) == Some(probeSource.value))
  {
  }

  /** With `nocheck` set the encoded chunk is never looked at. */
  lemma FrameCheckNocheckIgnoresEncoded(ledger: Progress, source: string, probeSource: Result<int>, e1: Result<int>, e2: Result<int>)
    ensures FrameCheck(ledger, source, true, probeSource, e1) == FrameCheck(ledger, source, true, probeSource, e2)
  {
  }

  // ---------------------------------------------------------------------------
  // done.txt of the older pipeline

  /** One chunk's record, `f'({s1}, "{source.name}"), '`. */
  function RecordText(frames: int, name: string): string {
    "(" + IntToString(frames) + ", \"" + name + "\"), "
  }

  function RecordsText(recs: seq<(int, string)>): string {
    if |recs| == 0 then "" else RecordsText(recs[..|recs| - 1]) + RecordText(recs[|recs| - 1].0, recs[|recs| - 1].1)
  }

  /** The older `frame_check`: append the record when the counts agree.  Its
      probe parses with `int()` and nothing is caught, so a failed probe
      aborts the chunk. */
  function LegacyFrameCheck(doneText: string, sourceName: string, probeSource: Result<int>, probeEncoded: Result<int>): (r: Result<string>)
    ensures r.Ok? <==> probeSource.Ok? && probeEncoded.Ok?
    ensures r.Ok? && probeSource.value == probeEncoded.value ==> r.value == doneText + RecordText(probeSource.value, sourceName)
    ensures r.Ok? && probeSource.value != probeEncoded.value ==> r.value == doneText
  {
    var s1 :- probeSource;
    var s2 :- probeEncoded;
    if s1 == s2 then Ok(doneText + RecordText(s1, sourceName)) else Ok(doneText)
  }

  /** Appending a record to the text of some records is the text of one more
      record. */
  lemma LegacyFrameCheckAppends(recs: seq<(int, string)>, name: string, frames: int)
    ensures LegacyFrameCheck(RecordsText(recs), name, Ok(frames), Ok(frames)) == Ok(RecordsText(recs + [(frames, name)]))
  {
    assert (recs + [(frames, name)])[..|recs|] == recs;
  }

  /** The first index at or after `i` holding `c`, or `|s|`. */
  function CharFrom(s: string, c: char, i: nat): (r: nat)
    requires i <= |s|
    ensures i <= r <= |s|
    ensures forall j :: i <= j < r ==> s[j] != c
    ensures r < |s| ==> s[r] == c
    decreases |s| - i
  {
    if i == |s| || s[i] == c then i else CharFrom(s, c, i + 1)
  }

  /** One `(<int>, "<name>"), ` group at the start of `s`: the frame count,
      the name and where the group ends. */
  function ParseOne(s: string): (r: Option<(int, string, nat)>)
    ensures r.Some? ==> 0 < r.value.2 <= |s|
  {
    if |s| == 0 || s[0] != '(' then None
    else
      var c := CharFrom(s, ',', 1);
      if !OpensName(s, c) then None
      else
        var q := CharFrom(s, '"', c + 3);
        if !ClosesRecord(s, q) then None
        else
          var n := ParseNumeral(s[1..c]);
          if n.None? then None else Some((n.value, s[c + 3..q], q + 4))
  }

  /** `, "` at `c` */
  predicate OpensName(s: string, c: nat) {
    c + 3 <= |s| && s[c] == ',' && s[c + 1] == ' ' && s[c + 2] == '"'
  }

  /** `"), ` at `q` */
  predicate ClosesRecord(s: string, q: nat) {
    q + 4 <= |s| && s[q] == '"' && s[q + 1] == ')' && s[q + 2] == ',' && s[q + 3] == ' '
  }

  /** `ast.literal_eval` on a records line: a run of
      `(<int>, "<name>"), ` groups. */
  function ParseRecords(s: string): (r: Option<seq<(int, string)>>)
    decreases |s|
  {
    if |s| == 0 then Some([])
    else
      match ParseOne(s)
      case None => None
      case Some((f, name, e)) =>
        match ParseRecords(s[e..])
        case None => None
        case Some(rest) => Some([(f, name)] + rest)
  }

  /** The text a record can carry back: no quote ends the name early. */
  predicate SafeName(name: string) {
    '"' !in name && '\n' !in name && '\\' !in name
  }

  function RecordsTextFrom(recs: seq<(int, string)>): string {
    if |recs| == 0 then "" else RecordText(recs[0].0, recs[0].1) + RecordsTextFrom(recs[1..])
  }

  lemma {:induction false} RecordsTextBothWays(recs: seq<(int, string)>)
    ensures RecordsText(recs) == RecordsTextFrom(recs)
    decreases |recs|
  {
    if |recs| > 0 {
      var n := |recs|;
      RecordsTextBothWays(recs[..n - 1]);
      RecordsTextFromSnoc(recs[..n - 1], recs[n - 1]);
      assert recs[..n - 1] + [recs[n - 1]] == recs;
    }
  }

  lemma {:induction false} RecordsTextFromSnoc(recs: seq<(int, string)>, x: (int, string))
    ensures RecordsTextFrom(recs + [x]) == RecordsTextFrom(recs) + RecordText(x.0, x.1)
    decreases |recs|
  {
    if |recs| == 0 {
      assert recs + [x] == [x];
      assert [x][1..] == [];
    } else {
      var t := recs + [x];
      assert t[0] == recs[0];
      assert t[1..] == recs[1..] + [x];
      RecordsTextFromSnoc(recs[1..], x);
    }
  }

  /** One record is read back as written. */
  lemma ParseOneRecord(frames: int, name: string, rest: string)
    requires SafeName(name)
    ensures ParseOne(RecordText(frames, name) + rest) == Some((frames, name, |RecordText(frames, name)|))
  {
    var n := |IntToString(frames)|;
    RecordLayout(frames, name, rest);
    ParseOneAt(RecordText(frames, name) + rest, 1 + n, 4 + n + |name|, frames, name, |RecordText(frames, name)|);
  }

  /** The shape `ParseOne` looks for: the group opens at 0, the number ends
      at the first comma `c`, the name at the next quote `q`. */
  predicate RecordShape(s: string, c: nat, q: nat, frames: int, name: string) {
    && 0 < |s| && s[0] == '('
    && 1 <= c && c + 3 <= q <= |s|
    && CharFrom(s, ',', 1) == c && OpensName(s, c)
    && CharFrom(s, '"', c + 3) == q && ClosesRecord(s, q)
    && ParseNumeral(s[1..c]) == Some(frames) && s[c + 3..q] == name
  }

  lemma ParseOneAt(s: string, c: nat, q: nat, frames: int, name: string, e: nat)
    requires RecordShape(s, c, q, frames, name) && e == q + 4
    ensures ParseOne(s) == Some((frames, name, e))
  {
  }

  /** Where the pieces of a record sit in its text. */
  lemma RecordLayout(frames: int, name: string, rest: string)
    requires SafeName(name)
    ensures var n := |IntToString(frames)|;
      && RecordShape(RecordText(frames, name) + rest, 1 + n, 4 + n + |name|, frames, name)
      && |RecordText(frames, name)| == 8 + n + |name|
  {
    var f := IntToString(frames);
    var s := RecordText(frames, name) + rest;
    LayoutPieces(f, name, rest, s);
    ParseNumeralOfIntToString(frames);
  }

  lemma LayoutPieces(f: string, name: string, rest: string, s: string)
    requires forall k :: 0 <= k < |f| ==> IsDigit(f[k]) || f[k] == '-'
    requires '"' !in name
    requires s == "(" + f + ", \"" + name + "\"), " + rest
    ensures s[0] == '('
    ensures s[1..1 + |f|] == f
    ensures CharFrom(s, ',', 1) == 1 + |f| && OpensName(s, 1 + |f|)
    ensures CharFrom(s, '"', 4 + |f|) == 4 + |f| + |name| && ClosesRecord(s, 4 + |f| + |name|)
    ensures s[4 + |f|..4 + |f| + |name|] == name
    ensures |s| == 8 + |f| + |name| + |rest|
  {
    var a := "(" + f;
    var b := a + ", \"";
    var c := b + name;
    var d := c + "\"), ";
    assert s == d + rest;
    assert s[..|d|] == d;
    assert d[..|c|] == c && d[|c|..] == "\"), ";
    assert c[..|b|] == b && c[|b|..] == name;
    assert b[..|a|] == a && b[|a|..] == ", \"";
    assert a[0] == '(' && a[1..] == f;
    LayoutComma(s, a, b, f);
    LayoutQuote(s, b, c, d, name);
  }

  lemma LayoutComma(s: string, a: string, b: string, f: string)
    requires |a| == 1 + |f| && a[1..] == f && |b| == |a| + 3 && b[..|a|] == a && b[|a|..] == ", \""
    requires |s| >= |b| && s[..|b|] == b
    requires forall k :: 0 <= k < |f| ==> IsDigit(f[k]) || f[k] == '-'
    ensures CharFrom(s, ',', 1) == |a| && OpensName(s, |a|)
    ensures s[1..|a|] == f
  {
    var n := |a|;
    forall j | 1 <= j < n ensures s[j] == f[j - 1] && s[j] != ',' {
      PrefixChar(s, b, j);
      PrefixChar(b, a, j);
      assert a[j] == a[1..][j - 1];
      assert IsDigit(f[j - 1]) || f[j - 1] == '-';
    }
    forall m | 0 <= m < 3 ensures s[n + m] == ", \""[m] {
      PrefixChar(s, b, n + m);
      assert b[n + m] == b[n..][m];
    }
    CharFromIs(s, ',', 1, n);
    assert s[1..n] == f;
  }

  lemma LayoutQuote(s: string, b: string, c: string, d: string, name: string)
    requires |c| == |b| + |name| && c[..|b|] == b && c[|b|..] == name && '"' !in name
    requires |d| == |c| + 4 && d[..|c|] == c && d[|c|..] == "\"), "
    requires |s| >= |d| && s[..|d|] == d
    ensures CharFrom(s, '"', |b|) == |c| && ClosesRecord(s, |c|)
    ensures s[|b|..|c|] == name
  {
    var n := |c|;
    forall j | |b| <= j < n ensures s[j] == name[j - |b|] && s[j] != '"' {
      PrefixChar(s, d, j);
      PrefixChar(d, c, j);
      assert c[j] == c[|b|..][j - |b|];
      assert name[j - |b|] in name;
    }
    var close := "\"), ";
    assert close[0] == '"' && close[1] == ')' && close[2] == ',' && close[3] == ' ';
    forall m | 0 <= m < 4 ensures s[n + m] == close[m] {
      PrefixChar(s, d, n + m);
      assert d[n + m] == d[n..][m];
    }
    assert s[n] == '"' && s[n + 1] == ')' && s[n + 2] == ',' && s[n + 3] == ' ' by {
      assert s[n] == close[0] && s[n + 1] == close[1] && s[n + 2] == close[2] && s[n + 3] == close[3];
    }
    CharFromIs(s, '"', |b|, n);
    assert s[|b|..n] == name;
  }

  /** A string that starts with `p` holds `p`'s characters. */
  lemma PrefixChar(s: string, p: string, j: nat)
    requires |p| <= |s| && s[..|p|] == p && j < |p|
    ensures s[j] == p[j]
  {
    assert s[j] == s[..|p|][j];
  }

  /** The first `c` at or after `i` is the one with none before it. */
  lemma CharFromIs(s: string, c: char, i: nat, r: nat)
    requires i <= r < |s| && s[r] == c
    requires forall j :: i <= j < r ==> s[j] != c
    ensures CharFrom(s, c, i) == r
  {
  }

  lemma ParseRecordStep(frames: int, name: string, rest: string)
    requires SafeName(name)
    ensures ParseRecords(RecordText(frames, name) + rest) ==
      (match ParseRecords(rest) case None => None case Some(t) => Some([(frames, name)] + t))
  {
    var s := RecordText(frames, name) + rest;
    ParseOneRecord(frames, name, rest);
    assert s[|RecordText(frames, name)|..] == rest;
  }

  /** Every list of records with safe names is read back from its text. */
  lemma {:induction false} ParseRecordsRoundTrip(recs: seq<(int, string)>)
    requires forall i :: 0 <= i < |recs| ==> SafeName(recs[i].1)
    ensures ParseRecords(RecordsText(recs)) == Some(recs)
    decreases |recs|
  {
    RecordsTextBothWays(recs);
    if |recs| > 0 {
      ParseRecordsRoundTrip(recs[1..]);
      RecordsTextBothWays(recs[1..]);
      ParseRecordStep(recs[0].0, recs[0].1, RecordsTextFrom(recs[1..]));
      assert [recs[0]] + recs[1..] == recs;
    }
  }

  /** What `ast.literal_eval` makes of a line of done.txt: the records tuple,
      or the bare total when no chunk has finished yet. */
  datatype DoneLiteral = TotalOnly(total: int) | RecordTuple(records: seq<(int, string)>)

  function LiteralEvalLine(line: string): (r: Result<DoneLiteral>)
    ensures r.Ok? && r.value.RecordTuple? ==> ParseRecords(line) == Some(r.value.records)
  {
    match ParseRecords(line)
    case Some(recs) =>
      if |recs| > 0 then Ok(RecordTuple(recs))
      else Err(ValueError)
    case None =>
      match PyInt(line)
      case Ok(n) => Ok(TotalOnly(n))
      case Err(_) => Err(ValueError)
  }

  /** `[line for line in f][-1]`: the last line, with its newline if it has
      one; an empty file has none (IndexError). */
  function LastLine(text: string): (r: Result<string>)
    ensures r.Err? <==> text == ""
  {
    if text == "" then Err(IndexError)
    else
      var k := RFind(text[..|text| - 1], "\n");
      Ok(text[k + 1..])
  }

  /** The file the older pipeline writes: the total, a newline, then the
      records. */
  function DoneFile(total: int, recs: seq<(int, string)>): string {
    IntToString(total) + "\n" + RecordsText(recs)
  }

  lemma {:induction false} RecordsTextNoNewline(recs: seq<(int, string)>)
    requires forall i :: 0 <= i < |recs| ==> SafeName(recs[i].1)
    ensures '\n' !in RecordsText(recs)
    decreases |recs|
  {
    if |recs| > 0 {
      RecordsTextNoNewline(recs[..|recs| - 1]);
      NumeralLacks(recs[|recs| - 1].0, '\n');
    }
  }

  lemma DoneFileLastLine(total: int, recs: seq<(int, string)>)
    requires forall i :: 0 <= i < |recs| ==> SafeName(recs[i].1)
    ensures |recs| > 0 ==> LastLine(DoneFile(total, recs)) == Ok(RecordsText(recs))
    ensures |recs| == 0 ==> LastLine(DoneFile(total, recs)) == Ok(IntToString(total) + "\n")
  {
    var t := IntToString(total);
    var body := RecordsText(recs);
    NumeralLacks(total, '\n');
    RecordsTextNoNewline(recs);
    assert DoneFile(total, recs) == t + "\n" + body;
    if |recs| > 0 {
      assert |body| > 0;
      LastLineAfter(t, body);
    } else {
      assert body == [];
      assert t + "\n" + body == t + "\n";
      LastLineOnly(t);
    }
  }

  lemma LastLineAfter(head: string, body: string)
    requires '\n' !in head && '\n' !in body && |body| > 0
    ensures LastLine(head + "\n" + body) == Ok(body)
  {
    var a := head + "\n";
    var text := a + body;
    var s := text[..|text| - 1];
    assert text[..|a|] == a && text[|a|..] == body;
    assert s[|head|] == a[|head|] == '\n';
    forall j | |a| <= j < |s| ensures s[j] != '\n' {
      assert s[j] == text[|a|..][j - |a|] == body[j - |a|];
    }
    RFindChar(s, '\n', |head|);
  }

  lemma LastLineOnly(head: string)
    requires '\n' !in head
    ensures LastLine(head + "\n") == Ok(head + "\n")
  {
    var text := head + "\n";
    var s := text[..|text| - 1];
    assert s == head;
    RFindChar(s, '\n', -1);
  }

  /** The names `get_video_queue` of pav1n.py skips on resume:
      `[x[1] for x in literal_eval(lines[-1])]`.  Iterating over the bare
      total raises TypeError. */
  function ResumeNamesAsWritten(text: string): (r: Result<seq<string>>)
  {
    var line :- LastLine(text);
    var lit :- LiteralEvalLine(line);
    match lit
    case TotalOnly(_) => Err(TypeError)
    case RecordTuple(recs) => Ok(RecordNames(recs))
  }

  function RecordNames(recs: seq<(int, string)>): (names: seq<string>)
    ensures |names| == |recs|
    ensures forall i :: 0 <= i < |recs| ==> names[i] == recs[i].1
  {
    if |recs| == 0 then [] else [recs[0].1] + RecordNames(recs[1..])
  }

  /** Resuming before the first chunk has finished: the file holds only the
      total and the as-written reader raises. */
  lemma ResumeNamesAsWrittenFailsOnFreshFile(total: int)
    ensures ResumeNamesAsWritten(DoneFile(total, [])) == Err(TypeError)
  {
    DoneFileLastLine(total, []);
    TotalLineIsTotal(total);
  }

  /** The first line of done.txt reads back as the bare total. */
  lemma TotalLineIsTotal(total: int)
    ensures LiteralEvalLine(IntToString(total) + "\n") == Ok(TotalOnly(total))
  {
    var t := IntToString(total);
    var line := t + "\n";
    assert line[0] == t[0];
    assert ParseOne(line) == None;
    assert ParseRecords(line) == None;
    assert !IsSpace(t[|t| - 1]);
    StripTrailingSpace(t, '\n');
    PyIntOfIntToString(total);
    StripNoSpace(t);
  }

  /** The reader as intended: no names before the first record. */
  function ResumeNames(text: string): (r: Result<seq<string>>)
  {
    var line :- LastLine(text);
    var lit :- LiteralEvalLine(line);
    match lit
    case TotalOnly(_) => Ok([])
    case RecordTuple(recs) => Ok(RecordNames(recs))
  }

  /** Every chunk the older `frame_check` recorded, and only those, is
      skipped on resume. */
  lemma ResumeNamesOfDoneFile(total: int, recs: seq<(int, string)>)
    requires forall i :: 0 <= i < |recs| ==> SafeName(recs[i].1)
    ensures ResumeNames(DoneFile(total, recs)) == Ok(RecordNames(recs))
  {
    DoneFileLastLine(total, recs);
    if |recs| > 0 {
      ParseRecordsRoundTrip(recs);
    } else {
      TotalLineIsTotal(total);
    }
  }
}
