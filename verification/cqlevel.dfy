/**
 Rewriting the quantizer of an encoder command: `man_cq` (qencoder/pav1n.py),
 the brightness boost of the older pipeline (`boost` in pav1n.py) and the two
 places that apply them to a queued job (`encode` in both files).

 The value sits in the two characters after `--cq-level=`; the rewrite keeps
 everything up to the flag, puts `str(cq)` in place of those two characters
 and keeps the rest.  Python's `str.find` answers -1 when the flag is
 missing, so the same slicing then cuts at 10 and 12.
 */
module CqLevel {
  import opened Common
  import opened EncodeJobs

  const CqFlag := "--cq-level="

  /** Where the two-character value starts: `command.find(mt) + 11`. */
  function ValueStart(command: string): int {
    Find(command, CqFlag) + |CqFlag|
  }

  /** `man_cq(command, cq)` */
  function ManCq(command: string, cq: int): string {
    var v := ValueStart(command);
    PyPrefix(command, v) + IntToString(cq) + PySuffix(command, v + 2)
  }

  /** The quantizer currently in a command: `int(command[v:v + 2])`. */
  function ParseCq(command: string): Result<int> {
    var v := ValueStart(command);
    PyInt(PySlice(command, v, v + 2))
  }

  /** Overwriting a prefix that holds the first occurrence keeps it first. */
  lemma FindKeepsPrefix(s: string, t: string, pat: string)
    requires Contains(s, pat)
    requires Find(s, pat) + |pat| <= |t|
    requires t[..Find(s, pat) + |pat|] == s[..Find(s, pat) + |pat|]
    ensures Find(t, pat) == Find(s, pat)
  {
    var f := Find(s, pat);
    var n := f + |pat|;
    SameWindow(s, t, n, f, |pat|);
    assert OccursAt(t, pat, f);
    forall j | 0 <= j < f
      ensures !OccursAt(t, pat, j)
    {
      SameWindow(s, t, n, j, |pat|);
      assert !OccursAt(s, pat, j);
    }
    assert Contains(t, pat);
  }

  /** Two strings that agree up to `n` agree on every window inside it. */
  lemma SameWindow(s: string, t: string, n: nat, j: nat, m: nat)
    requires n <= |s| && n <= |t| && t[..n] == s[..n]
    requires j + m <= n
    ensures t[j..j + m] == s[j..j + m]
  {
    assert t[j..j + m] == t[..n][j..j + m];
    assert s[j..j + m] == s[..n][j..j + m];
  }

  /** With the flag present, the rewrite is a splice at the value's position:
      the text up to and including the flag is kept, `str(cq)` follows, and
      the command resumes two characters later; the flag is still found at the
      same place. */
  lemma ManCqSplice(command: string, cq: int)
    requires Contains(command, CqFlag)
    ensures var v := ValueStart(command);
      var r := ManCq(command, cq);
      && v <= |command|
      && r == command[..v] + IntToString(cq) + (if v + 2 <= |command| then command[v + 2..] else [])
      && ValueStart(r) == v
  {
    var v := ValueStart(command);
    var r := ManCq(command, cq);
    assert PyPrefix(command, v) == command[..v];
    if v + 2 <= |command| {
      assert PySuffix(command, v + 2) == command[v + 2..];
    }
    assert r[..v] == command[..v];
    FindKeepsPrefix(command, r, CqFlag);
  }

  /** Without the flag, `find` answers -1 and the characters at 10 and 11
      are replaced. */
  lemma ManCqAbsent(command: string, cq: int)
    requires !Contains(command, CqFlag)
    ensures ManCq(command, cq) == PyPrefix(command, 10) + IntToString(cq) + PySuffix(command, 12)
    ensures ParseCq(command) == PyInt(PySlice(command, 10, 12))
  {
  }

  /** A two-digit quantizer written by `man_cq` is read back by `boost`. */
  lemma ParseManCq(command: string, cq: int)
    requires Contains(command, CqFlag)
    requires 10 <= cq <= 99
    ensures ParseCq(ManCq(command, cq)) == Ok(cq)
  {
    var v := ValueStart(command);
    var r := ManCq(command, cq);
    ManCqSplice(command, cq);
    var s := IntToString(cq);
    assert |s| == 2;
    assert r[v..v + 2] == s;
    PyIntOfIntToString(cq);
  }

  /** Rewriting twice is rewriting once with the second value, as long as the
      first one was two digits wide. */
  lemma ManCqOverwrite(command: string, q1: int, q2: int)
    requires Contains(command, CqFlag)
    requires 10 <= q1 <= 99
    ensures ManCq(ManCq(command, q1), q2) == ManCq(command, q2)
  {
    var v := ValueStart(command);
    var r1 := ManCq(command, q1);
    ManCqSplice(command, q1);
    ManCqSplice(command, q2);
    assert OccursAt(r1, CqFlag, v - |CqFlag|);
    ManCqSplice(r1, q2);
    var rest := if v + 2 <= |command| then command[v + 2..] else [];
    assert r1 == command[..v] + IntToString(q1) + rest;
    assert r1[..v] == command[..v];
    assert r1[v + 2..] == rest;
  }

  /** Writing back the value that is already there, spelt as `str` spells it,
      leaves the command as it was. */
  lemma ManCqOfCurrent(command: string, cq: int)
    requires Contains(command, CqFlag)
    requires ValueStart(command) + 2 <= |command|
    requires command[ValueStart(command)..ValueStart(command) + 2] == IntToString(cq)
    ensures ManCq(command, cq) == command
  {
    var v := ValueStart(command);
    var w := IntToString(cq);
    ManCqSplice(command, cq);
    assert ManCq(command, cq) == command[..v] + w + command[v + 2..];
    Resplice(command, v, v + 2, w);
  }

  /** Putting back the slice that was cut out gives the string back. */
  lemma Resplice(s: string, i: int, j: int, w: string)
    requires 0 <= i <= j <= |s| && s[i..j] == w
    ensures s[..i] + w + s[j..] == s
  {
    assert s == s[..i] + s[i..j] + s[j..];
  }

  // ---------------------------------------------------------------------------
  // The brightness boost of pav1n.py

  /** How far a chunk of average brightness `brGeom` lowers the quantizer:
      `round((128 - br_geom) / 128 * br)`. */
  function BoostOffset(brGeom: real, br: int): int {
    RoundHalfEven((128.0 - brGeom) / 128.0 * br as real)
  }

  /** The quantizer `boost` settles on: a non-zero `new_cq` is taken as it is;
      otherwise dark chunks (`br_geom < 128`) get the current value lowered by
      the offset but not below the floor `bl`, and bright ones keep it. */
  function BoostedCq(cq: int, brGeom: real, br: int, bl: int, newCq: int): (q: int)
    ensures newCq != 0 ==> q == newCq
    ensures newCq == 0 && brGeom >= 128.0 ==> q == cq
    ensures newCq == 0 && brGeom < 128.0 ==> q >= bl && (q == bl || q == cq - BoostOffset(brGeom, br))
  {
    if newCq != 0 then newCq
    else if brGeom < 128.0 then
      var q := cq - BoostOffset(brGeom, br);
      if q < bl then bl else q
    else cq
  }

  /** A non-negative strength never raises the quantizer above the current
      one, except to reach the floor. */
  lemma BoostNeverRaises(cq: int, brGeom: real, br: int, bl: int)
    requires br >= 0
    ensures var q := BoostedCq(cq, brGeom, br, bl, 0); q <= cq || q == bl
  {
    if brGeom < 128.0 {
      var t := (128.0 - brGeom) / 128.0 * br as real;
      ScaleMonotone(0.0, (128.0 - brGeom) / 128.0, br as real);
      assert 0.0 <= t;
      RoundMonotone(0.0, t);
      RoundNearest(0.0, 0);
      assert BoostOffset(brGeom, br) >= 0;
    }
  }

  /** For brightness in [0, 128) the quantizer drops by at most `br`. */
  lemma BoostAtMostStrength(cq: int, brGeom: real, br: int, bl: int)
    requires 0.0 <= brGeom < 128.0 && br >= 0
    ensures BoostedCq(cq, brGeom, br, bl, 0) >= cq - br
  {
    var f := (128.0 - brGeom) / 128.0;
    var t := f * br as real;
    assert f <= 1.0;
    ScaleMonotone(f, 1.0, br as real);
    assert t <= br as real;
    RoundMonotone(t, br as real);
    RoundNearest(br as real, br);
  }

  /** Scaling by a non-negative strength keeps the order of two factors. */
  lemma ScaleMonotone(x: real, y: real, c: real)
    requires x <= y && c >= 0.0
    ensures x * c <= y * c
  {
    assert y * c - x * c == (y - x) * c;
  }

  /** A darker chunk never ends up with a higher quantizer. */
  lemma BoostMonotone(cq: int, b1: real, b2: real, br: int, bl: int)
    requires b1 <= b2 < 128.0 && br >= 0
    ensures BoostedCq(cq, b1, br, bl, 0) <= BoostedCq(cq, b2, br, bl, 0)
  {
    var t1 := (128.0 - b1) / 128.0 * br as real;
    var t2 := (128.0 - b2) / 128.0 * br as real;
    ScaleMonotone((128.0 - b2) / 128.0, (128.0 - b1) / 128.0, br as real);
    RoundMonotone(t2, t1);
  }

  /** The command and quantizer `boost` hands back. */
  datatype Boosted = Boosted(command: string, cq: int)

  /** `boost(command, br_geom, new_cq)` with the strength `br` and floor
      `bl`.  The current value is parsed first, so a command whose two
      characters after the flag are not an integer raises ValueError even
      when `new_cq` is given. */
  function Boost(command: string, brGeom: real, br: int, bl: int, newCq: int): (r: Result<Boosted>)
    ensures r.Ok? <==> ParseCq(command).Ok?
    ensures r.Err? ==> r.error == ValueError
    ensures r.Ok? ==> r.value.cq == BoostedCq(ParseCq(command).value, brGeom, br, bl, newCq)
    ensures r.Ok? ==> r.value.command == ManCq(command, r.value.cq)
  {
    var cq :- ParseCq(command);
    var q := BoostedCq(cq, brGeom, br, bl, newCq);
    Ok(Boosted(ManCq(command, q), q))
  }

  /** The boosted command carries the new quantizer, readable by the next
      `boost`, and differs from the input only in the two characters after
      the flag. */
  lemma BoostWritesCq(command: string, brGeom: real, br: int, bl: int, newCq: int)
    requires Contains(command, CqFlag)
    requires Boost(command, brGeom, br, bl, newCq).Ok?
    requires 10 <= Boost(command, brGeom, br, bl, newCq).value.cq <= 99
    ensures var b := Boost(command, brGeom, br, bl, newCq).value;
      var v := ValueStart(command);
      && ParseCq(b.command) == Ok(b.cq)
      && |b.command| == (if v + 2 <= |command| then |command| else v + 2)
      && b.command[..v] == command[..v]
      && b.command[v..v + 2] == IntToString(b.cq)
      && (v + 2 <= |command| ==> b.command[v + 2..] == command[v + 2..])
  {
    var b := Boost(command, brGeom, br, bl, newCq).value;
    ManCqSplice(command, b.cq);
    ParseManCq(command, b.cq);
  }

  /** The encoding step of pav1n.py: boost pass 1, then boost pass 2 with the
      quantizer chosen for pass 1.  With any pass count other than 2 the
      source concatenates a string with a tuple (TypeError). */
  function BoostLegacyJob(job: LegacyJob, passes: int, brGeom: real, br: int, bl: int): (r: Result<LegacyJob>)
    ensures r.Ok? ==> passes == 2
    ensures passes == 2 && ParseCq(job.pass1).Ok? && ParseCq(job.pass2).Ok? ==> r.Ok?
    ensures ParseCq(job.pass1).Err? ==> r == Err(ValueError)
    ensures r.Ok? ==> r.value.source == job.source && r.value.target == job.target
    ensures r.Ok? ==> r.value.pass1 == ManCq(job.pass1, BoostedCq(ParseCq(job.pass1).value, brGeom, br, bl, 0))
  {
    var b0 :- Boost(job.pass1, brGeom, br, bl, 0);
    if passes != 2 then Err(TypeError)
    else
      var b1 :- Boost(job.pass2, brGeom, br, bl, b0.cq);
      Ok(job.(pass1 := b0.command, pass2 := b1.command))
  }

  /** Both passes end up with the same quantizer: the one `boost` chose for
      pass 1, reused verbatim for pass 2 (a chosen value of 0 is falsy in
      Python and would be recomputed, but it is not two digits wide). */
  lemma BoostLegacyJobSameCq(job: LegacyJob, brGeom: real, br: int, bl: int)
    requires Contains(job.pass1, CqFlag) && Contains(job.pass2, CqFlag)
    requires BoostLegacyJob(job, 2, brGeom, br, bl).Ok?
    requires 10 <= BoostedCq(ParseCq(job.pass1).value, brGeom, br, bl, 0) <= 99
    ensures var q := BoostedCq(ParseCq(job.pass1).value, brGeom, br, bl, 0);
      var j := BoostLegacyJob(job, 2, brGeom, br, bl).value;
      ParseCq(j.pass1) == Ok(q) && ParseCq(j.pass2) == Ok(q)
  {
    var q := BoostedCq(ParseCq(job.pass1).value, brGeom, br, bl, 0);
    var b1 := Boost(job.pass2, brGeom, br, bl, q);
    assert b1.Ok? && b1.value.cq == q;
    ParseManCq(job.pass1, q);
    ParseManCq(job.pass2, q);
  }

  // ---------------------------------------------------------------------------
  // Target-quality rewrite of qencoder/pav1n.py

  /** The quantizer found by the target-quality search written into a queued
      job: both commands of a two-pass job; a one-pass job reaches the
      string-plus-tuple concatenation and raises TypeError. */
  function ApplyTargetCq(job: EncodeJob, cq: int): (r: Result<EncodeJob>)
    ensures r.Ok? <==> job.TwoPass?
    ensures r.Err? ==> r.error == TypeError
    ensures r.Ok? ==>
      r.value.TwoPass? && r.value.index == job.index && r.value.source == job.source && r.value.target == job.target
    ensures r.Ok? ==> r.value.pass1 == ManCq(job.pass1, cq) && r.value.pass2 == ManCq(job.pass2, cq)
  {
    match job
    case OnePass(_, _, _, _) => Err(TypeError)
    case TwoPass(p1, p2, i, s, t) => Ok(TwoPass(ManCq(p1, cq), ManCq(p2, cq), i, s, t))
  }

  /** After the rewrite both passes carry the target quantizer, and
      applying the same quantizer again changes nothing. */
  lemma ApplyTargetCqSettles(job: EncodeJob, cq: int)
    requires job.TwoPass? && Contains(job.pass1, CqFlag) && Contains(job.pass2, CqFlag)
    requires 10 <= cq <= 99
    ensures var j := ApplyTargetCq(job, cq).value;
      && ParseCq(j.pass1) == Ok(cq) && ParseCq(j.pass2) == Ok(cq)
      && ApplyTargetCq(j, cq) == Ok(j)
  {
    ParseManCq(job.pass1, cq);
    ParseManCq(job.pass2, cq);
    ManCqOverwrite(job.pass1, cq, cq);
    ManCqOverwrite(job.pass2, cq, cq);
  }
}
