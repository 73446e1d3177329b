/**
 The encoder options both front ends write into `video_params`
 (qencoder/window.py and qencoder.py), as structured values.

 Each option is printed as `--name` or `--name=value`, and the options are
 joined by single blanks.  `ParseFlag` is how an encoder's option reader
 takes a printed option apart again; the round-trip lemmas show it recovers
 every option the front ends print.  The preset-to-speed mapping the two
 front ends share (`getCPUUsed`) lives here too.
 */
module EncoderOptions {
  import opened Common
  import opened Quoting

  datatype Codec = Vp8 | Vp9
  datatype Usage = Vbr | Q

  datatype Flag =
    | Threads(n: int)
    | KfMaxDist(n: int)
    | TileColumns(n: int)
    | TileRows(n: int)
    | CpuUsed(n: int)
    | CodecIs(codec: Codec)
    | Realtime
    | Good
    | EndUsage(usage: Usage)
    | TargetBitrate(n: int)
    | CqLevel(n: int)
    | Lossless
    | BitDepth(n: int)
    | I420
    | I422
    | I444

  /** The option's name, before any `=`. */
  function Name(f: Flag): (r: string)
    ensures |r| > 2 && r[..2] == "--" && '=' !in r
  {
    match f
    case Threads(_) => "--threads"
    case KfMaxDist(_) => "--kf-max-dist"
    case TileColumns(_) => "--tile-columns"
    case TileRows(_) => "--tile-rows"
    case CpuUsed(_) => "--cpu-used"
    case CodecIs(_) => "--codec"
    case Realtime => "--rt"
    case Good => "--good"
    case EndUsage(_) => "--end-usage"
    case TargetBitrate(_) => "--target-bitrate"
    case CqLevel(_) => "--cq-level"
    case Lossless => "--lossless"
    case BitDepth(_) => "--bit-depth"
    case I420 => "--i420"
    case I422 => "--i422"
    case I444 => "--i444"
  }

  /** Every option name is one shell word that needs no quoting. */
  lemma NamePlain(f: Flag)
    ensures PlainWord(Name(f))
  {
    if f.Threads? || f.KfMaxDist? || f.TileColumns? || f.TileRows? {
      LayoutNamePlain(f);
    } else if f.CpuUsed? || f.CodecIs? || f.Realtime? || f.Good? {
      ModeNamePlain(f);
    } else if f.EndUsage? || f.TargetBitrate? || f.CqLevel? || f.Lossless? {
      RateNamePlain(f);
    } else {
      FormatNamePlain(f);
    }
  }

  lemma LayoutNamePlain(f: Flag)
    requires f.Threads? || f.KfMaxDist? || f.TileColumns? || f.TileRows?
    ensures PlainWord(Name(f))
  {
  }

  lemma ModeNamePlain(f: Flag)
    requires f.CpuUsed? || f.CodecIs? || f.Realtime? || f.Good?
    ensures PlainWord(Name(f))
  {
  }

  lemma RateNamePlain(f: Flag)
    requires f.EndUsage? || f.TargetBitrate? || f.CqLevel? || f.Lossless?
    ensures PlainWord(Name(f))
  {
  }

  lemma FormatNamePlain(f: Flag)
    requires f.BitDepth? || f.I420? || f.I422? || f.I444?
    ensures PlainWord(Name(f))
  {
  }

  function CodecName(c: Codec): string {
    if c == Vp8 then "vp8" else "vp9"
  }

  function UsageName(u: Usage): string {
    if u == Vbr then "vbr" else "q"
  }

  /** The option's value, after the `=`, for the options that carry one. */
  function Value(f: Flag): (r: Option<string>)
    ensures r.Some? ==> PlainWord(r.value)
  {
    match f
    case Threads(n) => NumeralPlain(n); Some(IntToString(n))
    case KfMaxDist(n) => NumeralPlain(n); Some(IntToString(n))
    case TileColumns(n) => NumeralPlain(n); Some(IntToString(n))
    case TileRows(n) => NumeralPlain(n); Some(IntToString(n))
    case CpuUsed(n) => NumeralPlain(n); Some(IntToString(n))
    case CodecIs(c) => Some(CodecName(c))
    case EndUsage(u) => Some(UsageName(u))
    case TargetBitrate(n) => NumeralPlain(n); Some(IntToString(n))
    case CqLevel(n) => NumeralPlain(n); Some(IntToString(n))
    case Lossless => Some("1")
    case BitDepth(n) => NumeralPlain(n); Some(IntToString(n))
    case _ => None
  }

  /** The option as printed: `--name` or `--name=value`. */
  function FlagText(f: Flag): (t: string)
    ensures |t| > 0 && PlainWord(t)
  {
    match Value(f)
    case None => NamePlain(f); Name(f)
    case Some(v) =>
      NamePlain(f);
      PlainWordAppend(Name(f), "=");
      PlainWordAppend(Name(f) + "=", v);
      Name(f) + "=" + v
  }

  function FlagTexts(fs: seq<Flag>): (ts: seq<string>)
    ensures |ts| == |fs|
    ensures forall k :: 0 <= k < |fs| ==> ts[k] == FlagText(fs[k])
  {
    if |fs| == 0 then [] else [FlagText(fs[0])] + FlagTexts(fs[1..])
  }

  /** Options printed one after the other, separated by single blanks. */
  function Render(fs: seq<Flag>): string {
    Join(" ", FlagTexts(fs))
  }

  /** A shell splits rendered options back into the printed options. */
  lemma RenderTokens(fs: seq<Flag>)
    ensures Tokens(Render(fs)) == Some(FlagTexts(fs))
  {
    JoinTokens(FlagTexts(fs));
  }

  // ---------------------------------------------------------------------------
  // Reading an option back

  /** `t.partition("=")`: the text before the first `=` and, when there is
      one, the text after it. */
  function Partition(t: string): (string, Option<string>) {
    if |t| == 0 then ("", None)
    else if t[0] == '=' then ("", Some(t[1..]))
    else
      var (a, b) := Partition(t[1..]);
      ([t[0]] + a, b)
  }

  lemma {:induction false} PartitionAt(a: string, b: string)
    requires '=' !in a
    ensures Partition(a + "=" + b) == (a, Some(b))
  {
    var t := a + "=" + b;
    if |a| == 0 {
      assert t[1..] == b;
    } else {
      assert t[0] == a[0];
      assert t[1..] == a[1..] + "=" + b;
      PartitionAt(a[1..], b);
      assert [a[0]] + a[1..] == a;
    }
  }

  lemma {:induction false} PartitionNone(a: string)
    requires '=' !in a
    ensures Partition(a) == (a, None)
  {
    if |a| > 0 {
      PartitionNone(a[1..]);
      assert [a[0]] + a[1..] == a;
    }
  }

  /** The option an encoder reads from one word, if the word is one of the
      options above; numbers are read as `int()` reads them. */
  function ParseFlag(t: string): Option<Flag> {
    var (name, value) := Partition(t);
    match value
    case None =>
      if name == "--rt" then Some(Realtime)
      else if name == "--good" then Some(Good)
      else if name == "--i420" then Some(I420)
      else if name == "--i422" then Some(I422)
      else if name == "--i444" then Some(I444)
      else None
    case Some(v) =>
      if name == "--codec" then
        (if v == "vp8" then Some(CodecIs(Vp8)) else if v == "vp9" then Some(CodecIs(Vp9)) else None)
      else if name == "--end-usage" then
        (if v == "vbr" then Some(EndUsage(Vbr)) else if v == "q" then Some(EndUsage(Q)) else None)
      else if name == "--lossless" then
        (if v == "1" then Some(Lossless) else None)
      else
        match PyInt(v)
        case Err(_) => None
        case Ok(n) => NumberFlag(name, n)
  }

  function NumberFlag(name: string, n: int): Option<Flag> {
    if name == "--threads" then Some(Threads(n))
    else if name == "--kf-max-dist" then Some(KfMaxDist(n))
    else if name == "--tile-columns" then Some(TileColumns(n))
    else if name == "--tile-rows" then Some(TileRows(n))
    else if name == "--cpu-used" then Some(CpuUsed(n))
    else if name == "--target-bitrate" then Some(TargetBitrate(n))
    else if name == "--cq-level" then Some(CqLevel(n))
    else if name == "--bit-depth" then Some(BitDepth(n))
    else None
  }

  /** Round trip: every printed option reads back as itself. */
  lemma ParseFlagText(f: Flag)
    ensures ParseFlag(FlagText(f)) == Some(f)
  {
    if Value(f).None? {
      BareFlagText(f);
    } else if f.CodecIs? || f.EndUsage? || f.Lossless? {
      WordFlagText(f);
    } else {
      NumberFlagText(f);
    }
  }

  lemma BareFlagText(f: Flag)
    requires Value(f).None?
    ensures ParseFlag(FlagText(f)) == Some(f)
  {
    PartitionNone(Name(f));
  }

  lemma WordFlagText(f: Flag)
    requires f.CodecIs? || f.EndUsage? || f.Lossless?
    ensures ParseFlag(FlagText(f)) == Some(f)
  {
    match f
    case CodecIs(c) => PartitionAt(Name(f), CodecName(c));
    case EndUsage(u) => PartitionAt(Name(f), UsageName(u));
    case Lossless => PartitionAt(Name(f), "1");
  }

  lemma NumberFlagText(f: Flag)
    requires Value(f).Some? && !(f.CodecIs? || f.EndUsage? || f.Lossless?)
    ensures ParseFlag(FlagText(f)) == Some(f)
  {
    if f.Threads? || f.KfMaxDist? || f.TileColumns? || f.TileRows? {
      LayoutFlagText(f);
    } else {
      RateFlagText(f);
    }
  }

  lemma LayoutFlagText(f: Flag)
    requires f.Threads? || f.KfMaxDist? || f.TileColumns? || f.TileRows?
    ensures ParseFlag(FlagText(f)) == Some(f)
  {
    match f
    case Threads(n) => NumberText(Name(f), n);
    case KfMaxDist(n) => NumberText(Name(f), n);
    case TileColumns(n) => NumberText(Name(f), n);
    case TileRows(n) => NumberText(Name(f), n);
  }

  lemma RateFlagText(f: Flag)
    requires f.CpuUsed? || f.TargetBitrate? || f.CqLevel? || f.BitDepth?
    ensures ParseFlag(FlagText(f)) == Some(f)
  {
    match f
    case CpuUsed(n) =>
      assert FlagText(f) == "--cpu-used" + "=" + IntToString(n);
      NumberText("--cpu-used", n);
    case TargetBitrate(n) =>
      assert FlagText(f) == "--target-bitrate" + "=" + IntToString(n);
      NumberText("--target-bitrate", n);
    case CqLevel(n) =>
      assert FlagText(f) == "--cq-level" + "=" + IntToString(n);
      NumberText("--cq-level", n);
    case BitDepth(n) =>
      assert FlagText(f) == "--bit-depth" + "=" + IntToString(n);
      NumberText("--bit-depth", n);
  }

  lemma NumberText(name: string, n: int)
    requires '=' !in name && name != "--codec" && name != "--end-usage" && name != "--lossless"
    ensures ParseFlag(name + "=" + IntToString(n)) == NumberFlag(name, n)
  {
    PartitionAt(name, IntToString(n));
    PyIntOfIntToString(n);
  }

  function ParseFlags(ts: seq<string>): seq<Option<Flag>> {
    if |ts| == 0 then [] else [ParseFlag(ts[0])] + ParseFlags(ts[1..])
  }

  function Present(fs: seq<Flag>): seq<Option<Flag>> {
    if |fs| == 0 then [] else [Some(fs[0])] + Present(fs[1..])
  }

  /** Reading the printed options back gives the options, in order. */
  lemma {:induction false} ParseFlagTexts(fs: seq<Flag>)
    ensures ParseFlags(FlagTexts(fs)) == Present(fs)
  {
    if |fs| > 0 {
      ParseFlagText(fs[0]);
      assert FlagTexts(fs)[1..] == FlagTexts(fs[1..]);
      ParseFlagTexts(fs[1..]);
    }
  }

  // ---------------------------------------------------------------------------
  // getCPUUsed: the speed preset behind the "Preset" box

  /** `int(x)` for a float: truncation toward zero. */
  function Trunc(x: real): (r: int)
    ensures x >= 0.0 ==> 0 <= r && r as real <= x < r as real + 1.0
    ensures x < 0.0 ==> r <= 0 && r as real - 1.0 < x <= r as real
  {
    if x >= 0.0 then x.Floor else -((-x).Floor)
  }

  lemma TruncOdd(x: real)
    ensures Trunc(-x) == -Trunc(x)
  {
  }

  lemma TruncMonotone(x: real, y: real)
    requires x <= y
    ensures Trunc(x) <= Trunc(y)
  {
  }

  /**
   `getCPUUsed()`: preset index 9 is "custom" and keeps the speed box's value;
   otherwise aomenc (encoder 0) takes `8 - preset`, and vpxenc scales the
   preset's distance from the middle preset 4 by 2.25 for VP9 (encoder 1)
   and 4.125 for VP8 (encoder 2).  Both factors and every product with a
   small integer are exact binary floats, so the real product is the float
   product.
   */
  function PresetSpeed(preset: int, encoder: int, speedBox: int): (r: int)
    ensures preset == 9 ==> r == speedBox
    ensures preset != 9 && encoder == 0 ==> r == 8 - preset
    ensures 0 <= preset <= 8 && encoder == 1 ==> -9 <= r <= 9
    ensures 0 <= preset <= 8 && encoder == 2 ==> -16 <= r <= 16
    ensures preset != 9 && !(0 <= encoder <= 2) ==> r == 0
  {
    if preset == 9 then speedBox
    else if encoder == 0 then 8 - preset
    else if encoder == 1 then -Trunc((preset - 4) as real * 2.25)
    else if encoder == 2 then -Trunc((preset - 4) as real * 4.125)
    else 0
  }

  /** The nine presets of each encoder, slowest first. */
  lemma PresetSpeedTable()
    ensures forall p :: 0 <= p <= 8 ==> PresetSpeed(p, 0, 0) == [8, 7, 6, 5, 4, 3, 2, 1, 0][p]
    ensures forall p :: 0 <= p <= 8 ==> PresetSpeed(p, 1, 0) == [9, 6, 4, 2, 0, -2, -4, -6, -9][p]
    ensures forall p :: 0 <= p <= 8 ==> PresetSpeed(p, 2, 0) == [16, 12, 8, 4, 0, -4, -8, -12, -16][p]
  {
    forall p | 0 <= p <= 8
      ensures PresetSpeed(p, 1, 0) == [9, 6, 4, 2, 0, -2, -4, -6, -9][p]
      ensures PresetSpeed(p, 2, 0) == [16, 12, 8, 4, 0, -4, -8, -12, -16][p]
    {
      if p == 0 {
      } else if p == 1 {
      } else if p == 2 {
      } else if p == 3 {
      } else if p == 4 {
      } else if p == 5 {
      } else if p == 6 {
      } else if p == 7 {
      } else {
      }
    }
  }

  /** A later preset index never gives a higher `--cpu-used` value, for any
      of the three encoders. */
  lemma PresetSpeedMonotone(p1: int, p2: int, encoder: int)
    requires 0 <= p1 <= p2 <= 8 && 0 <= encoder <= 2
    ensures PresetSpeed(p2, encoder, 0) <= PresetSpeed(p1, encoder, 0)
  {
    if encoder == 1 {
      TruncMonotone((p1 - 4) as real * 2.25, (p2 - 4) as real * 2.25);
    } else if encoder == 2 {
      TruncMonotone((p1 - 4) as real * 4.125, (p2 - 4) as real * 4.125);
    }
  }

  /** vpxenc's presets are symmetric about the middle preset. */
  lemma PresetSpeedSymmetric(p: int, encoder: int)
    requires 0 <= p <= 8 && (encoder == 1 || encoder == 2)
    ensures PresetSpeed(8 - p, encoder, 0) == -PresetSpeed(p, encoder, 0)
  {
    var k := if encoder == 1 then 2.25 else 4.125;
    assert (8 - p - 4) as real * k == -((p - 4) as real * k);
    TruncOdd((p - 4) as real * k);
  }
}
