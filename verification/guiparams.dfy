/**
 The pure helpers of the current front end (qencoder/window.py), lifted to
 functions over a record of widget values: the preset tables, the colour
 options, the ffmpeg filter, video and audio parameter strings, the argument
 dictionary handed to the pipeline, the queue moves and the mode check done
 when a preset is loaded.
 */
module GuiParams {
  import opened Common
  import opened Quoting
  import opened Paths
  import opened EncoderOptions
  import opened Av1anArgs

  /** What the helpers read from the window's widgets. Encoder index 0 is
      aomenc (AV1), 1 is vpxenc for VP9, 2 vpxenc for VP8. */
  datatype Widgets = Widgets(
    encoder: int,
    preset: int,
    speed: int,
    colorspace: int,
    colorText: string,
    quality: int,
    bitrateMode: bool,
    threads: int,
    maxKfDist: int,
    realtime: bool,
    hdr: bool,
    inputFormat: int,
    inputFormatText: string,
    customVideo: bool,
    videoCmd: string,
    customAudio: bool,
    audioCmd: string,
    audio: bool,
    audioBitrate: int,
    customFfmpeg: bool,
    ffmpegCmd: string,
    cropping: bool,
    cropTop: int,
    cropDown: int,
    cropLeft: int,
    cropRight: int,
    rescale: bool,
    xres: int,
    yres: int,
    jobs: int,
    splitThreshold: int,
    twoPass: bool,
    resume: bool,
    keepTemp: bool,
    minSplit: bool,
    minSplitSize: int,
    vmaf: bool,
    vmafSteps: int,
    minQ: int,
    maxQ: int,
    vmafTarget: real,
    vmafPath: string,
    betterSplit: bool,
    unsafeSplit: bool,
    boost: int,
    inputPath: string,
    outputPath: string)

  // ---------------------------------------------------------------------------
  // Preset tables

  /** `qualitydict`: the CQ level of each quality preset, best quality last. */
  const QualityTable: seq<int> := [40, 36, 32, 28, 26, 24, 20, 10, 0]

  /** `audiobitratedict`: the kbit/s of each audio preset. */
  const AudioTable: seq<int> := [24, 32, 64, 76, 96, 128, 160, 250]

  /** `getQuality(qval)`: indices below 9 are looked up in the table (a
      negative index is not a key of it), index 9 and above keep the spin box. */
  function Quality(qval: int, spin: int): (r: Result<int>)
    ensures 0 <= qval < 9 ==> r == Ok(QualityTable[qval])
    ensures qval < 0 ==> r == Err(KeyError)
    ensures qval >= 9 ==> r == Ok(spin)
  {
    if qval < 9 then
      if qval < 0 then Err(KeyError) else Ok(QualityTable[qval])
    else Ok(spin)
  }

  /** `getAudioBitrate(iindex)`, the same rule over eight presets. */
  function AudioBitrate(index: int, spin: int): (r: Result<int>)
    ensures 0 <= index < 8 ==> r == Ok(AudioTable[index])
    ensures index < 0 ==> r == Err(KeyError)
    ensures index >= 8 ==> r == Ok(spin)
  {
    if index < 8 then
      if index < 0 then Err(KeyError) else Ok(AudioTable[index])
    else Ok(spin)
  }

  /** A later quality preset always asks for a strictly lower CQ level, that
      is, better quality. */
  lemma QualityPresetsDescend(i: int, j: int, spin: int)
    requires 0 <= i < j <= 8
    ensures Quality(j, spin).value < Quality(i, spin).value
  {
  }

  /** A later audio preset always asks for a strictly higher bitrate. */
  lemma AudioPresetsAscend(i: int, j: int, spin: int)
    requires 0 <= i < j <= 7
    ensures AudioBitrate(i, spin).value < AudioBitrate(j, spin).value
  {
  }

  // ---------------------------------------------------------------------------
  // Colour options

  /** `colorspacedict`: per colour space, the aomenc and the vpxenc options. */
  const ColorSpaces: seq<seq<string>> := [
    ["", "--color-space=unknown"],
    ["--color-primaries=bt709 --transfer-characteristics=bt709 --matrix-coefficients=bt709", "--color-space=bt709"],
    ["--color-primaries=bt601 --transfer-characteristics=bt601 --matrix-coefficients=bt601", "--color-space=bt601"],
    ["--color-primaries=bt2020 --transfer-characteristics=smpte2084 --matrix-coefficients=bt2020ncl", "--color-space=bt2020"]
  ]

  /** `getColorData()`: colour space 4 is "custom" and keeps the text box;
      VP8 takes no colour options; otherwise the table entry for the
      encoder.  A colour space outside the table's keys raises `KeyError`,
      an encoder index outside the two-element row raises `IndexError`, and
      a negative one counts from the end of the row, as Python lists do. */
  function ColorData(colorspace: int, encoder: int, text: string): (r: Result<string>)
    ensures colorspace == 4 ==> r == Ok(text)
    ensures colorspace != 4 && encoder == 2 ==> r == Ok("")
    ensures 0 <= colorspace <= 3 && 0 <= encoder <= 1 ==> r == Ok(ColorSpaces[colorspace][encoder])
    ensures !(0 <= colorspace <= 4) && encoder != 2 ==> r == Err(KeyError)
  {
    if colorspace == 4 then Ok(text)
    else if encoder == 2 then Ok("")
    else if !(0 <= colorspace <= 3) then Err(KeyError)
    else if !(-2 <= encoder < 2) then Err(IndexError)
    else Ok(ColorSpaces[colorspace][if encoder < 0 then encoder + 2 else encoder])
  }

  // ---------------------------------------------------------------------------
  // The ffmpeg filter

  /** A crop takes effect only when some edge is cropped by a positive amount. */
  predicate Crops(w: Widgets) {
    w.cropping && (w.cropDown > 0 || w.cropRight > 0 || w.cropTop > 0 || w.cropLeft > 0)
  }

  /** `crop=iw-(l+r):ih-(t+b):l:t` */
  function CropFilter(w: Widgets): string {
    "crop=iw-" + IntToString(w.cropRight + w.cropLeft) + ":ih-" + IntToString(w.cropTop + w.cropDown)
      + ":" + IntToString(w.cropLeft) + ":" + IntToString(w.cropTop)
  }

  function ScaleFilter(w: Widgets): string {
    "scale=" + IntToString(w.xres) + ":" + IntToString(w.yres)
  }

  /** The filters the user asked for, in the order ffmpeg applies them. */
  function Filters(w: Widgets): (fs: seq<string>)
    ensures |fs| == (if Crops(w) then 1 else 0) + (if w.rescale then 1 else 0)
  {
    (if Crops(w) then [CropFilter(w)] else []) + (if w.rescale then [ScaleFilter(w)] else [])
  }

  /** `getFFMPEGParams()`: the custom text, or `-filter:v "<filters>"`
      with the filters joined by commas (the quote is opened by the first
      filter and closed after the last), or nothing. */
  function FfmpegParams(w: Widgets): (r: string)
    ensures w.customFfmpeg ==> r == w.ffmpegCmd
    ensures !w.customFfmpeg && !Crops(w) && !w.rescale ==> r == ""
    ensures !w.customFfmpeg && (Crops(w) || w.rescale) ==> |r| > 0 && r[|r| - 1] == '"'
  {
    if w.customFfmpeg then w.ffmpegCmd
    else if |Filters(w)| == 0 then ""
    else "-filter:v \"" + Join(",", Filters(w)) + "\""
  }

  /** The shell hands ffmpeg the filter chain as the single argument after
      `-filter:v`, crop before scale, or nothing at all. */
  lemma FfmpegParamsTokens(w: Widgets)
    requires !w.customFfmpeg
    ensures Tokens(FfmpegParams(w)) == Some(if |Filters(w)| == 0 then [] else ["-filter:v", Join(",", Filters(w))])
  {
    if |Filters(w)| > 0 {
      FiltersDouble(w);
      FilterOptionTokens(Join(",", Filters(w)));
    }
  }

  lemma FilterOptionTokens(chain: string)
    requires DoubleWord(chain)
    ensures Tokens("-filter:v \"" + chain + "\"") == Some(["-filter:v", chain])
  {
    var opt, arg := "-filter:v", "\"" + chain + "\"";
    FilterOpening(chain);
    DoubleQuotedTokens(chain);
    assert PlainWord(opt);
    PlainWordTokens(opt);
    TokensAppend(opt, arg, [opt], [chain]);
    assert [opt] + [chain] == [opt, chain];
  }

  lemma FilterOpening(chain: string)
    ensures "-filter:v \"" + chain + "\"" == "-filter:v" + " " + ("\"" + chain + "\"")
  {
    assert "-filter:v \"" == "-filter:v" + " " + "\"";
    ConcatAssoc("-filter:v" + " ", "\"", chain);
    ConcatAssoc("-filter:v" + " ", "\"" + chain, "\"");
  }

  /** The chain needs no escaping between double quotes. */
  lemma FiltersDouble(w: Widgets)
    requires |Filters(w)| > 0
    ensures DoubleWord(Join(",", Filters(w)))
  {
    var fs := Filters(w);
    if Crops(w) {
      CropDouble(w);
    }
    if w.rescale {
      ScaleDouble(w);
    }
    if Crops(w) && w.rescale {
      assert fs == [CropFilter(w), ScaleFilter(w)];
      assert Join(",", fs) == CropFilter(w) + "," + Join(",", [ScaleFilter(w)]);
      DoubleAppend(CropFilter(w), ",");
      DoubleAppend(CropFilter(w) + ",", ScaleFilter(w));
    } else if Crops(w) {
      assert fs == [CropFilter(w)];
    } else {
      assert fs == [ScaleFilter(w)];
    }
  }

  lemma DoubleAppend(a: string, b: string)
    requires DoubleWord(a) && DoubleWord(b)
    ensures DoubleWord(a + b)
  {
  }

  lemma CropDouble(w: Widgets)
    ensures DoubleWord(CropFilter(w))
  {
    NumeralDouble(w.cropRight + w.cropLeft);
    NumeralDouble(w.cropTop + w.cropDown);
    NumeralDouble(w.cropLeft);
    NumeralDouble(w.cropTop);
    CropTextDouble(IntToString(w.cropRight + w.cropLeft), IntToString(w.cropTop + w.cropDown),
      IntToString(w.cropLeft), IntToString(w.cropTop));
  }

  lemma CropTextDouble(a: string, b: string, c: string, d: string)
    requires DoubleWord(a) && DoubleWord(b) && DoubleWord(c) && DoubleWord(d)
    ensures DoubleWord("crop=iw-" + a + ":ih-" + b + ":" + c + ":" + d)
  {
    assert DoubleWord("crop=iw-") && DoubleWord(":ih-") && DoubleWord(":");
    DoubleAppend("crop=iw-", a);
    DoubleAppend("crop=iw-" + a, ":ih-");
    DoubleAppend("crop=iw-" + a + ":ih-", b);
    DoubleAppend("crop=iw-" + a + ":ih-" + b, ":");
    DoubleAppend("crop=iw-" + a + ":ih-" + b + ":", c);
    DoubleAppend("crop=iw-" + a + ":ih-" + b + ":" + c, ":");
    DoubleAppend("crop=iw-" + a + ":ih-" + b + ":" + c + ":", d);
  }

  lemma ScaleDouble(w: Widgets)
    ensures DoubleWord(ScaleFilter(w))
  {
    NumeralDouble(w.xres);
    NumeralDouble(w.yres);
    assert DoubleWord("scale=") && DoubleWord(":");
    DoubleAppend("scale=", IntToString(w.xres));
    DoubleAppend("scale=" + IntToString(w.xres), ":");
    DoubleAppend("scale=" + IntToString(w.xres) + ":", IntToString(w.yres));
  }

  lemma NumeralDouble(i: int)
    ensures DoubleWord(IntToString(i))
  {
    NumeralLacks(i, '"');
    NumeralLacks(i, '$');
    NumeralLacks(i, '`');
    NumeralLacks(i, '\\');
  }

  // ---------------------------------------------------------------------------
  // Video parameters

  /** The options `getVideoParams()` prints, in the order it prints them. */
  function VideoFlags(w: Widgets): (fs: seq<Flag>)
    ensures |fs| > 0 && fs[0] == Threads(w.threads)
    ensures fs[|fs| - 1] == BitDepth(if w.hdr then 10 else 8)
  {
    [Threads(w.threads)] + KfFlags(w) + EncoderFlags(w) + Vp9Flags(w) + ModeFlags(w) + RateFlags(w)
    + [BitDepth(if w.hdr then 10 else 8)]
  }

  function KfFlags(w: Widgets): (fs: seq<Flag>)
    ensures forall f :: f in fs ==> f.KfMaxDist?
  {
    if w.maxKfDist > 0 then [KfMaxDist(w.maxKfDist)] else []
  }

  function EncoderFlags(w: Widgets): (fs: seq<Flag>)
    ensures forall f :: f in fs ==> f.TileColumns? || f.TileRows? || f.CpuUsed? || f == CodecIs(Vp8)
  {
    if w.encoder < 2 then [TileColumns(1), TileRows(0), CpuUsed(w.speed)]
    else [CodecIs(Vp8), CpuUsed(w.speed)]
  }

  function Vp9Flags(w: Widgets): (fs: seq<Flag>)
    ensures forall f :: f in fs ==> f == CodecIs(Vp9)
  {
    if w.encoder == 1 then [CodecIs(Vp9)] else []
  }

  function ModeFlags(w: Widgets): (fs: seq<Flag>)
    ensures forall f :: f in fs ==> f == Realtime || f == Good
  {
    [if w.realtime then Realtime else Good]
  }

  function RateFlags(w: Widgets): (fs: seq<Flag>)
    ensures forall f :: f in fs ==> f.EndUsage? || f.TargetBitrate? || f.CqLevel? || f == Lossless
  {
    if w.bitrateMode then [EndUsage(Vbr), TargetBitrate(w.quality)]
    else
      [EndUsage(Q), CqLevel(if w.quality < 4 && w.encoder == 2 then 4 else w.quality)]
      + (if w.quality == 0 && w.encoder <= 1 then [Lossless] else [])
  }

  /** Where an option can occur among the printed ones. */
  lemma InVideoFlags(w: Widgets, f: Flag)
    ensures f in VideoFlags(w) <==>
      || f == Threads(w.threads) || f in KfFlags(w) || f in EncoderFlags(w) || f in Vp9Flags(w)
      || f in ModeFlags(w) || f in RateFlags(w) || f == BitDepth(if w.hdr then 10 else 8)
  {
  }

  /** The key-frame distance is passed only when positive, and the speed
      always. */
  lemma VideoFlagsKf(w: Widgets)
    ensures forall n :: KfMaxDist(n) in VideoFlags(w) <==> w.maxKfDist > 0 && n == w.maxKfDist
    ensures CpuUsed(w.speed) in VideoFlags(w)
  {
    forall n ensures KfMaxDist(n) in VideoFlags(w) <==> w.maxKfDist > 0 && n == w.maxKfDist {
      InVideoFlags(w, KfMaxDist(n));
    }
    InVideoFlags(w, CpuUsed(w.speed));
    assert CpuUsed(w.speed) in EncoderFlags(w);
  }

  /** AV1 and VP9 get the tile layout; every higher index is VP8; index 1
      also names VP9. */
  lemma VideoFlagsCodec(w: Widgets)
    ensures TileColumns(1) in VideoFlags(w) <==> w.encoder < 2
    ensures CodecIs(Vp8) in VideoFlags(w) <==> w.encoder >= 2
    ensures CodecIs(Vp9) in VideoFlags(w) <==> w.encoder == 1
  {
    InVideoFlags(w, TileColumns(1));
    InVideoFlags(w, CodecIs(Vp8));
    InVideoFlags(w, CodecIs(Vp9));
    if w.encoder < 2 {
      assert TileColumns(1) in EncoderFlags(w);
    } else {
      assert CodecIs(Vp8) in EncoderFlags(w);
    }
  }

  /** Exactly one of `--rt` and `--good`. */
  lemma VideoFlagsMode(w: Widgets)
    ensures Realtime in VideoFlags(w) <==> w.realtime
    ensures Good in VideoFlags(w) <==> !w.realtime
  {
    InVideoFlags(w, Realtime);
    InVideoFlags(w, Good);
  }

  /** Bitrate mode targets the quality value as a bitrate, and CQ mode
      otherwise. */
  lemma VideoFlagsUsage(w: Widgets)
    ensures EndUsage(Vbr) in VideoFlags(w) <==> w.bitrateMode
    ensures EndUsage(Q) in VideoFlags(w) <==> !w.bitrateMode
    ensures forall n :: TargetBitrate(n) in VideoFlags(w) <==> w.bitrateMode && n == w.quality
  {
    InVideoFlags(w, EndUsage(Vbr));
    InVideoFlags(w, EndUsage(Q));
    forall n ensures TargetBitrate(n) in VideoFlags(w) <==> w.bitrateMode && n == w.quality {
      InVideoFlags(w, TargetBitrate(n));
    }
  }

  /** In CQ mode the level is the quality value, raised to 4 for VP8, and
      level 0 on AV1 or VP9 is lossless. */
  lemma VideoFlagsCq(w: Widgets)
    ensures forall n :: CqLevel(n) in VideoFlags(w) <==>
      !w.bitrateMode && n == (if w.encoder == 2 && w.quality < 4 then 4 else w.quality)
    ensures Lossless in VideoFlags(w) <==> !w.bitrateMode && w.quality == 0 && w.encoder <= 1
  {
    forall n ensures CqLevel(n) in VideoFlags(w) <==>
      !w.bitrateMode && n == (if w.encoder == 2 && w.quality < 4 then 4 else w.quality)
    {
      InVideoFlags(w, CqLevel(n));
    }
    InVideoFlags(w, Lossless);
  }

  /** The chroma subsampling option for an index of the pixel format box. */
  function FormatFlag(inputFormat: int): (f: Flag)
    ensures f == I420 <==> inputFormat <= 2
    ensures f == I444 <==> inputFormat > 5
  {
    if inputFormat <= 2 then I420 else if inputFormat <= 5 then I422 else I444
  }

  /** `getVideoParams()`: the custom text, or the options, then the text of
      the colour box (`--bit-depth=N ` ends in a blank, and the format
      option starts with one), then the format option. */
  function VideoParams(w: Widgets): (r: string)
    ensures w.customVideo ==> r == w.videoCmd
  {
    if w.customVideo then w.videoCmd
    else Render(VideoFlags(w)) + " " + w.colorText + " " + FlagText(FormatFlag(w.inputFormat))
  }

  /** The encoder receives the options as separate arguments, with the words
      of the colour box between the bit depth and the format option. */
  lemma VideoParamsTokens(w: Widgets, colorWords: seq<string>)
    requires !w.customVideo && Tokens(w.colorText) == Some(colorWords)
    ensures Tokens(VideoParams(w))
         == Some(FlagTexts(VideoFlags(w)) + colorWords + [FlagText(FormatFlag(w.inputFormat))])
  {
    var head := Render(VideoFlags(w));
    var fmt := FlagText(FormatFlag(w.inputFormat));
    RenderTokens(VideoFlags(w));
    TokensAppend(head, w.colorText, FlagTexts(VideoFlags(w)), colorWords);
    PlainWordTokens(fmt);
    TokensAppend(head + " " + w.colorText, fmt, FlagTexts(VideoFlags(w)) + colorWords, [fmt]);
  }

  /** An encoder reading those arguments back finds exactly the options. */
  lemma VideoFlagsRead(w: Widgets)
    ensures ParseFlags(FlagTexts(VideoFlags(w))) == Present(VideoFlags(w))
  {
    ParseFlagTexts(VideoFlags(w));
  }

  // ---------------------------------------------------------------------------
  // Audio parameters

  /** `getAudioParams()` */
  function AudioParams(w: Widgets): (r: string)
    ensures w.customAudio ==> r == w.audioCmd
  {
    if w.customAudio then w.audioCmd
    else if w.audio then "-b:a " + IntToString(w.audioBitrate) + "k -c:a libopus"
    else "-c:a copy"
  }

  /** The back end splits the audio parameters on whitespace: Opus at the
      chosen rate, or a stream copy. */
  lemma AudioParamsWords(w: Widgets)
    requires !w.customAudio
    ensures w.audio ==> Words(AudioParams(w)) == ["-b:a", IntToString(w.audioBitrate) + "k", "-c:a", "libopus"]
    ensures !w.audio ==> Words(AudioParams(w)) == ["-c:a", "copy"]
  {
    if w.audio {
      var n := IntToString(w.audioBitrate);
      var ws := ["-b:a", n + "k", "-c:a", "libopus"];
      AudioWordsJoin(n);
      NumeralNoSpace(w.audioBitrate);
      assert NoSpace(n + "k");
      assert forall k :: 0 <= k < |ws| ==> |ws[k]| > 0 && NoSpace(ws[k]);
      WordsOfJoin(ws);
    } else {
      var ws := ["-c:a", "copy"];
      assert Join(" ", ws) == "-c:a" + " " + "copy";
      assert "-c:a copy" == "-c:a" + " " + "copy";
      assert forall k :: 0 <= k < |ws| ==> |ws[k]| > 0 && NoSpace(ws[k]);
      WordsOfJoin(ws);
    }
  }

  lemma AudioWordsJoin(n: string)
    ensures "-b:a " + n + "k -c:a libopus" == Join(" ", ["-b:a", n + "k", "-c:a", "libopus"])
  {
    var ws := ["-b:a", n + "k", "-c:a", "libopus"];
    assert ws[1..][1..] == ["-c:a", "libopus"];
    assert Join(" ", ws[1..][1..]) == "-c:a" + " " + "libopus";
    assert Join(" ", ws[1..]) == (n + "k") + " " + ("-c:a" + " " + "libopus");
    assert "k -c:a libopus" == "k" + " " + ("-c:a" + " " + "libopus");
    assert "-b:a " == "-b:a" + " ";
  }

  lemma NumeralNoSpace(i: int)
    ensures NoSpace(IntToString(i))
  {
  }

  /** How ffmpeg reads a bitrate: a number, optionally with the SI suffix `k`
      for thousands. */
  function FfmpegBitrate(v: string): Option<int> {
    if |v| > 0 && v[|v| - 1] == 'k' then
      match ParseNumeral(v[..|v| - 1])
      case Some(x) => Some(x * 1000)
      case None => None
    else ParseNumeral(v)
  }

  /** The Opus encoder is asked for the preset's rate in kbit/s. */
  lemma AudioBitrateInKbit(w: Widgets)
    requires !w.customAudio && w.audio
    ensures |Words(AudioParams(w))| == 4
    ensures FfmpegBitrate(Words(AudioParams(w))[1]) == Some(w.audioBitrate * 1000)
  {
    AudioParamsWords(w);
    var v := IntToString(w.audioBitrate) + "k";
    assert v[..|v| - 1] == IntToString(w.audioBitrate);
    ParseNumeralOfIntToString(w.audioBitrate);
  }

  // ---------------------------------------------------------------------------
  // The argument dictionary

  /** The dictionary literal `getArgs()` starts from, entry by entry in its
      order (a later entry for the same key would win, as in Python).
      `Path(...)` values keep the text they were built from; `video`,
      `audio` and `ffmpeg` are the three parameter strings. */
  function ArgLiteral(w: Widgets, video: string, audio: string, ffmpeg: string): Args {
    map[]
      ["video_params" := StrArg(video)]["input_file" := PathArg(w.inputPath)]
      ["encoder" := StrArg("aom")]["workers" := IntArg(w.jobs)]
      ["audio_params" := StrArg(audio)]["threshold" := IntArg(w.splitThreshold)]
      ["logging" := NoneArg]["passes" := IntArg(if w.twoPass then 2 else 1)]
      ["output_file" := PathArg(w.outputPath)]["scenes" := NoneArg]
      ["resume" := BoolArg(w.resume)]["keep" := BoolArg(w.keepTemp)]
      ["min_splits" := BoolArg(w.minSplit)]["pix_format" := StrArg(w.inputFormatText)]
      ["ffmpeg_cmd" := StrArg(ffmpeg)]["min_split_dist" := IntArg(w.minSplitSize)]
      ["use_vmaf" := BoolArg(w.vmaf)]["threads" := IntArg(w.threads)]
      ["better_split" := BoolArg(w.betterSplit)]["cpuused" := IntArg(w.speed)]
      ["unsafe_split" := BoolArg(w.unsafeSplit)]["rtenc" := BoolArg(w.realtime)]
  }

  /** Boost is on unless bitrate mode, a boost below 1 or target VMAF rules
      it out. */
  predicate BoostOn(w: Widgets) {
    !(w.bitrateMode || w.boost < 1 || w.vmaf)
  }

  /** The temp folder next to the output: `<dir>/temp_<name>`. */
  function TempPath(output: string): string {
    Dirname(output) + "/temp_" + Basename(output)
  }

  /** `getArgs()`: the literal, then the assignments after it. */
  function GetArgs(w: Widgets): (args: Args)
    ensures "temp" in args && "boost" in args && "br" in args && "bl" in args
    ensures "video_params" in args && args["video_params"] == StrArg(VideoParams(w))
    ensures "audio_params" in args && args["audio_params"] == StrArg(AudioParams(w))
    ensures args["boost"] == BoolArg(!w.bitrateMode && w.boost >= 1 && !w.vmaf)
    ensures "encoder" in args && args["encoder"] == StrArg(if w.encoder >= 1 then "vpx" else "aom")
  {
    ArgsParams(w, VideoParams(w), AudioParams(w), FfmpegParams(w));
    ArgsBoost(w, VideoParams(w), AudioParams(w), FfmpegParams(w));
    ArgsEncoder(w, VideoParams(w), AudioParams(w), FfmpegParams(w));
    ArgsFrom(w, VideoParams(w), AudioParams(w), FfmpegParams(w))
  }

  /** `getArgs()` once the three parameter strings are built. */
  function ArgsFrom(w: Widgets, video: string, audio: string, ffmpeg: string): (args: Args)
    ensures "temp" in args && "boost" in args && "br" in args && "bl" in args
  {
    Assignments(w, ArgLiteral(w, video, audio, ffmpeg))
  }

  /** The assignments `getArgs()` makes after the literal `a0`, in order. */
  function Assignments(w: Widgets, a0: Args): (args: Args)
    ensures "temp" in args && "boost" in args && "br" in args && "bl" in args
  {
    var a1 := a0["temp" := PathArg(TempPath(w.outputPath))];
    var a2 := a1["vmaf_steps" := IntArg(w.vmafSteps)]["min_cq" := IntArg(w.minQ)]["max_cq" := IntArg(w.maxQ)]
                ["vmaf_target" := RealArg(w.vmafTarget)]["vmaf_path" := StrArg(w.vmafPath)];
    var a3 := if w.minSplit then a2["min_split_dist" := IntArg(0)] else a2;
    var a4 := if !BoostOn(w) then a3["boost" := BoolArg(false)]["br" := IntArg(0)]["bl" := IntArg(0)]
              else a3["boost" := BoolArg(true)]["bl" := IntArg(0)]["br" := IntArg(w.boost)];
    var a5 := if w.encoder >= 1 then a4["encoder" := StrArg("vpx")] else a4;
    a5["temp" := PathArg(ReplaceChar(a5["temp"].path, '\'', "_"))]
  }

  /** The keys the assignments may change. */
  const UpdatedKeys: set<string> :=
    {"temp", "vmaf_steps", "min_cq", "max_cq", "vmaf_target", "vmaf_path", "min_split_dist",
     "boost", "br", "bl", "encoder"}

  /** The boost keys and the temp folder are decided by the assignments
      alone. */
  lemma AssignmentsFixed(w: Widgets, a0: Args)
    ensures var args := Assignments(w, a0);
      && args["temp"] == PathArg(ReplaceChar(TempPath(w.outputPath), '\'', "_"))
      && args["boost"] == BoolArg(BoostOn(w))
      && args["br"] == IntArg(if BoostOn(w) then w.boost else 0)
      && args["bl"] == IntArg(0)
  {
  }

  /** The encoder becomes `vpx` for an index of 1 or more and otherwise
      keeps the literal's value. */
  lemma AssignmentsEncoder(w: Widgets, a0: Args)
    requires "encoder" in a0
    ensures var args := Assignments(w, a0);
      "encoder" in args && args["encoder"] == (if w.encoder >= 1 then StrArg("vpx") else a0["encoder"])
  {
  }

  /** The minimum split distance becomes 0 when the box is ticked and
      otherwise keeps the literal's value. */
  lemma AssignmentsMinSplit(w: Widgets, a0: Args)
    requires "min_split_dist" in a0
    ensures var args := Assignments(w, a0);
      "min_split_dist" in args && args["min_split_dist"] == (if w.minSplit then IntArg(0) else a0["min_split_dist"])
  {
  }

  /** Every other key of the literal keeps its value. */
  lemma AssignmentsKeep(w: Widgets, a0: Args, k: string)
    requires k in a0 && k !in UpdatedKeys
    ensures var args := Assignments(w, a0); k in args && args[k] == a0[k]
  {
  }

  /** No key outside the literal and the assigned ones appears. */
  lemma AssignmentsKeys(w: Widgets, a0: Args)
    ensures Assignments(w, a0).Keys <= a0.Keys + UpdatedKeys
  {
  }

  /** Boost, its range and its floor: on exactly when neither bitrate mode nor
      target VMAF is chosen and the boost is at least 1; the range is then the
      boost value, and the floor is always 0. */
  lemma ArgsBoost(w: Widgets, video: string, audio: string, ffmpeg: string)
    ensures var args := ArgsFrom(w, video, audio, ffmpeg);
      && args["boost"] == BoolArg(BoostOn(w))
      && args["br"] == IntArg(if BoostOn(w) then w.boost else 0)
      && args["bl"] == IntArg(0)
    ensures BoostOn(w) <==> !w.bitrateMode && w.boost >= 1 && !w.vmaf
  {
    AssignmentsFixed(w, ArgLiteral(w, video, audio, ffmpeg));
  }

  /** The encoder is `vpx` exactly for an index of 1 or more, `aom` otherwise. */
  lemma ArgsEncoder(w: Widgets, video: string, audio: string, ffmpeg: string)
    ensures var args := ArgsFrom(w, video, audio, ffmpeg);
      "encoder" in args && args["encoder"] == StrArg(if w.encoder >= 1 then "vpx" else "aom")
  {
    AssignmentsEncoder(w, ArgLiteral(w, video, audio, ffmpeg));
  }

  /** Two passes exactly when two-pass is ticked, one otherwise. */
  lemma ArgsPasses(w: Widgets, video: string, audio: string, ffmpeg: string)
    ensures var args := ArgsFrom(w, video, audio, ffmpeg);
      "passes" in args && args["passes"] == IntArg(if w.twoPass then 2 else 1)
  {
    AssignmentsKeep(w, ArgLiteral(w, video, audio, ffmpeg), "passes");
  }

  /** The minimum split distance is 0 when the minimum-split box is ticked,
      and the spin value otherwise. */
  lemma ArgsMinSplit(w: Widgets, video: string, audio: string, ffmpeg: string)
    ensures var args := ArgsFrom(w, video, audio, ffmpeg);
      "min_split_dist" in args && args["min_split_dist"] == IntArg(if w.minSplit then 0 else w.minSplitSize)
  {
    AssignmentsMinSplit(w, ArgLiteral(w, video, audio, ffmpeg));
  }

  /** The temp folder's path holds no single quote, and apart from those it
      is the folder beside the output. */
  lemma ArgsTemp(w: Widgets, video: string, audio: string, ffmpeg: string)
    ensures var args := ArgsFrom(w, video, audio, ffmpeg);
      && '\'' !in args["temp"].path
      && ('\'' !in w.outputPath ==> args["temp"] == PathArg(TempPath(w.outputPath)))
  {
    AssignmentsFixed(w, ArgLiteral(w, video, audio, ffmpeg));
    if '\'' !in w.outputPath {
      TempPathQuotes(w.outputPath);
      ReplaceCharAbsent(TempPath(w.outputPath), '\'', "_");
    }
  }

  lemma TempPathQuotes(output: string)
    requires '\'' !in output
    ensures '\'' !in TempPath(output)
  {
    SplitWithin(output, '\'');
  }

  /** The three parameter strings reach the pipeline unchanged. */
  lemma ArgsParams(w: Widgets, video: string, audio: string, ffmpeg: string)
    ensures var args := ArgsFrom(w, video, audio, ffmpeg);
      && "video_params" in args && args["video_params"] == StrArg(video)
      && "audio_params" in args && args["audio_params"] == StrArg(audio)
      && "ffmpeg_cmd" in args && args["ffmpeg_cmd"] == StrArg(ffmpeg)
  {
    LiteralParams(w, video, audio, ffmpeg);
    LiteralKept(w, video, audio, ffmpeg, "video_params");
    LiteralKept(w, video, audio, ffmpeg, "audio_params");
    LiteralKept(w, video, audio, ffmpeg, "ffmpeg_cmd");
  }

  lemma LiteralParams(w: Widgets, video: string, audio: string, ffmpeg: string)
    ensures var a0 := ArgLiteral(w, video, audio, ffmpeg);
      && "video_params" in a0 && a0["video_params"] == StrArg(video)
      && "audio_params" in a0 && a0["audio_params"] == StrArg(audio)
      && "ffmpeg_cmd" in a0 && a0["ffmpeg_cmd"] == StrArg(ffmpeg)
  {
  }

  lemma LiteralKept(w: Widgets, video: string, audio: string, ffmpeg: string, k: string)
    requires k in {"video_params", "audio_params", "ffmpeg_cmd"}
    ensures var a0 := ArgLiteral(w, video, audio, ffmpeg);
      k in a0 && k in ArgsFrom(w, video, audio, ffmpeg) && ArgsFrom(w, video, audio, ffmpeg)[k] == a0[k]
  {
    AssignmentsKeep(w, ArgLiteral(w, video, audio, ffmpeg), k);
  }

  /** The front end never sets `quiet`. */
  lemma ArgsNoQuiet(w: Widgets, video: string, audio: string, ffmpeg: string)
    ensures "quiet" !in ArgsFrom(w, video, audio, ffmpeg)
  {
    AssignmentsKeys(w, ArgLiteral(w, video, audio, ffmpeg));
  }

  /** After `merge_args`, the back end sees the front end's audio parameters
      and keeps its own default of running quietly. */
  lemma MergedArgs(w: Widgets)
    ensures "audio_params" in MergeArgs(GetArgs(w))
    ensures MergeArgs(GetArgs(w))["audio_params"] == StrArg(AudioParams(w))
    ensures "quiet" in MergeArgs(GetArgs(w)) && MergeArgs(GetArgs(w))["quiet"] == BoolArg(true)
  {
    var v, a, f := VideoParams(w), AudioParams(w), FfmpegParams(w);
    ArgsParams(w, v, a, f);
    ArgsNoQuiet(w, v, a, f);
    DefaultValues();
  }

  // ---------------------------------------------------------------------------
  // Loading a preset

  /** `setFromPresetDict`: a preset asking for both two-pass and realtime
      encoding is loaded as two-pass only. */
  function LoadModes(twoPass: bool, realtime: bool): (r: (bool, bool))
    ensures !(r.0 && r.1)
    ensures r.0 == twoPass
    ensures !(twoPass && realtime) ==> r == (twoPass, realtime)
  {
    if twoPass && realtime then (true, false) else (twoPass, realtime)
  }

  /** Saving the loaded modes and loading them again changes nothing. */
  lemma LoadModesIdempotent(twoPass: bool, realtime: bool)
    ensures var r := LoadModes(twoPass, realtime); LoadModes(r.0, r.1) == r
  {
  }

  // ---------------------------------------------------------------------------
  // The encode queue

  /** The queue with entries `i` and `j` exchanged. */
  function Swap<T>(q: seq<T>, i: nat, j: nat): (r: seq<T>)
    requires i < |q| && j < |q|
    ensures |r| == |q| && r[i] == q[j] && r[j] == q[i]
    ensures forall k :: 0 <= k < |q| && k != i && k != j ==> r[k] == q[k]
  {
    q[i := q[j]][j := q[i]]
  }

  /** `queueMoveUp()` at the list's current row, which is -1 when no row is
      selected: a row above the first moves up by one place. */
  function QueueMoveUp<T>(q: seq<T>, row: int): (r: seq<T>)
    requires -1 <= row < |q|
    ensures row > 0 ==> r == Swap(q, row, row - 1)
    ensures row <= 0 ==> r == q
  {
    if row > 0 then Swap(q, row, row - 1) else q
  }

  /** `queueMoveDown()` as written: the guard `row < count - 1` also admits
      row -1, and `encodeList[-1]` is the last entry, so with nothing selected
      the first and the last entries trade places. */
  function QueueMoveDownAsWritten<T>(q: seq<T>, row: int): (r: seq<T>)
    requires -1 <= row < |q|
    ensures |r| == |q|
    ensures 0 <= row < |q| - 1 ==> r == Swap(q, row, row + 1)
    ensures row == |q| - 1 ==> r == q
    ensures row == -1 && |q| >= 2 ==> r[0] == q[|q| - 1] && r[|q| - 1] == q[0]
    ensures row == -1 ==> forall k :: 0 < k < |q| - 1 ==> r[k] == q[k]
    ensures row == -1 && |q| >= 1 ==> r == Swap(q, |q| - 1, 0)
  {
    if row < |q| - 1 then
      var i := if row < 0 then row + |q| else row;
      Swap(q, i, row + 1)
    else q
  }

  /** With nothing selected, moving down swaps the ends of the queue. */
  lemma QueueMoveDownAsWrittenSwapsEnds<T>(q: seq<T>)
    requires |q| >= 2
    ensures QueueMoveDownAsWritten(q, -1) == Swap(q, |q| - 1, 0)
    ensures q[0] != q[|q| - 1] ==> QueueMoveDownAsWritten(q, -1) != q
  {
    var r := QueueMoveDownAsWritten(q, -1);
    if q[0] != q[|q| - 1] {
      assert r[0] != q[0];
    }
  }

  /** `queueMoveDown()` as intended: a selected row above the last moves down
      by one place, and nothing happens without a selection. */
  function QueueMoveDown<T>(q: seq<T>, row: int): (r: seq<T>)
    requires -1 <= row < |q|
    ensures 0 <= row < |q| - 1 ==> r == Swap(q, row, row + 1)
    ensures row == -1 || row == |q| - 1 ==> r == q
  {
    if 0 <= row < |q| - 1 then Swap(q, row, row + 1) else q
  }

  /** Moving an entry down and then up again restores the queue. */
  lemma MoveDownThenUp<T>(q: seq<T>, row: int)
    requires 0 <= row < |q| - 1
    ensures QueueMoveUp(QueueMoveDown(q, row), row + 1) == q
  {
    var r := QueueMoveUp(QueueMoveDown(q, row), row + 1);
    assert forall k :: 0 <= k < |q| ==> r[k] == q[k];
  }

  /** Moving an entry up and then down again restores the queue. */
  lemma MoveUpThenDown<T>(q: seq<T>, row: int)
    requires 0 < row < |q|
    ensures QueueMoveDown(QueueMoveUp(q, row), row - 1) == q
  {
    var r := QueueMoveDown(QueueMoveUp(q, row), row - 1);
    assert forall k :: 0 <= k < |q| ==> r[k] == q[k];
  }

  /** A move never adds, loses or duplicates an entry. */
  lemma SwapPermutes<T>(q: seq<T>, i: nat, j: nat)
    requires i < |q| && j < |q|
    ensures multiset(Swap(q, i, j)) == multiset(q)
  {
    var r := q[i := q[j]];
    assert multiset(r) == multiset(q) - multiset{q[i]} + multiset{q[j]};
    assert multiset(r[j := q[i]]) == multiset(r) - multiset{r[j]} + multiset{q[i]};
  }
}
