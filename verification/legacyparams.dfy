/**
 The pure helpers of the first front end (qencoder.py), over the same record
 of widget values as the current one: its colour options, preset tables,
 video, audio and ffmpeg parameter strings and the argument dictionary of
 `encodeVideo`.  The preset-to-speed mapping is shared with the current
 front end (`EncoderOptions.PresetSpeed`).

 Where the two front ends agree, lemmas here say so; where they differ, the
 difference is stated as a lemma as well.
 */
module LegacyGuiParams {
  import opened Common
  import opened Quoting
  import opened EncoderOptions
  import opened Av1anArgs
  import GuiParams

  type Widgets = GuiParams.Widgets

  // ---------------------------------------------------------------------------
  // Colour options

  /** `getColorData()`: colour space 5 is "custom" and keeps the text box,
      whatever the encoder; AV1 then gets primaries, transfer and matrix
      (every space past 3 is the constant-luminance BT.2020 one), VP9 gets a
      colour space (every space past 3 is BT.2020), VP8 and any other encoder
      index nothing. */
  function ColorData(colorspace: int, encoder: int, text: string): (r: string)
    ensures colorspace == 5 ==> r == text
    ensures colorspace != 5 && encoder != 0 && encoder != 1 ==> r == ""
    ensures colorspace != 5 && encoder == 1 ==> StartsWith(r, "--color-space=")
  {
    if colorspace == 5 then text
    else if encoder == 0 then
      if colorspace == 0 then ""
      else if colorspace == 1 then "--color-primaries=bt709 --transfer-characteristics=bt709 --matrix-coefficients=bt709"
      else if colorspace == 2 then "--color-primaries=bt601 --transfer-characteristics=bt601 --matrix-coefficients=bt601"
      else if colorspace == 3 then Bt2020Ncl
      else "--color-primaries=bt2020 --transfer-characteristics=bt2020-10bit --matrix-coefficients=bt2020cl"
    else if encoder == 1 then
      if colorspace == 0 then "--color-space=unknown"
      else if colorspace == 1 then "--color-space=bt709"
      else if colorspace == 2 then "--color-space=bt601"
      else "--color-space=bt2020"
    else ""
  }

  /** AV1's options for BT.2020 with the non-constant-luminance matrix. */
  const Bt2020Ncl := "--color-primaries=bt2020 --transfer-characteristics=bt2020-10bit --matrix-coefficients=bt2020ncl"

  /** Both front ends give AV1 and VP9 the same options for the unspecified,
      BT.709 and BT.601 spaces, and VP9 the same one for BT.2020. */
  lemma ColorDataAgrees(colorspace: int, encoder: int, text: string)
    requires 0 <= encoder <= 1
    requires 0 <= colorspace <= 2 || (colorspace == 3 && encoder == 1)
    ensures GuiParams.ColorData(colorspace, encoder, text) == Ok(ColorData(colorspace, encoder, text))
  {
  }

  /** For AV1 in BT.2020 the current front end names the SMPTE 2084 (PQ)
      transfer where the first named the 10-bit BT.2020 one. */
  lemma ColorDataTransferChanged(text: string)
    ensures GuiParams.ColorData(3, 0, text).Ok?
    ensures GuiParams.ColorData(3, 0, text).value != ColorData(3, 0, text)
  {
    var current := GuiParams.ColorSpaces[3][0];
    assert current[52] == 's' && Bt2020Ncl[52] == 'b';
  }

  // ---------------------------------------------------------------------------
  // Preset tables

  /** `getQuality(qval)`: presets 0 to 8, and the spin box for any other index. */
  function Quality(qval: int, spin: int): (r: int)
    ensures 0 <= qval <= 8 ==> r == GuiParams.QualityTable[qval]
    ensures !(0 <= qval <= 8) ==> r == spin
  {
    if qval == 0 then 40
    else if qval == 1 then 36
    else if qval == 2 then 32
    else if qval == 3 then 28
    else if qval == 4 then 26
    else if qval == 5 then 24
    else if qval == 6 then 20
    else if qval == 7 then 10
    else if qval == 8 then 0
    else spin
  }

  /** `getAudioBitrate(iindex)`: presets 0 to 7, and the spin box for any
      other index. */
  function AudioBitrate(index: int, spin: int): (r: int)
    ensures 0 <= index <= 6 ==> r == GuiParams.AudioTable[index]
    ensures index == 7 ==> r == 256
    ensures !(0 <= index <= 7) ==> r == spin
  {
    if index == 0 then 24
    else if index == 1 then 32
    else if index == 2 then 64
    else if index == 3 then 76
    else if index == 4 then 96
    else if index == 5 then 128
    else if index == 6 then 160
    else if index == 7 then 256
    else spin
  }

  /** The two front ends share the quality presets; the current one reports
      a `KeyError` for a negative index where this one falls back to the spin
      box. */
  lemma QualityAgrees(qval: int, spin: int)
    ensures qval >= 0 ==> GuiParams.Quality(qval, spin) == Ok(Quality(qval, spin))
    ensures qval < 0 ==> GuiParams.Quality(qval, spin).Err? && Quality(qval, spin) == spin
  {
  }

  /** The audio presets agree except the highest, 256 kbit/s here and 250 in
      the current front end. */
  lemma AudioBitrateAgrees(index: int, spin: int)
    ensures 0 <= index <= 6 || index >= 8 ==> GuiParams.AudioBitrate(index, spin) == Ok(AudioBitrate(index, spin))
    ensures GuiParams.AudioBitrate(7, spin) == Ok(250) && AudioBitrate(7, spin) == 256
  {
  }

  // ---------------------------------------------------------------------------
  // Video parameters

  /** The options `getVideoParams()` prints, in order: four threads and a
      2x1 tile layout for AV1 and VP9, no key-frame distance and no lossless
      switch. */
  function VideoFlags(w: Widgets): (fs: seq<Flag>)
    ensures |fs| > 0 && fs[|fs| - 1] == BitDepth(if w.hdr then 10 else 8)
  {
    EncoderFlags(w)
    + (if w.encoder == 1 then [CodecIs(Vp9)] else [])
    + [if w.realtime then Realtime else Good]
    + RateFlags(w)
    + [BitDepth(if w.hdr then 10 else 8)]
  }

  function EncoderFlags(w: Widgets): (fs: seq<Flag>)
    ensures forall f :: f in fs ==> f.TileColumns? || f.TileRows? || f.CpuUsed? || f == Threads(4) || f == CodecIs(Vp8)
  {
    if w.encoder < 2 then [Threads(4), TileColumns(2), TileRows(1), CpuUsed(w.speed)]
    else [CodecIs(Vp8), Threads(4), CpuUsed(w.speed)]
  }

  function RateFlags(w: Widgets): (fs: seq<Flag>)
    ensures forall f :: f in fs ==> f.EndUsage? || f.TargetBitrate? || f.CqLevel?
  {
    if w.bitrateMode then [EndUsage(Vbr), TargetBitrate(w.quality)]
    else [EndUsage(Q), CqLevel(w.quality)]
  }

  /** Where an option can occur among the printed ones. */
  lemma InVideoFlags(w: Widgets, f: Flag)
    ensures f in VideoFlags(w) <==>
      || f in EncoderFlags(w) || (w.encoder == 1 && f == CodecIs(Vp9))
      || f == (if w.realtime then Realtime else Good) || f in RateFlags(w)
      || f == BitDepth(if w.hdr then 10 else 8)
  {
  }

  /** Always four threads, never a key-frame distance or a lossless switch,
      and the tiles only for AV1 and VP9. */
  lemma VideoFlagsFixed(w: Widgets)
    ensures Threads(4) in VideoFlags(w)
    ensures forall n :: KfMaxDist(n) !in VideoFlags(w)
    ensures Lossless !in VideoFlags(w)
    ensures TileColumns(2) in VideoFlags(w) <==> w.encoder < 2
  {
    InVideoFlags(w, Threads(4));
    InVideoFlags(w, Lossless);
    InVideoFlags(w, TileColumns(2));
    forall n ensures KfMaxDist(n) !in VideoFlags(w) {
      InVideoFlags(w, KfMaxDist(n));
    }
    assert Threads(4) in EncoderFlags(w);
    if w.encoder < 2 {
      assert TileColumns(2) in EncoderFlags(w);
    }
  }

  /** The CQ level is the quality value as it stands (no floor for VP8), and
      bitrate mode targets it as a bitrate. */
  lemma VideoFlagsRate(w: Widgets)
    ensures forall n :: CqLevel(n) in VideoFlags(w) <==> !w.bitrateMode && n == w.quality
    ensures forall n :: TargetBitrate(n) in VideoFlags(w) <==> w.bitrateMode && n == w.quality
  {
    forall n ensures CqLevel(n) in VideoFlags(w) <==> !w.bitrateMode && n == w.quality {
      InVideoFlags(w, CqLevel(n));
    }
    forall n ensures TargetBitrate(n) in VideoFlags(w) <==> w.bitrateMode && n == w.quality {
      InVideoFlags(w, TargetBitrate(n));
    }
  }

  /** `getVideoParams()`: the custom text, or the options each preceded by a
      blank, then the text of the colour box and the format option. */
  function VideoParams(w: Widgets): (r: string)
    ensures w.customVideo ==> r == w.videoCmd
    ensures !w.customVideo ==> |r| > 0 && r[0] == ' '
  {
    if w.customVideo then w.videoCmd
    else " " + Render(VideoFlags(w)) + " " + w.colorText + " " + FlagText(GuiParams.FormatFlag(w.inputFormat))
  }

  /** The leading blank is dropped by the shell: the encoder receives the
      options, the words of the colour box and the format option. */
  lemma VideoParamsTokens(w: Widgets, colorWords: seq<string>)
    requires !w.customVideo && Tokens(w.colorText) == Some(colorWords)
    ensures Tokens(VideoParams(w))
         == Some(FlagTexts(VideoFlags(w)) + colorWords + [FlagText(GuiParams.FormatFlag(w.inputFormat))])
  {
    var head := Render(VideoFlags(w));
    var fmt := FlagText(GuiParams.FormatFlag(w.inputFormat));
    var body := head + " " + w.colorText + " " + fmt;
    RenderTokens(VideoFlags(w));
    TokensAppend(head, w.colorText, FlagTexts(VideoFlags(w)), colorWords);
    PlainWordTokens(fmt);
    TokensAppend(head + " " + w.colorText, fmt, FlagTexts(VideoFlags(w)) + colorWords, [fmt]);
    var s := VideoParams(w);
    assert s == " " + body by {
      ConcatAssoc(" ", head + " " + w.colorText + " ", fmt);
      ConcatAssoc(" ", head + " " + w.colorText, " ");
      ConcatAssoc(" ", head + " ", w.colorText);
      ConcatAssoc(" ", head, " ");
    }
    assert s[1..] == body;
    TokensBlankStep(s);
  }

  // ---------------------------------------------------------------------------
  // Audio and ffmpeg parameters

  /** `getAudioParams()` as written: the rate is printed without a unit. */
  function AudioParamsAsWritten(w: Widgets): (r: string)
    ensures w.customAudio ==> r == w.audioCmd
    ensures !w.customAudio && w.audio ==> Words(r) == ["-b:a", IntToString(w.audioBitrate), "-c:a", "libopus"]
    ensures !w.customAudio && !w.audio ==> Words(r) == ["-c:a", "copy"]
  {
    if w.customAudio then w.audioCmd
    else if w.audio then
      UnitlessAudioWords(w.audioBitrate);
      "-b:a " + IntToString(w.audioBitrate) + " -c:a libopus"
    else
      GuiParams.AudioParamsWords(w);
      "-c:a copy"
  }

  /** The unitless Opus text splits into its four words. */
  lemma UnitlessAudioWords(i: int)
    ensures Words("-b:a " + IntToString(i) + " -c:a libopus") == ["-b:a", IntToString(i), "-c:a", "libopus"]
  {
    var n := IntToString(i);
    var ws := ["-b:a", n, "-c:a", "libopus"];
    assert "-b:a " + n + " -c:a libopus" == Join(" ", ws) by {
      assert ws[1..][1..] == ["-c:a", "libopus"];
      assert Join(" ", ws[1..][1..]) == "-c:a" + " " + "libopus";
      assert " -c:a libopus" == " " + ("-c:a" + " " + "libopus");
      assert "-b:a " == "-b:a" + " ";
    }
    GuiParams.NumeralNoSpace(i);
    assert forall k :: 0 <= k < |ws| ==> |ws[k]| > 0 && NoSpace(ws[k]);
    WordsOfJoin(ws);
  }

  /** ffmpeg reads a unitless rate in bit/s, so the preset meant as 96 kbit/s
      asks Opus for 96 bit/s. */
  lemma AudioAsWrittenInBits(w: Widgets)
    requires !w.customAudio && w.audio
    ensures |Words(AudioParamsAsWritten(w))| == 4
    ensures GuiParams.FfmpegBitrate(Words(AudioParamsAsWritten(w))[1]) == Some(w.audioBitrate)
  {
    var n := IntToString(w.audioBitrate);
    assert Words(AudioParamsAsWritten(w))[1] == n;
    assert n[|n| - 1] != 'k';
    ParseNumeralOfIntToString(w.audioBitrate);
  }

  /** `getAudioParams()` as intended: the rate in kbit/s, as the current front
      end prints it. */
  function AudioParams(w: Widgets): (r: string)
    ensures w.customAudio ==> r == w.audioCmd
    ensures !w.customAudio && !w.audio ==> r == AudioParamsAsWritten(w)
  {
    GuiParams.AudioParams(w)
  }

  /** With the unit restored, Opus is asked for the preset's rate in kbit/s. */
  lemma AudioParamsInKbit(w: Widgets)
    requires !w.customAudio && w.audio
    ensures |Words(AudioParams(w))| == 4
    ensures GuiParams.FfmpegBitrate(Words(AudioParams(w))[1]) == Some(w.audioBitrate * 1000)
  {
    GuiParams.AudioBitrateInKbit(w);
  }

  /** `getFFMPEGParams()`: the custom text or nothing. */
  function FfmpegParams(w: Widgets): (r: string)
    ensures w.customFfmpeg ==> r == w.ffmpegCmd
    ensures Tokens(r) == Some([]) <==> !w.customFfmpeg || Tokens(w.ffmpegCmd) == Some([])
  {
    if w.customFfmpeg then w.ffmpegCmd else ""
  }

  /** The first front end has no crop or scale boxes: it passes what the
      current one passes when neither is in effect. */
  lemma FfmpegParamsAgree(w: Widgets)
    requires !GuiParams.Crops(w) && !w.rescale
    ensures FfmpegParams(w) == GuiParams.FfmpegParams(w)
  {
  }

  // ---------------------------------------------------------------------------
  // The argument dictionary of `encodeVideo`

  /** Boost is on unless bitrate mode or a boost below 1 rules it out; target
      VMAF does not exist yet. */
  predicate BoostOn(w: Widgets) {
    !(w.bitrateMode || w.boost < 1)
  }

  /** The literal of `encodeVideo`; `temp` is the absolute path of `temp` in
      the working directory, which the model takes as given. */
  function ArgLiteral(w: Widgets, video: string, audio: string, ffmpeg: string, temp: string): Args {
    map[]
      ["video_params" := StrArg(video)]["input_file" := PathArg(w.inputPath)]
      ["encoder" := StrArg("aom")]["workers" := IntArg(w.jobs)]
      ["audio_params" := StrArg(audio)]["threshold" := IntArg(w.splitThreshold)]
      ["temp" := PathArg(temp)]
      ["logging" := NoneArg]["passes" := IntArg(if w.twoPass then 2 else 1)]
      ["output_file" := PathArg(w.outputPath)]["scenes" := NoneArg]
      ["resume" := BoolArg(w.resume)]["keep" := BoolArg(w.keepTemp)]
      ["min_splits" := BoolArg(w.minSplit)]["pix_format" := StrArg(w.inputFormatText)]
      ["ffmpeg_cmd" := StrArg(ffmpeg)]
  }

  /** The assignments after the literal. */
  function Assignments(w: Widgets, a0: Args): (args: Args)
    ensures "boost" in args && "br" in args && "bl" in args
  {
    var a1 := if !BoostOn(w) then a0["boost" := BoolArg(false)]["br" := IntArg(0)]["bl" := IntArg(0)]
              else a0["boost" := BoolArg(true)]["bl" := IntArg(0)]["br" := IntArg(w.boost)];
    if w.encoder >= 1 then a1["encoder" := StrArg("vpx")] else a1
  }

  /** The arguments `encodeVideo` hands the pipeline, carrying the audio
      parameters as written (see AudioParamsAsWritten). */
  function EncodeArgs(w: Widgets, temp: string): (args: Args)
    ensures "boost" in args && "br" in args && "bl" in args
    ensures "video_params" in args && args["video_params"] == StrArg(VideoParams(w))
    ensures "audio_params" in args && args["audio_params"] == StrArg(AudioParamsAsWritten(w))
    ensures "ffmpeg_cmd" in args && args["ffmpeg_cmd"] == StrArg(FfmpegParams(w))
  {
    ArgsText(w, VideoParams(w), AudioParamsAsWritten(w), FfmpegParams(w), temp);
    ArgsFrom(w, VideoParams(w), AudioParamsAsWritten(w), FfmpegParams(w), temp)
  }

  /** The three parameter texts reach the dictionary unchanged. */
  lemma ArgsText(w: Widgets, video: string, audio: string, ffmpeg: string, temp: string)
    ensures var args := ArgsFrom(w, video, audio, ffmpeg, temp);
      && "video_params" in args && args["video_params"] == StrArg(video)
      && "audio_params" in args && args["audio_params"] == StrArg(audio)
      && "ffmpeg_cmd" in args && args["ffmpeg_cmd"] == StrArg(ffmpeg)
  {
    var a0 := ArgLiteral(w, video, audio, ffmpeg, temp);
    assert a0["video_params"] == StrArg(video);
    assert a0["audio_params"] == StrArg(audio);
    assert a0["ffmpeg_cmd"] == StrArg(ffmpeg);
  }

  /** So the pipeline the first front end starts asks Opus for the preset's
      number in bit/s. */
  lemma EncodeArgsAudioInBits(w: Widgets, temp: string)
    requires !w.customAudio && w.audio
    ensures var ws := Words(EncodeArgs(w, temp)["audio_params"].s);
      |ws| == 4 && GuiParams.FfmpegBitrate(ws[1]) == Some(w.audioBitrate)
  {
    AudioAsWrittenInBits(w);
  }

  function ArgsFrom(w: Widgets, video: string, audio: string, ffmpeg: string, temp: string): (args: Args)
    ensures "boost" in args && "br" in args && "bl" in args
  {
    Assignments(w, ArgLiteral(w, video, audio, ffmpeg, temp))
  }

  /** Boost is on exactly when not in bitrate mode and the boost is at least
      1, with the range set to the boost and the floor to 0. */
  lemma ArgsBoost(w: Widgets, video: string, audio: string, ffmpeg: string, temp: string)
    ensures var args := ArgsFrom(w, video, audio, ffmpeg, temp);
      && args["boost"] == BoolArg(BoostOn(w))
      && args["br"] == IntArg(if BoostOn(w) then w.boost else 0)
      && args["bl"] == IntArg(0)
    ensures BoostOn(w) <==> !w.bitrateMode && w.boost >= 1
  {
  }

  /** The current front end switches boost off for target VMAF as well, and
      otherwise agrees. */
  lemma BoostOnAgrees(w: Widgets)
    ensures GuiParams.BoostOn(w) <==> BoostOn(w) && !w.vmaf
  {
  }

  /** The encoder is `vpx` exactly for an index of 1 or more; passes are 2
      exactly with two-pass ticked. */
  lemma ArgsEncoderPasses(w: Widgets, video: string, audio: string, ffmpeg: string, temp: string)
    ensures var args := ArgsFrom(w, video, audio, ffmpeg, temp);
      && "encoder" in args && args["encoder"] == StrArg(if w.encoder >= 1 then "vpx" else "aom")
      && "passes" in args && args["passes"] == IntArg(if w.twoPass then 2 else 1)
  {
    var a0 := ArgLiteral(w, video, audio, ffmpeg, temp);
    assert a0["encoder"] == StrArg("aom");
    assert a0["passes"] == IntArg(if w.twoPass then 2 else 1);
  }

  /** The temp folder is the fixed one in the working directory, whatever
      the output. */
  lemma ArgsTemp(w: Widgets, video: string, audio: string, ffmpeg: string, temp: string)
    ensures var args := ArgsFrom(w, video, audio, ffmpeg, temp);
      "temp" in args && args["temp"] == PathArg(temp)
  {
  }
}
