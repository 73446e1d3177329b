/**
 Encode-job composition: the encoder command fragments built for each split
 chunk by `aom_vpx_encode` and `compose_encoding_queue` (qencoder/pav1n.py)
 and by the older `aom_encode` (pav1n.py).

 A fragment is what follows `ffmpeg -y -hide_banner -loglevel error` on the
 shell command line: ffmpeg decodes the chunk and pipes raw frames into the
 encoder.  The contracts here say which job is built for which chunk; the
 argument-vector lemmas say which words the shell hands to ffmpeg and to the
 encoder, using the tokenizer of the Quoting module.

 The fragments are written as the source's f-strings with every blank as a
 separate `" "` piece, so `'{x}'` with `x` escaped reads `ShellQuote(x)`.
 Escaping before or after appending `.ivf` or `.log` gives the same text
 (`QuoteWithPlainSuffix`).
 */
module EncodeJobs {
  import opened Common
  import opened Quoting
  import opened Paths

  /** `os.devnull` on the POSIX systems the pipeline runs on. */
  const DevNull := "/dev/null"

  /** `self.d['ffmpeg_pipe']` as `__init__` builds it from the pixel format
      and the extra ffmpeg arguments (qencoder/pav1n.py:60-62). */
  function FfmpegPipe(pixFormat: string, ffmpegCmd: string): string {
    " " + " " + "-strict" + " " + "-1" + " " + "-pix_fmt" + " " + pixFormat + " " + ffmpegCmd
      + " " + "-f" + " " + "yuv4mpegpipe" + " " + "-" + " " + "|"
  }

  /** A chunk in the queue: its path under `split/` and under `encode/`. */
  datatype ChunkPaths = ChunkPaths(source: string, encoded: string)

  /** One entry of the encoding queue: the command fragment(s), the chunk's
      index in the queue, and the (source, encoded `.ivf`) pair. */
  datatype EncodeJob =
    | OnePass(command: string, index: nat, source: string, target: string)
    | TwoPass(pass1: string, pass2: string, index: nat, source: string, target: string)

  /** The encoder binary; any other encoder leaves `enc` unbound. */
  function EncoderBinary(encoder: string): (r: Result<string>)
    ensures r.Ok? <==> encoder == "aom" || encoder == "vpx"
    ensures r.Ok? ==> r.value == (if encoder == "vpx" then "vpxenc" else "aomenc")
  {
    if encoder == "vpx" then Ok("vpxenc")
    else if encoder == "aom" then Ok("aomenc")
    else Err(NameError)
  }

  /** `p.with_suffix(os.path.splitext(p)[1] + ".ivf")` */
  function IvfTarget(p: string): (r: Result<string>)
    ensures r.Ok? <==> Name(p) != ""
  {
    var e := SplitExt(p);
    var suf := e + ".ivf";
    assert '/' !in suf;
    assert suf[0] == '.' && suf != ".";
    WithSuffix(p, suf)
  }

  lemma SplitExtOfPlain(dir: string, n: string, stem: string, ext: string)
    requires dir == "" || dir[|dir| - 1] == '/'
    requires PlainName(stem, ext) && n == stem + "." + ext
    ensures SplitExt(dir + n) == "." + ext
  {
    var p := dir + n;
    var sep := |dir| - 1;
    var dot := |dir| + |stem|;
    PlainChars(dir, n, stem, ext, p);
    RFindChar(p, '/', sep);
    RFindChar(p, '.', dot);
    assert RFind(p, "/") == sep && RFind(p, ".") == dot;
    assert sep + 1 < dot && p[sep + 1] != '.';
    assert exists k :: sep + 1 <= k < dot && p[k] != '.';
  }

  /** Where the separators sit in `<dir><stem>.<ext>`. */
  lemma PlainChars(dir: string, n: string, stem: string, ext: string, p: string)
    requires PlainName(stem, ext) && n == stem + "." + ext && p == dir + n
    ensures var dot := |dir| + |stem|;
      && dot < |p| && p[dot] == '.' && p[|dir|] != '.'
      && (forall j :: |dir| <= j < |p| ==> p[j] != '/')
      && (forall j :: dot < j < |p| ==> p[j] != '.')
      && p[dot..] == "." + ext
  {
    var dot := |dir| + |stem|;
    forall j | |dir| <= j < |p| ensures p[j] == n[j - |dir|] {
    }
    forall j | |dir| <= j < dot ensures p[j] == stem[j - |dir|] && p[j] != '/' && p[j] != '.' {
      assert stem[j - |dir|] in stem;
    }
    forall j | dot < j < |p| ensures p[j] == ext[j - dot - 1] && p[j] != '/' && p[j] != '.' {
      assert ext[j - dot - 1] in ext;
    }
    assert p[dot..] == n[|stem|..];
  }

  /** For an ordinary chunk path (`<dir>/0003.mkv`) the `.ivf` target is the
      path plus `.ivf`, the same file the encoder is told to write. */
  lemma IvfTargetOfPlain(dir: string, n: string, stem: string, ext: string)
    requires dir == "" || dir[|dir| - 1] == '/'
    requires PlainName(stem, ext) && n == stem + "." + ext
    ensures IvfTarget(dir + n) == Ok(dir + n + ".ivf")
  {
    var p := dir + n;
    NameOfJoin(dir, n);
    SuffixOfPlain(stem, ext);
    SplitExtOfPlain(dir, n, stem, ext);
    var suf := "." + ext + ".ivf";
    assert SplitExt(p) + ".ivf" == suf;
    IvfName(dir, n, stem, ext);
  }

  lemma IvfName(dir: string, n: string, stem: string, ext: string)
    requires n == stem + "." + ext
    ensures dir + stem + ("." + ext + ".ivf") == dir + n + ".ivf"
  {
  }

  /** The one-pass fragment (qencoder/pav1n.py:303-304). */
  function OnePassCommand(enc: string, pipe: string, videoParams: string, c: ChunkPaths): string {
    "-i" + " " + ShellQuote(c.source) + " " + pipe + " " + " " + " " + enc + " " + "--passes=1" + " " + " " + videoParams
      + " " + "-o" + " " + ShellQuote(c.encoded + ".ivf") + " " + "-" + " "
  }

  /** The first-pass fragment: statistics to `<source>.log`, video discarded
      (qencoder/pav1n.py:314-315). */
  function FirstPassCommand(enc: string, pipe: string, videoParams: string, c: ChunkPaths): string {
    "-i" + " " + ShellQuote(c.source) + " " + pipe + " " + enc + " " + "--passes=2" + " " + "--pass=1" + " " + videoParams
      + " " + ("--fpf=" + ShellQuote(c.source + ".log")) + " " + "-o" + " " + DevNull + " " + "-" + " "
  }

  /** The second-pass fragment: reads the statistics, writes the `.ivf`
      (qencoder/pav1n.py:316-318). */
  function SecondPassCommand(enc: string, pipe: string, videoParams: string, c: ChunkPaths): string {
    "-i" + " " + ShellQuote(c.source) + " " + pipe + " " + enc + " " + "--passes=2" + " " + "--pass=2" + " " + videoParams
      + " " + ("--fpf=" + ShellQuote(c.source + ".log")) + " " + "-o" + " " + ShellQuote(c.encoded + ".ivf") + " " + "-" + " "
  }

  /** The job built for chunk `c` at position `index`. */
  predicate JobFor(passes: int, enc: string, pipe: string, videoParams: string, c: ChunkPaths, index: nat, job: EncodeJob) {
    && Name(c.encoded) != ""
    && job.index == index && job.source == c.source && job.target == IvfTarget(c.encoded).value
    && (if passes == 1
        then job == OnePass(OnePassCommand(enc, pipe, videoParams, c), index, c.source, job.target)
        else job == TwoPass(FirstPassCommand(enc, pipe, videoParams, c), SecondPassCommand(enc, pipe, videoParams, c),
                            index, c.source, job.target))
  }

  function MakeJob(passes: int, enc: string, pipe: string, videoParams: string, c: ChunkPaths, index: nat): (r: Result<EncodeJob>)
    ensures r.Ok? <==> Name(c.encoded) != ""
    ensures r.Ok? ==> JobFor(passes, enc, pipe, videoParams, c, index, r.value)
  {
    var t :- IvfTarget(c.encoded);
    if passes == 1 then Ok(OnePass(OnePassCommand(enc, pipe, videoParams, c), index, c.source, t))
    else Ok(TwoPass(FirstPassCommand(enc, pipe, videoParams, c), SecondPassCommand(enc, pipe, videoParams, c), index, c.source, t))
  }

  /**
   `aom_vpx_encode` (qencoder/pav1n.py:283-320): one job per chunk, carrying
   its position in the queue; one command for one pass, two commands for two
   passes; the target is the encoded path with `.ivf` added to its
   extension.  An encoder other than aom or vpx fails before any job is
   built; any other pass count yields None.
   */
  function AomVpxEncode(encoder: string, passes: int, pipe: string, videoParams: string, files: seq<ChunkPaths>): (r: Result<Option<seq<EncodeJob>>>)
    ensures (encoder != "aom" && encoder != "vpx") ==> r == Err(NameError)
    ensures (encoder == "aom" || encoder == "vpx") && passes != 1 && passes != 2 ==> r == Ok(None)
    ensures (encoder == "aom" || encoder == "vpx") && (passes == 1 || passes == 2) ==>
      (r.Ok? <==> forall i :: 0 <= i < |files| ==> Name(files[i].encoded) != "")
    ensures r.Ok? && r.value.Some? ==> passes == 1 || passes == 2
    ensures r.Ok? && r.value.Some? ==> |r.value.value| == |files|
    ensures r.Ok? && r.value.Some? ==> forall i :: 0 <= i < |files| ==>
      JobFor(passes, if encoder == "vpx" then "vpxenc" else "aomenc", pipe, videoParams, files[i], i, r.value.value[i])
  {
    var enc :- EncoderBinary(encoder);
    if passes == 1 || passes == 2 then
      var jobs :- MapResult((i, c) => MakeJob(passes, enc, pipe, videoParams, c, i), files, 0);
      Ok(Some(jobs))
    else Ok(None)
  }

  /** The commands of a queue entry are those of `JobFor` for its chunk. */
  lemma AomVpxEncodeCommands(encoder: string, passes: int, pipe: string, videoParams: string, files: seq<ChunkPaths>, i: nat)
    requires AomVpxEncode(encoder, passes, pipe, videoParams, files).Ok?
    requires AomVpxEncode(encoder, passes, pipe, videoParams, files).value.Some?
    requires i < |files|
    ensures var enc := if encoder == "vpx" then "vpxenc" else "aomenc";
      var job := AomVpxEncode(encoder, passes, pipe, videoParams, files).value.value[i];
      && (passes == 1 ==> job.command == OnePassCommand(enc, pipe, videoParams, files[i]))
      && (passes == 2 ==>
            job.pass1 == FirstPassCommand(enc, pipe, videoParams, files[i])
            && job.pass2 == SecondPassCommand(enc, pipe, videoParams, files[i]))
  {
    var enc := if encoder == "vpx" then "vpxenc" else "aomenc";
    assert MapResult((i, c) => MakeJob(passes, enc, pipe, videoParams, c, i), files, 0).Ok?;
  }

  /** `temp / "split" / name` and `temp / "encode" / name`. */
  function ChunkOf(temp: string, name: string): ChunkPaths {
    ChunkPaths(temp + "/split/" + name, temp + "/encode/" + name)
  }

  function ChunksOf(temp: string, names: seq<string>): (r: seq<ChunkPaths>)
    ensures |r| == |names|
    ensures forall i :: 0 <= i < |names| ==> r[i] == ChunkOf(temp, names[i])
  {
    if |names| == 0 then [] else [ChunkOf(temp, names[0])] + ChunksOf(temp, names[1..])
  }

  /**
   `compose_encoding_queue` (qencoder/pav1n.py:322-339): the queue for the
   chunk names in queue order.  A pass count other than 1 or 2 makes the
   length check fail on None; an empty queue exits.
   */
  function ComposeQueue(temp: string, names: seq<string>, encoder: string, passes: int, pipe: string, videoParams: string): (r: Result<seq<EncodeJob>>)
    ensures r.Ok? ==> |r.value| == |names| > 0
    ensures r.Ok? ==> forall i :: 0 <= i < |names| ==>
      && r.value[i].index == i
      && r.value[i].source == temp + "/split/" + names[i]
      && IvfTarget(temp + "/encode/" + names[i]).Ok?
      && r.value[i].target == IvfTarget(temp + "/encode/" + names[i]).value
    ensures (encoder == "aom" || encoder == "vpx") && (passes == 1 || passes == 2) && |names| > 0 ==>
      (r.Ok? <==> forall i :: 0 <= i < |names| ==> Name(temp + "/encode/" + names[i]) != "")
    ensures (encoder != "aom" && encoder != "vpx") ==> r == Err(NameError)
    ensures (encoder == "aom" || encoder == "vpx") && passes != 1 && passes != 2 ==> r == Err(TypeError)
    ensures (encoder == "aom" || encoder == "vpx") && (passes == 1 || passes == 2) && |names| == 0
      ==> r == Err(Fatal("Error in making command queue"))
  {
    var q :- AomVpxEncode(encoder, passes, pipe, videoParams, ChunksOf(temp, names));
    if q.None? then Err(TypeError)
    else if |q.value| == 0 then Err(Fatal("Error in making command queue"))
    else Ok(q.value)
  }

  /** With ordinary chunk names (`0000.mkv`, ...) and a valid encoder and pass
      count, a queue is composed and every target is the encoded chunk plus
      `.ivf`. */
  lemma ComposeQueueOfPlainNames(temp: string, names: seq<string>, encoder: string, passes: int, pipe: string, videoParams: string,
                                 stems: seq<string>, ext: string)
    requires encoder == "aom" || encoder == "vpx"
    requires passes == 1 || passes == 2
    requires |names| == |stems| > 0
    requires forall i :: 0 <= i < |names| ==> PlainName(stems[i], ext) && names[i] == stems[i] + "." + ext
    ensures ComposeQueue(temp, names, encoder, passes, pipe, videoParams).Ok?
    ensures forall i :: 0 <= i < |names| ==>
      ComposeQueue(temp, names, encoder, passes, pipe, videoParams).value[i].target == temp + "/encode/" + names[i] + ".ivf"
  {
    PlainChunkTargets(temp, names, stems, ext);
  }

  lemma PlainChunkTargets(temp: string, names: seq<string>, stems: seq<string>, ext: string)
    requires |names| == |stems|
    requires forall i :: 0 <= i < |names| ==> PlainName(stems[i], ext) && names[i] == stems[i] + "." + ext
    ensures forall i :: 0 <= i < |names| ==>
      IvfTarget(temp + "/encode/" + names[i]) == Ok(temp + "/encode/" + names[i] + ".ivf")
  {
    var dir := temp + "/encode/";
    assert dir[|dir| - 1] == '/';
    forall i | 0 <= i < |names|
      ensures IvfTarget(temp + "/encode/" + names[i]) == Ok(temp + "/encode/" + names[i] + ".ivf")
    {
      IvfTargetOfPlain(dir, names[i], stems[i], ext);
    }
  }

  // ---------------------------------------------------------------------------
  // What the shell hands to the programs
  //
  // Each fragment is read by the tokenizer one blank-separated piece at a
  // time, left to right, with `TokensAppend`.

  /** The fixed words of the fragments need no quoting. */
  lemma FixedWords()
    ensures PlainWord("-i") && PlainWord("-o") && PlainWord("-") && PlainWord(DevNull)
    ensures PlainWord("--passes=1") && PlainWord("--passes=2") && PlainWord("--pass=1") && PlainWord("--pass=2")
    ensures PlainWord("-strict") && PlainWord("-1") && PlainWord("-pix_fmt") && PlainWord("-f") && PlainWord("yuv4mpegpipe")
    ensures PlainWord("aomenc") && PlainWord("-q") && PlainWord("--fpf=")
  {
    PathWords();
    PassWords();
    PipeWords();
  }

  lemma PathWords()
    ensures PlainWord("-i") && PlainWord("-o") && PlainWord("-") && PlainWord(DevNull)
  {
  }

  lemma PassWords()
    ensures PlainWord("--passes=1") && PlainWord("--passes=2") && PlainWord("--pass=1") && PlainWord("--pass=2")
    ensures PlainWord("aomenc") && PlainWord("-q") && PlainWord("--fpf=")
  {
  }

  lemma PipeWords()
    ensures PlainWord("-strict") && PlainWord("-1") && PlainWord("-pix_fmt") && PlainWord("-f") && PlainWord("yuv4mpegpipe")
  {
  }

  lemma QuoteWithPlainSuffix(s: string, suffix: string)
    requires '\'' !in suffix
    ensures ShellQuote(s + suffix) == "'" + ShellEscape(s) + suffix + "'"
  {
    ReplaceCharAppend(s, suffix, '\'', "'\"'\"'");
    ReplaceCharAbsent(suffix, '\'', "'\"'\"'");
  }

  /** `prefix w`, with `w` a plain word. */
  lemma ThenWord(prefix: string, w: string, tp: seq<string>)
    requires Tokens(prefix) == Some(tp)
    requires |w| > 0 && PlainWord(w)
    ensures Tokens(prefix + " " + w) == Some(tp + [w])
  {
    PlainWordTokens(w);
    TokensAppend(prefix, w, tp, [w]);
  }

  /** `prefix '<path>'` */
  lemma ThenQuoted(prefix: string, path: string, tp: seq<string>)
    requires Tokens(prefix) == Some(tp)
    ensures Tokens(prefix + " " + ShellQuote(path)) == Some(tp + [path])
  {
    ShellQuoteRoundTrip(path);
    TokensAppend(prefix, ShellQuote(path), tp, [path]);
  }

  /** `prefix --fpf='<path>'` */
  lemma ThenFpf(prefix: string, path: string, tp: seq<string>)
    requires Tokens(prefix) == Some(tp)
    ensures Tokens(prefix + " " + ("--fpf=" + ShellQuote(path))) == Some(tp + ["--fpf=" + path])
  {
    FixedWords();
    QuotedWordTokens("--fpf=", path);
    TokensAppend(prefix, "--fpf=" + ShellQuote(path), tp, ["--fpf=" + path]);
  }

  /** `prefix <text>` where the text splits into `tt`. */
  lemma ThenText(prefix: string, text: string, tp: seq<string>, tt: seq<string>)
    requires Tokens(prefix) == Some(tp) && Tokens(text) == Some(tt)
    ensures Tokens(prefix + " " + text) == Some(tp + tt)
  {
    TokensAppend(prefix, text, tp, tt);
  }

  /** `-i '<path>' <pipe>`, the common head of the fragments. */
  lemma InputHead(path: string, pipe: string, tp: seq<string>)
    requires Tokens(pipe) == Some(tp)
    ensures Tokens("-i" + " " + ShellQuote(path) + " " + pipe) == Some(["-i", path] + tp)
  {
    FixedWords();
    PlainWordTokens("-i");
    ThenQuoted("-i", path, ["-i"]);
    assert ["-i"] + [path] == ["-i", path];
    ThenText("-i" + " " + ShellQuote(path), pipe, ["-i", path], tp);
  }

  /** `prefix - `, the end of every fragment: read the video from standard input. */
  lemma StdinTail(prefix: string, tp: seq<string>)
    requires Tokens(prefix) == Some(tp)
    ensures Tokens(prefix + " " + "-" + " ") == Some(tp + ["-"])
  {
    FixedWords();
    ThenWord(prefix, "-", tp);
    TokensTrailingBlank(prefix + " " + "-", tp + ["-"]);
  }

  /** The one-pass fragment makes ffmpeg read the chunk and the encoder write
      `<encoded>.ivf`, whatever characters the paths contain. */
  lemma OnePassArgv(enc: string, pipe: string, videoParams: string, c: ChunkPaths, tp: seq<string>, tv: seq<string>)
    requires |enc| > 0 && PlainWord(enc)
    requires Tokens(pipe) == Some(tp) && Tokens(videoParams) == Some(tv)
    ensures Tokens(OnePassCommand(enc, pipe, videoParams, c))
         == Some(["-i", c.source] + tp + [enc, "--passes=1"] + tv + ["-o", c.encoded + ".ivf", "-"])
  {
    FixedWords();
    var dst := c.encoded + ".ivf";
    var s1 := "-i" + " " + ShellQuote(c.source) + " " + pipe;
    var t1 := ["-i", c.source] + tp;
    InputHead(c.source, pipe, tp);
    TokensTrailingBlank(s1, t1);
    TokensTrailingBlank(s1 + " ", t1);
    ThenWord(s1 + " " + " ", enc, t1);
    var s2 := s1 + " " + " " + " " + enc;
    ThenWord(s2, "--passes=1", t1 + [enc]);
    var s3 := s2 + " " + "--passes=1";
    var t3 := t1 + [enc, "--passes=1"];
    assert t1 + [enc] + ["--passes=1"] == t3;
    TokensTrailingBlank(s3, t3);
    ThenText(s3 + " ", videoParams, t3, tv);
    var s4 := s3 + " " + " " + videoParams;
    ThenWord(s4, "-o", t3 + tv);
    ThenQuoted(s4 + " " + "-o", dst, t3 + tv + ["-o"]);
    var s5 := s4 + " " + "-o" + " " + ShellQuote(dst);
    StdinTail(s5, t3 + tv + ["-o"] + [dst]);
    assert t3 + tv + ["-o"] + [dst] + ["-"] == ["-i", c.source] + tp + [enc, "--passes=1"] + tv + ["-o", dst, "-"];
  }

  /** The first pass reads the chunk, keeps its statistics in `<source>.log`
      and discards the video. */
  lemma FirstPassArgv(enc: string, pipe: string, videoParams: string, c: ChunkPaths, tp: seq<string>, tv: seq<string>)
    requires |enc| > 0 && PlainWord(enc)
    requires Tokens(pipe) == Some(tp) && Tokens(videoParams) == Some(tv)
    ensures Tokens(FirstPassCommand(enc, pipe, videoParams, c))
         == Some(["-i", c.source] + tp + [enc, "--passes=2", "--pass=1"] + tv
                 + ["--fpf=" + c.source + ".log", "-o", DevNull, "-"])
  {
    FixedWords();
    var log := c.source + ".log";
    var s1 := "-i" + " " + ShellQuote(c.source) + " " + pipe;
    var t1 := ["-i", c.source] + tp;
    InputHead(c.source, pipe, tp);
    ThenWord(s1, enc, t1);
    ThenWord(s1 + " " + enc, "--passes=2", t1 + [enc]);
    ThenWord(s1 + " " + enc + " " + "--passes=2", "--pass=1", t1 + [enc] + ["--passes=2"]);
    var s2 := s1 + " " + enc + " " + "--passes=2" + " " + "--pass=1";
    var t2 := t1 + [enc, "--passes=2", "--pass=1"];
    assert t1 + [enc] + ["--passes=2"] + ["--pass=1"] == t2;
    ThenText(s2, videoParams, t2, tv);
    ThenFpf(s2 + " " + videoParams, log, t2 + tv);
    var s3 := s2 + " " + videoParams + " " + ("--fpf=" + ShellQuote(log));
    ThenWord(s3, "-o", t2 + tv + ["--fpf=" + log]);
    ThenWord(s3 + " " + "-o", DevNull, t2 + tv + ["--fpf=" + log] + ["-o"]);
    StdinTail(s3 + " " + "-o" + " " + DevNull, t2 + tv + ["--fpf=" + log] + ["-o"] + [DevNull]);
    assert "--fpf=" + log == "--fpf=" + c.source + ".log";
    assert t2 + tv + ["--fpf=" + log] + ["-o"] + [DevNull] + ["-"]
        == ["-i", c.source] + tp + [enc, "--passes=2", "--pass=1"] + tv + ["--fpf=" + c.source + ".log", "-o", DevNull, "-"];
  }

  /** The second pass reads the same statistics file and writes
      `<encoded>.ivf`. */
  lemma SecondPassArgv(enc: string, pipe: string, videoParams: string, c: ChunkPaths, tp: seq<string>, tv: seq<string>)
    requires |enc| > 0 && PlainWord(enc)
    requires Tokens(pipe) == Some(tp) && Tokens(videoParams) == Some(tv)
    ensures Tokens(SecondPassCommand(enc, pipe, videoParams, c))
         == Some(["-i", c.source] + tp + [enc, "--passes=2", "--pass=2"] + tv
                 + ["--fpf=" + c.source + ".log", "-o", c.encoded + ".ivf", "-"])
  {
    FixedWords();
    var log := c.source + ".log";
    var dst := c.encoded + ".ivf";
    var s1 := "-i" + " " + ShellQuote(c.source) + " " + pipe;
    var t1 := ["-i", c.source] + tp;
    InputHead(c.source, pipe, tp);
    ThenWord(s1, enc, t1);
    ThenWord(s1 + " " + enc, "--passes=2", t1 + [enc]);
    ThenWord(s1 + " " + enc + " " + "--passes=2", "--pass=2", t1 + [enc] + ["--passes=2"]);
    var s2 := s1 + " " + enc + " " + "--passes=2" + " " + "--pass=2";
    var t2 := t1 + [enc, "--passes=2", "--pass=2"];
    assert t1 + [enc] + ["--passes=2"] + ["--pass=2"] == t2;
    ThenText(s2, videoParams, t2, tv);
    ThenFpf(s2 + " " + videoParams, log, t2 + tv);
    var s3 := s2 + " " + videoParams + " " + ("--fpf=" + ShellQuote(log));
    ThenWord(s3, "-o", t2 + tv + ["--fpf=" + log]);
    ThenQuoted(s3 + " " + "-o", dst, t2 + tv + ["--fpf=" + log] + ["-o"]);
    StdinTail(s3 + " " + "-o" + " " + ShellQuote(dst), t2 + tv + ["--fpf=" + log] + ["-o"] + [dst]);
    assert "--fpf=" + log == "--fpf=" + c.source + ".log";
    assert t2 + tv + ["--fpf=" + log] + ["-o"] + [dst] + ["-"]
        == ["-i", c.source] + tp + [enc, "--passes=2", "--pass=2"] + tv + ["--fpf=" + c.source + ".log", "-o", dst, "-"];
  }

  /** The pipe as built from a plain pixel format and ffmpeg arguments: the
      arguments reach ffmpeg between the pixel format and the raw-video
      output, and the pipe symbol stands alone. */
  lemma FfmpegPipeArgv(pixFormat: string, ffmpegCmd: string, tc: seq<string>)
    requires |pixFormat| > 0 && PlainWord(pixFormat)
    requires Tokens(ffmpegCmd) == Some(tc)
    ensures Tokens(FfmpegPipe(pixFormat, ffmpegCmd))
         == Some(["-strict", "-1", "-pix_fmt", pixFormat] + tc + ["-f", "yuv4mpegpipe", "-", "|"])
  {
    FixedWords();
    var s0 := " ";
    assert s0[1..] == "";
    TokensBlankStep(s0);
    ThenWord(s0, "-strict", []);
    ThenWord(s0 + " " + "-strict", "-1", [] + ["-strict"]);
    ThenWord(s0 + " " + "-strict" + " " + "-1", "-pix_fmt", [] + ["-strict"] + ["-1"]);
    var s1 := s0 + " " + "-strict" + " " + "-1" + " " + "-pix_fmt";
    var t1 := ["-strict", "-1", "-pix_fmt"];
    assert [] + ["-strict"] + ["-1"] + ["-pix_fmt"] == t1;
    ThenWord(s1, pixFormat, t1);
    ThenText(s1 + " " + pixFormat, ffmpegCmd, t1 + [pixFormat], tc);
    var s2 := s1 + " " + pixFormat + " " + ffmpegCmd;
    var t2 := t1 + [pixFormat] + tc;
    ThenWord(s2, "-f", t2);
    ThenWord(s2 + " " + "-f", "yuv4mpegpipe", t2 + ["-f"]);
    ThenWord(s2 + " " + "-f" + " " + "yuv4mpegpipe", "-", t2 + ["-f"] + ["yuv4mpegpipe"]);
    var s3 := s2 + " " + "-f" + " " + "yuv4mpegpipe" + " " + "-";
    var t3 := t2 + ["-f"] + ["yuv4mpegpipe"] + ["-"];
    PipeWord();
    TokensAppend(s3, "|", t3, ["|"]);
    assert t3 + ["|"] == ["-strict", "-1", "-pix_fmt", pixFormat] + tc + ["-f", "yuv4mpegpipe", "-", "|"];
  }

  /** The `|` that ends the pipe is a token of its own. */
  lemma PipeWord()
    ensures Tokens("|") == Some(["|"])
  {
    TokensPipeStep("|");
    assert "|"[1..] == "";
    assert ["|"] + [] == ["|"];
  }

  // ---------------------------------------------------------------------------
  // The older pipeline (pav1n.py)

  /** The older pipe: pixel format only (pav1n.py:45-46). */
  function LegacyPipe(pixFormat: string): string {
    " " + "-pix_fmt" + " " + pixFormat + " " + "-f" + " " + "yuv4mpegpipe" + " " + "-" + " " + "|"
  }

  /** The older queue entry: always both passes, then (source, target). */
  datatype LegacyJob = LegacyJob(pass1: string, pass2: string, source: string, target: string)

  /** The older first pass; paths are written unquoted (pav1n.py:221-222). */
  function LegacyFirstPass(pipe: string, videoParams: string, src: string, stats: string): string {
    "-i" + " " + src + " " + pipe + " " + "aomenc" + " " + "-q" + " " + "--passes=2" + " " + "--pass=1" + " " + videoParams
      + " " + ("--fpf=" + stats) + " " + "-o" + " " + DevNull + " " + "-" + " "
  }

  /** The older second pass, with its doubled blank after `aomenc`
      (pav1n.py:223-224). */
  function LegacySecondPass(pipe: string, videoParams: string, src: string, stats: string, ivf: string): string {
    "-i" + " " + src + " " + pipe + " " + "aomenc" + " " + " " + "-q" + " " + "--passes=2" + " " + "--pass=2" + " " + videoParams
      + " " + ("--fpf=" + stats) + " " + "-o" + " " + ivf + " " + "-" + " "
  }

  /**
   `aom_encode` (pav1n.py:213-227): two passes for every chunk whatever the
   configured pass count, statistics in `<split>/<stem>.log`, output
   `<encode>/<stem>.ivf` (the extension is replaced, not extended).
   */
  function LegacyAomJob(pipe: string, videoParams: string, c: ChunkPaths): (r: Result<LegacyJob>)
    ensures r.Ok? <==> Name(c.source) != "" && Name(c.encoded) != ""
    ensures r.Ok? ==> r.value.source == c.source && r.value.target == WithSuffix(c.encoded, ".ivf").value
  {
    var stats :- WithSuffix(c.source, ".log");
    var ivf :- WithSuffix(c.encoded, ".ivf");
    Ok(LegacyJob(LegacyFirstPass(pipe, videoParams, c.source, stats),
                 LegacySecondPass(pipe, videoParams, c.source, stats, ivf),
                 c.source, ivf))
  }

  function LegacyAomEncode(pipe: string, videoParams: string, files: seq<ChunkPaths>): (r: Result<seq<LegacyJob>>)
    ensures r.Ok? <==> forall i :: 0 <= i < |files| ==> Name(files[i].source) != "" && Name(files[i].encoded) != ""
    ensures r.Ok? ==> |r.value| == |files|
    ensures r.Ok? ==> forall i :: 0 <= i < |files| ==> LegacyAomJob(pipe, videoParams, files[i]) == Ok(r.value[i])
  {
    MapResult((_, c) => LegacyAomJob(pipe, videoParams, c), files, 0)
  }

  /** The older `compose_encoding_queue` (pav1n.py:229-247): only aom is
      accepted; anything else exits. */
  function LegacyComposeQueue(temp: string, names: seq<string>, encoder: string, pipe: string, videoParams: string): (r: Result<seq<LegacyJob>>)
    ensures encoder != "aom" ==> r.Err? && r.error.Fatal?
    ensures r.Ok? ==> |r.value| == |names|
    ensures r.Ok? ==> forall i :: 0 <= i < |names| ==> r.value[i].source == temp + "/split/" + names[i]
    ensures encoder == "aom" ==> (r.Ok? <==> forall i :: 0 <= i < |names| ==>
      Name(temp + "/split/" + names[i]) != "" && Name(temp + "/encode/" + names[i]) != "")
    ensures r.Ok? ==> forall i :: 0 <= i < |names| ==>
      LegacyAomJob(pipe, videoParams, ChunkPaths(temp + "/split/" + names[i], temp + "/encode/" + names[i])) == Ok(r.value[i])
  {
    if encoder != "aom" then Err(Fatal("No valid encoder"))
    else LegacyAomEncode(pipe, videoParams, ChunksOf(temp, names))
  }

  /** With plain paths, the older first pass reads the chunk, keeps its
      statistics and discards the video. */
  lemma LegacyFirstPassArgv(pipe: string, videoParams: string, src: string, stats: string, tp: seq<string>, tv: seq<string>)
    requires |src| > 0 && PlainWord(src) && PlainWord(stats)
    requires Tokens(pipe) == Some(tp) && Tokens(videoParams) == Some(tv)
    ensures Tokens(LegacyFirstPass(pipe, videoParams, src, stats))
         == Some(["-i", src] + tp + ["aomenc", "-q", "--passes=2", "--pass=1"] + tv + ["--fpf=" + stats, "-o", DevNull, "-"])
  {
    FixedWords();
    var s1 := LegacyHead(pipe, src, tp);
    var t1 := ["-i", src] + tp + ["aomenc"];
    ThenWord(s1, "-q", t1);
    ThenWord(s1 + " " + "-q", "--passes=2", t1 + ["-q"]);
    ThenWord(s1 + " " + "-q" + " " + "--passes=2", "--pass=1", t1 + ["-q"] + ["--passes=2"]);
    var s2 := s1 + " " + "-q" + " " + "--passes=2" + " " + "--pass=1";
    var t2 := ["-i", src] + tp + ["aomenc", "-q", "--passes=2", "--pass=1"];
    assert t1 + ["-q"] + ["--passes=2"] + ["--pass=1"] == t2;
    LegacyTail(s2, videoParams, stats, DevNull, t2, tv);
  }

  /** With plain paths, the older second pass reads the chunk and the
      statistics and writes the target. */
  lemma LegacySecondPassArgv(pipe: string, videoParams: string, src: string, stats: string, ivf: string, tp: seq<string>, tv: seq<string>)
    requires |src| > 0 && PlainWord(src) && PlainWord(stats) && |ivf| > 0 && PlainWord(ivf)
    requires Tokens(pipe) == Some(tp) && Tokens(videoParams) == Some(tv)
    ensures Tokens(LegacySecondPass(pipe, videoParams, src, stats, ivf))
         == Some(["-i", src] + tp + ["aomenc", "-q", "--passes=2", "--pass=2"] + tv + ["--fpf=" + stats, "-o", ivf, "-"])
  {
    FixedWords();
    var s1 := LegacyHead(pipe, src, tp);
    var t1 := ["-i", src] + tp + ["aomenc"];
    TokensTrailingBlank(s1, t1);
    ThenWord(s1 + " ", "-q", t1);
    ThenWord(s1 + " " + " " + "-q", "--passes=2", t1 + ["-q"]);
    ThenWord(s1 + " " + " " + "-q" + " " + "--passes=2", "--pass=2", t1 + ["-q"] + ["--passes=2"]);
    var s2 := s1 + " " + " " + "-q" + " " + "--passes=2" + " " + "--pass=2";
    var t2 := ["-i", src] + tp + ["aomenc", "-q", "--passes=2", "--pass=2"];
    assert t1 + ["-q"] + ["--passes=2"] + ["--pass=2"] == t2;
    LegacyTail(s2, videoParams, stats, ivf, t2, tv);
  }

  /** `-i <src> <pipe> aomenc` */
  lemma LegacyHead(pipe: string, src: string, tp: seq<string>) returns (s: string)
    requires |src| > 0 && PlainWord(src)
    requires Tokens(pipe) == Some(tp)
    ensures s == "-i" + " " + src + " " + pipe + " " + "aomenc"
    ensures Tokens(s) == Some(["-i", src] + tp + ["aomenc"])
  {
    FixedWords();
    PlainWordTokens("-i");
    ThenWord("-i", src, ["-i"]);
    assert ["-i"] + [src] == ["-i", src];
    ThenText("-i" + " " + src, pipe, ["-i", src], tp);
    ThenWord("-i" + " " + src + " " + pipe, "aomenc", ["-i", src] + tp);
    s := "-i" + " " + src + " " + pipe + " " + "aomenc";
  }

  /** `<prefix> <params> --fpf=<stats> -o <out> - ` */
  lemma LegacyTail(prefix: string, videoParams: string, stats: string, out: string, tp: seq<string>, tv: seq<string>)
    requires Tokens(prefix) == Some(tp) && Tokens(videoParams) == Some(tv)
    requires PlainWord(stats) && |out| > 0 && PlainWord(out)
    ensures Tokens(prefix + " " + videoParams + " " + ("--fpf=" + stats) + " " + "-o" + " " + out + " " + "-" + " ")
         == Some(tp + tv + ["--fpf=" + stats, "-o", out, "-"])
  {
    var f := "--fpf=" + stats;
    assert PlainWord(f) && |f| > 0 && PlainWord("-o") by {
      FixedWords();
      PlainWordAppend("--fpf=", stats);
    }
    ThenText(prefix, videoParams, tp, tv);
    var s1 := prefix + " " + videoParams;
    var t1 := tp + tv;
    ThenWord(s1, f, t1);
    ThenWord(s1 + " " + f, "-o", t1 + [f]);
    ThenWord(s1 + " " + f + " " + "-o", out, t1 + [f] + ["-o"]);
    StdinTail(s1 + " " + f + " " + "-o" + " " + out, t1 + [f] + ["-o"] + [out]);
    assert t1 + [f] + ["-o"] + [out] + ["-"] == tp + tv + [f, "-o", out, "-"];
  }

  /** With plain paths, both older passes share the statistics file; the
      first discards the video and the second writes the job's target.  A
      path with a blank or a shell metacharacter breaks these unquoted
      fragments, which the current fragments avoid by quoting. */
  lemma LegacyAomArgv(pipe: string, videoParams: string, c: ChunkPaths, tp: seq<string>, tv: seq<string>)
    requires LegacyAomJob(pipe, videoParams, c).Ok?
    requires |c.source| > 0 && PlainWord(c.source)
    requires PlainWord(WithSuffix(c.source, ".log").value)
    requires |WithSuffix(c.encoded, ".ivf").value| > 0 && PlainWord(WithSuffix(c.encoded, ".ivf").value)
    requires Tokens(pipe) == Some(tp) && Tokens(videoParams) == Some(tv)
    ensures var job := LegacyAomJob(pipe, videoParams, c).value;
      var stats := WithSuffix(c.source, ".log").value;
      && Tokens(job.pass1) == Some(["-i", c.source] + tp + ["aomenc", "-q", "--passes=2", "--pass=1"] + tv
                                   + ["--fpf=" + stats, "-o", DevNull, "-"])
      && Tokens(job.pass2) == Some(["-i", c.source] + tp + ["aomenc", "-q", "--passes=2", "--pass=2"] + tv
                                   + ["--fpf=" + stats, "-o", job.target, "-"])
  {
    var stats := WithSuffix(c.source, ".log").value;
    var ivf := WithSuffix(c.encoded, ".ivf").value;
    LegacyFirstPassArgv(pipe, videoParams, c.source, stats, tp, tv);
    LegacySecondPassArgv(pipe, videoParams, c.source, stats, ivf, tp, tv);
  }
}
