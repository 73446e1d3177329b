/**
 Joining the encoded chunks into the output file (`concatenate_video` in
 qencoder/ffmpeg.py and pav1n.py): the list file handed to ffmpeg's concat
 demuxer, the ffmpeg argument vector, and what happens after the run.

 The directory listing is an input: `encoded` is the listing of
 `temp/encode` already in `sorted()` order, as absolute paths.
 */
module Assemble {
  import opened Common
  import opened Quoting

  // ---------------------------------------------------------------------------
  // The concat list

  /** The path as the list writes it: single-quoted, each `'` rewritten as `'\''`. */
  function QuotedPath(p: string): (q: string)
    ensures '\n' !in p ==> '\n' !in q
    ensures |q| >= 2 && q[0] == '\'' && q[|q| - 1] == '\''
  {
    "'" + ConcatEscape(p) + "'"
  }

  /** One line of the concat list. */
  function ConcatLine(p: string): string {
    "file " + QuotedPath(p) + "\n"
  }

  /** The whole list: one line per encoded file, in listing order. */
  function ConcatList(encoded: seq<string>): (text: string)
    ensures |encoded| > 0 ==> text == ConcatLine(encoded[0]) + ConcatList(encoded[1..])
    ensures text == "" <==> |encoded| == 0
  {
    if |encoded| == 0 then "" else ConcatLine(encoded[0]) + ConcatList(encoded[1..])
  }

  /** The offset of the first newline of `text`, or `|text|` when it has none. */
  function NewlineAt(text: string): (n: nat)
    ensures n <= |text|
  {
    if |text| == 0 || text[0] == '\n' then 0 else 1 + NewlineAt(text[1..])
  }

  lemma {:induction false} NewlineAfter(a: string, rest: string)
    requires '\n' !in a
    ensures NewlineAt(a + "\n" + rest) == |a|
    decreases |a|
  {
    if |a| > 0 {
      assert (a + "\n" + rest)[1..] == a[1..] + "\n" + rest;
      NewlineAfter(a[1..], rest);
    }
  }

  /**
   How the concat demuxer reads a list made of `file <path>` lines: each line
   ends with a newline and names one file, the path read with ffmpeg's token
   reader.  None for any other line.
   */
  function ReadConcatList(text: string): (r: Option<seq<string>>)
    ensures r.Some? && |text| > 0 ==> |r.value| > 0
    decreases |text|
  {
    if |text| == 0 then Some([])
    else
      var n := NewlineAt(text);
      if n == |text| then None
      else
        var line := text[..n];
        if !StartsWith(line, "file ") then None
        else
          match (ConcatUnquote(line[5..], Outside), ReadConcatList(text[n + 1..]))
          case (Some(p), Some(ps)) => Some([p] + ps)
          case _ => None
  }

  /** One line is read back as its path, whatever quotes the path holds. */
  lemma ReadConcatLine(p: string, rest: string)
    requires '\n' !in p
    ensures ReadConcatList(ConcatLine(p) + rest) == Prepend1(p, ReadConcatList(rest))
  {
    var a := "file " + QuotedPath(p);
    var text := ConcatLine(p) + rest;
    assert text == a + "\n" + rest;
    NewlineAfter(a, rest);
    assert text[..|a|] == a;
    assert a[..5] == "file ";
    assert a[5..] == "'" + ConcatEscape(p) + "'";
    ConcatQuoteRoundTrip(p);
    assert text[|a| + 1..] == rest;
  }

  function Prepend1(p: string, o: Option<seq<string>>): Option<seq<string>> {
    match o
    case None => None
    case Some(ps) => Some([p] + ps)
  }

  /** Round trip: the demuxer reads back exactly the encoded files, in
      order, provided no path holds a newline. */
  lemma {:induction false} ConcatListRoundTrip(encoded: seq<string>)
    requires forall k :: 0 <= k < |encoded| ==> '\n' !in encoded[k]
    ensures ReadConcatList(ConcatList(encoded)) == Some(encoded)
    decreases |encoded|
  {
    if |encoded| > 0 {
      ConcatListRoundTrip(encoded[1..]);
      ReadConcatLine(encoded[0], ConcatList(encoded[1..]));
      assert [encoded[0]] + encoded[1..] == encoded;
    }
  }

  /** pav1n.py writes the path between quotes without rewriting `'`. */
  function LegacyConcatLine(p: string): string {
    "file '" + p + "'\n"
  }

  /** Both writers agree on every path without a single quote. */
  lemma LegacyConcatLineAgrees(p: string)
    requires '\'' !in p
    ensures LegacyConcatLine(p) == ConcatLine(p)
  {
    ReplaceCharAbsent(p, '\'', "'\\''");
  }

  /** ... and a path with one is misread: `a'b` comes back as `ab`. */
  lemma LegacyConcatLineMisreads()
    ensures ReadConcatList(LegacyConcatLine("a'b")) == Some(["ab"])
  {
    var text := LegacyConcatLine("a'b");
    assert text == "file " + "'a'b'" + "\n" + "";
    NewlineAfter("file " + "'a'b'", "");
    assert text[..10] == "file 'a'b'";
    assert text[11..] == "";
    assert text[..10][5..] == "'a'b'";
    QuotedAQuoteB();
    assert NewlineAt(text) == 10;
    assert StartsWith(text[..10], "file ");
    assert ReadConcatList(text[11..]) == Some([]);
    assert ["ab"] + [] == ["ab"];
  }

  /** The token reader on `'a'b'`: the quote inside ends the quoted part,
      `b` stands outside, and the last quote opens an empty quoted part. */
  lemma QuotedAQuoteB()
    ensures ConcatUnquote("'a'b'", Outside) == Some("ab")
  {
    assert "'"[1..] == "";
    assert ConcatUnquote("'", Outside) == Some("");
    assert "b'"[1..] == "'";
    assert ['b'] + "" == "b";
    assert ConcatUnquote("b'", Outside) == Some("b");
    assert "'b'"[1..] == "b'";
    assert ConcatUnquote("'b'", InSingle) == Some("b");
    assert "a'b'"[1..] == "'b'";
    assert ['a'] + "b" == "ab";
    assert ConcatUnquote("a'b'", InSingle) == Some("ab");
    assert "'a'b'"[1..] == "a'b'";
  }

  // ---------------------------------------------------------------------------
  // The ffmpeg command

  /** `cmd1 + audio + cmd2`, the audio inputs present exactly when
      `temp/audio.mkv` exists. The output always comes last, after `-y`. */
  function ConcatArgv(temp: string, output: string, audioExists: bool): (argv: seq<string>)
    ensures |argv| == (if audioExists then 23 else 17)
    ensures argv[..9] == ConcatFlags && argv[9] == "-i" && argv[10] == temp + "/concat"
    ensures audioExists ==> argv[11] == "-i" && argv[12] == temp + "/audio.mkv"
    ensures argv[|argv| - 1] == output && argv[|argv| - 2] == "-y"
  {
    ConcatFlags + ["-i", temp + "/concat"] + AudioArgs(temp, audioExists) + OutputArgs(output)
  }

  /** The front of `cmd1`: quiet ffmpeg reading a concat list with absolute paths. */
  const ConcatFlags: seq<string> := ["ffmpeg", "-y", "-hide_banner", "-loglevel", "error", "-f", "concat", "-safe", "0"]

  function AudioArgs(temp: string, audioExists: bool): seq<string> {
    if audioExists then ["-i", temp + "/audio.mkv", "-c:a", "copy", "-map", "1"] else []
  }

  /** `cmd2`: copy the streams into the output, overwriting it. */
  function OutputArgs(output: string): seq<string> {
    ["-c", "copy", "-map", "0", "-y", output]
  }

  /** The files ffmpeg opens as inputs: the value after each `-i`. */
  function Inputs(argv: seq<string>): seq<string>
    decreases |argv|
  {
    if |argv| < 2 then []
    else if argv[0] == "-i" then [argv[1]] + Inputs(argv[2..])
    else Inputs(argv[1..])
  }

  lemma {:induction false} InputsNone(argv: seq<string>)
    requires forall k :: 0 <= k < |argv| - 1 ==> argv[k] != "-i"
    ensures Inputs(argv) == []
    decreases |argv|
  {
    if |argv| >= 2 {
      assert argv[0] != "-i";
      assert forall k :: 0 <= k < |argv[1..]| - 1 ==> argv[1..][k] == argv[k + 1];
      InputsNone(argv[1..]);
    }
  }

  /** Inputs of a concatenation, when no `-i` straddles the seam. */
  lemma {:induction false} InputsAppend(a: seq<string>, b: seq<string>)
    requires |a| == 0 || a[|a| - 1] != "-i"
    ensures Inputs(a + b) == Inputs(a) + Inputs(b)
    decreases |a|
  {
    if |a| == 0 {
      assert a + b == b;
    } else if a[0] == "-i" {
      SliceOfConcat(a, b, 2);
      assert (a + b)[0] == "-i" && (a + b)[1] == a[1];
      InputsAppend(a[2..], b);
    } else if |a| == 1 && |b| == 0 {
      assert a + b == a;
    } else {
      SliceOfConcat(a, b, 1);
      assert (a + b)[0] == a[0];
      InputsAppend(a[1..], b);
    }
  }

  lemma InputsPair(x: string, tail: seq<string>)
    requires forall k :: 0 <= k < |tail| - 1 ==> tail[k] != "-i"
    ensures Inputs(["-i", x] + tail) == [x]
  {
    var s := ["-i", x] + tail;
    assert s[2..] == tail;
    InputsNone(tail);
  }

  /** ffmpeg reads the concat list, plus the extracted audio exactly when it
      exists, and nothing else. */
  lemma ConcatArgvInputs(temp: string, output: string, audioExists: bool)
    ensures Inputs(ConcatArgv(temp, output, audioExists))
         == [temp + "/concat"] + (if audioExists then [temp + "/audio.mkv"] else [])
  {
    var pair := ["-i", temp + "/concat"];
    var audio := AudioArgs(temp, audioExists);
    var cmd2 := OutputArgs(output);
    ConcatAssoc(ConcatFlags + pair, audio, cmd2);
    ConcatAssoc(ConcatFlags, pair, audio + cmd2);
    FlagsReadNothing();
    InputsAppend(ConcatFlags, pair + (audio + cmd2));
    InputsAppend(pair, audio + cmd2);
    assert pair == pair + [];
    InputsPair(temp + "/concat", []);
    AudioInputs(temp, audioExists, cmd2);
    OutputReadsNothing(output);
  }

  lemma FlagsReadNothing()
    ensures Inputs(ConcatFlags) == []
  {
    InputsNone(ConcatFlags);
  }

  lemma OutputReadsNothing(output: string)
    ensures Inputs(OutputArgs(output)) == []
  {
    InputsNone(OutputArgs(output));
  }

  /** The audio part opens `temp/audio.mkv` exactly when it exists. */
  lemma AudioInputs(temp: string, audioExists: bool, rest: seq<string>)
    ensures Inputs(AudioArgs(temp, audioExists) + rest)
         == (if audioExists then [temp + "/audio.mkv"] else []) + Inputs(rest)
  {
    var audio := AudioArgs(temp, audioExists);
    if audioExists {
      var tail := ["-c:a", "copy", "-map", "1"];
      assert audio == ["-i", temp + "/audio.mkv"] + tail;
      InputsPair(temp + "/audio.mkv", tail);
      InputsAppend(audio, rest);
    } else {
      assert audio + rest == rest;
    }
  }

  // ---------------------------------------------------------------------------
  // After the run

  /** Any output at all from the ffmpeg run (stdout and stderr together) is
      taken as a failure and raises. */
  function ConcatOutcome(runOutput: string): (r: Result<()>)
    ensures r.Ok? <==> |runOutput| == 0
  {
    if |runOutput| > 0 then Err(Fatal("concatenation produced output")) else Ok(())
  }

  datatype Cleanup = KeepTemp | DeleteTemp | ExitKeepingTemp

  /** pav1n.py: on success temp is deleted unless `keep`; a failure is caught
      and ends the program with temp left in place. */
  function LegacyConcatCleanup(runOutput: string, keep: bool): (c: Cleanup)
    ensures c == DeleteTemp <==> |runOutput| == 0 && !keep
    ensures c == ExitKeepingTemp <==> ConcatOutcome(runOutput).Err?
  {
    if |runOutput| > 0 then ExitKeepingTemp
    else if keep then KeepTemp
    else DeleteTemp
  }
}
