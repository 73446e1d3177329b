/**
 Quoting of file paths inside command strings.

 The encoder commands are run through `/bin/sh`, so a path is written as a
 single-quoted word in which every `'` becomes `'"'"'` (close the quote, a
 double-quoted apostrophe, reopen; section 2.2 of the POSIX Shell Command
 Language).  The ffmpeg concat script is read with ffmpeg's own token reader,
 where a path is single-quoted and every `'` becomes `'\''`.

 Both escapes are paired with a reader for the quoting rules they target, and
 the round-trip lemmas show that reading the quoted word gives the path back.
 */
module Quoting {
  import opened Common

  /** `s.replace("'", "'\"'\"'")` */
  function ShellEscape(s: string): string {
    ReplaceChar(s, '\'', "'\"'\"'")
  }

  /** A path as the pipeline writes it into a shell command: `'<escaped>'`. */
  function ShellQuote(s: string): string {
    "'" + ShellEscape(s) + "'"
  }

  /** `s.replace('\'', '\'\\\'\'')`, i.e. every `'` becomes `'\''`. */
  function ConcatEscape(s: string): string {
    ReplaceChar(s, '\'', "'\\''")
  }

  datatype QuoteState = Outside | InSingle | InDouble

  /** Characters that a POSIX shell gives a meaning outside quotes (operators,
      quotes, expansions, blanks, pattern and comment characters). */
  predicate ShellSpecial(c: char) {
    || c == '|' || c == '&' || c == ';' || c == '<' || c == '>' || c == '(' || c == ')'
    || c == '$' || c == '`' || c == '\\' || c == '"' || c == '\''
    || c == ' ' || c == '\t' || c == '\n'
    || c == '*' || c == '?' || c == '[' || c == '#' || c == '~'
  }

  function Prepend(p: string, o: Option<string>): Option<string> {
    match o
    case None => None
    case Some(r) => Some(p + r)
  }

  /**
   ffmpeg's token reader (`av_get_token`), as the concat demuxer applies it to
   the path after `file`: single quotes group, a backslash outside quotes
   takes the next character literally, and a quote still open at the end is
   closed implicitly.  Reads `w` as ONE token starting in state `st`; None
   when an unquoted space, tab, carriage return or newline would end the
   token early.
   */
  function ConcatUnquote(w: string, st: QuoteState): Option<string>
    requires st != InDouble
    decreases |w|
  {
    if |w| == 0 then Some("")
    else
      var c := w[0];
      if st == InSingle then
        if c == '\'' then ConcatUnquote(w[1..], Outside)
        else Prepend([c], ConcatUnquote(w[1..], InSingle))
      else if c == '\'' then ConcatUnquote(w[1..], InSingle)
      else if c == '\\' then
        if |w| == 1 then Some("\\")
        else Prepend([w[1]], ConcatUnquote(w[2..], Outside))
      else if c in " \t\r\n" then None
      else Prepend([c], ConcatUnquote(w[1..], Outside))
  }

  lemma PrependNil(o: Option<string>)
    ensures Prepend("", o) == o
  {
    match o
    case None =>
    case Some(r) =>
      assert "" + r == r;
  }

  lemma PrependPrepend(p: string, q: string, o: Option<string>)
    ensures Prepend(p, Prepend(q, o)) == Prepend(p + q, o)
  {
    match o
    case None =>
    case Some(r) =>
      assert p + (q + r) == (p + q) + r;
  }

  /** Inside a single-quoted ffmpeg token, the escaped text reads back as `s`. */
  lemma {:induction false} ConcatEscapeReads(s: string, tail: string)
    ensures ConcatUnquote(ConcatEscape(s) + tail, InSingle) == Prepend(s, ConcatUnquote(tail, InSingle))
    decreases |s|
  {
    if |s| == 0 {
      assert ConcatEscape(s) + tail == tail;
      PrependNil(ConcatUnquote(tail, InSingle));
    } else {
      var rest := ConcatEscape(s[1..]) + tail;
      ConcatEscapeReads(s[1..], tail);
      ConcatEscapeCons(s, tail);
      if s[0] == '\'' {
        EscapedQuoteReads(rest);
      } else {
        PlainCharReads(s[0], rest);
      }
      PrependPrepend([s[0]], s[1..], ConcatUnquote(tail, InSingle));
      assert [s[0]] + s[1..] == s;
    }
  }

  /** The escape of a non-empty string: its first character's, then the rest's. */
  lemma ConcatEscapeCons(s: string, tail: string)
    requires |s| > 0
    ensures ConcatEscape(s) + tail
         == (if s[0] == '\'' then "'\\''" else [s[0]]) + (ConcatEscape(s[1..]) + tail)
  {
    ConcatAssoc(if s[0] == '\'' then "'\\''" else [s[0]], ConcatEscape(s[1..]), tail);
  }

  /** Inside single quotes, `'\''` closes the quote, adds an escaped `'` and
      reopens it. */
  lemma EscapedQuoteReads(rest: string)
    ensures ConcatUnquote("'\\''" + rest, InSingle) == Prepend("'", ConcatUnquote(rest, InSingle))
  {
    var w := "'\\''" + rest;
    assert w[0] == '\'' && w[1] == '\\' && w[2] == '\'' && w[3] == '\'';
    assert w[4..] == rest;
    assert ConcatUnquote(w[3..], Outside) == ConcatUnquote(rest, InSingle);
  }

  /** Any other character inside single quotes stands for itself. */
  lemma PlainCharReads(c: char, rest: string)
    requires c != '\''
    ensures ConcatUnquote([c] + rest, InSingle) == Prepend([c], ConcatUnquote(rest, InSingle))
  {
    assert ([c] + rest)[1..] == rest;
  }

  /** Round trip: ffmpeg's token reader reads `'<ConcatEscape(s)>'` as `s`. */
  lemma ConcatQuoteRoundTrip(s: string)
    ensures ConcatUnquote("'" + ConcatEscape(s) + "'", Outside) == Some(s)
  {
    var w := "'" + ConcatEscape(s) + "'";
    assert w[1..] == ConcatEscape(s) + "'";
    ConcatEscapeReads(s, "'");
    assert ConcatUnquote("'", InSingle) == Some("");
    assert s + "" == s;
  }

  // ---------------------------------------------------------------------------
  // Splitting a command line into the words the shell passes to the program

  /** The characters that end an unquoted word: blanks, the pipe operator, and
      the newline that ends a command.  No command builder emits an unquoted
      newline, so a word reader that treats it as a separator reads the same
      words as the shell does on every command modelled here. */
  predicate Delimiter(c: char) {
    c == ' ' || c == '\t' || c == '\n' || c == '|'
  }

  /** A character that stands for itself in an unquoted word. */
  predicate PlainChar(c: char) {
    !ShellSpecial(c) && !Delimiter(c)
  }

  predicate PlainWord(w: string) {
    forall i :: 0 <= i < |w| ==> PlainChar(w[i])
  }

  function PrependWord(p: string, o: Option<(string, string)>): Option<(string, string)> {
    match o
    case None => None
    case Some(wr) => Some((p + wr.0, wr.1))
  }

  /**
   Reads one POSIX shell word from the front of `s`, starting in quote state
   `st`: returns the word's text and the rest of the input, which is empty or
   starts at the delimiter that ended the word.  None when the word is not one
   this reader handles (an unterminated quote, an expansion or a
   metacharacter outside quotes).
   */
  function ReadWord(s: string, st: QuoteState): (r: Option<(string, string)>)
    ensures r.Some? ==> |r.value.1| <= |s|
    ensures r.Some? ==> r.value.1 == [] || Delimiter(r.value.1[0])
    ensures r.Some? && |s| > 0 && !(st == Outside && Delimiter(s[0])) ==> |r.value.1| < |s|
    decreases |s|
  {
    if |s| == 0 then (if st == Outside then Some(("", "")) else None)
    else
      var c := s[0];
      match st
      case InSingle =>
        if c == '\'' then ReadWord(s[1..], Outside)
        else PrependWord([c], ReadWord(s[1..], InSingle))
      case InDouble =>
        if c == '"' then ReadWord(s[1..], Outside)
        else if c in "$`\\" then None
        else PrependWord([c], ReadWord(s[1..], InDouble))
      case Outside =>
        if Delimiter(c) then Some(("", s))
        else if c == '\'' then ReadWord(s[1..], InSingle)
        else if c == '"' then ReadWord(s[1..], InDouble)
        else if c == '\\' then
          if |s| == 1 then None
          else if s[1] == '\n' then ReadWord(s[2..], Outside)
          else PrependWord([s[1]], ReadWord(s[2..], Outside))
        else if ShellSpecial(c) then None
        else PrependWord([c], ReadWord(s[1..], Outside))
  }

  function PrependToken(w: string, o: Option<seq<string>>): Option<seq<string>> {
    match o
    case None => None
    case Some(ws) => Some([w] + ws)
  }

  /** The words of a command line; a `|` is a word of its own. */
  function Tokens(s: string): Option<seq<string>>
    decreases |s|
  {
    if |s| == 0 then Some([])
    else if s[0] == '|' then PrependToken("|", Tokens(s[1..]))
    else if Delimiter(s[0]) then Tokens(s[1..])
    else
      match ReadWord(s, Outside)
      case None => None
      case Some(wr) => PrependToken(wr.0, Tokens(wr.1))
  }

  lemma TokensWordStep(s: string)
    requires |s| > 0 && !Delimiter(s[0]) && ReadWord(s, Outside).Some?
    ensures Tokens(s) == PrependToken(ReadWord(s, Outside).value.0, Tokens(ReadWord(s, Outside).value.1))
  {
  }

  lemma TokensBlankStep(s: string)
    requires |s| > 0 && Delimiter(s[0]) && s[0] != '|'
    ensures Tokens(s) == Tokens(s[1..])
  {
  }

  lemma TokensPipeStep(s: string)
    requires |s| > 0 && s[0] == '|'
    ensures Tokens(s) == PrependToken("|", Tokens(s[1..]))
  {
  }

  /** A word that ends where its text ends still ends there when a delimiter follows. */
  lemma {:induction false} ReadWordAppend(x: string, st: QuoteState, t: string)
    requires |t| > 0 && Delimiter(t[0])
    requires ReadWord(x, st).Some?
    ensures ReadWord(x + t, st) == Some((ReadWord(x, st).value.0, ReadWord(x, st).value.1 + t))
    decreases |x|
  {
    var s := x + t;
    if |x| == 0 {
      assert s == t;
    } else {
      var c := x[0];
      assert s[0] == c;
      assert s[1..] == x[1..] + t;
      match st
      case InSingle =>
        ReadWordAppend(x[1..], if c == '\'' then Outside else InSingle, t);
      case InDouble =>
        if c == '"' {
          ReadWordAppend(x[1..], Outside, t);
        } else if c !in "$`\\" {
          ReadWordAppend(x[1..], InDouble, t);
        }
      case Outside =>
        if Delimiter(c) {
        } else if c == '\'' {
          ReadWordAppend(x[1..], InSingle, t);
        } else if c == '"' {
          ReadWordAppend(x[1..], InDouble, t);
        } else if c == '\\' {
          assert |x| > 1;
          assert s[1] == x[1];
          assert s[2..] == x[2..] + t;
          ReadWordAppend(x[2..], Outside, t);
        } else if !ShellSpecial(c) {
          ReadWordAppend(x[1..], Outside, t);
        }
    }
  }

  /** Words of two command fragments joined by a blank are the words of each. */
  lemma {:induction false} TokensAppend(a: string, b: string, ta: seq<string>, tb: seq<string>)
    requires Tokens(a) == Some(ta) && Tokens(b) == Some(tb)
    ensures Tokens(a + " " + b) == Some(ta + tb)
    decreases |a|
  {
    var s := a + " " + b;
    if |a| == 0 {
      assert s[1..] == b;
      TokensBlankStep(s);
      assert ta == [];
      assert ta + tb == tb;
    } else if a[0] == '|' {
      TokensPipeStep(a);
      var ta1 := Tokens(a[1..]).value;
      TokensAppend(a[1..], b, ta1, tb);
      TokensAppendPipe(a, b, ta, tb, ta1);
    } else if Delimiter(a[0]) {
      TokensBlankStep(a);
      TokensAppend(a[1..], b, ta, tb);
      TokensAppendBlank(a, b, ta, tb);
    } else {
      TokensWordStep(a);
      var wr := ReadWord(a, Outside).value;
      var tr := Tokens(wr.1).value;
      TokensAppend(wr.1, b, tr, tb);
      TokensAppendWord(a, b, ta, tb, tr);
    }
  }

  lemma TokensAppendPipe(a: string, b: string, ta: seq<string>, tb: seq<string>, ta1: seq<string>)
    requires |a| > 0 && a[0] == '|' && Tokens(a) == Some(ta) && Tokens(b) == Some(tb)
    requires Tokens(a[1..]) == Some(ta1)
    requires Tokens(a[1..] + " " + b) == Some(ta1 + tb)
    ensures Tokens(a + " " + b) == Some(ta + tb)
  {
    var s := a + " " + b;
    TailOfJoin(a, b);
    TokensPipeStep(a);
    TokensPipeStep(s);
    ConcatAssoc(["|"], ta1, tb);
  }

  lemma TokensAppendBlank(a: string, b: string, ta: seq<string>, tb: seq<string>)
    requires |a| > 0 && Delimiter(a[0]) && a[0] != '|' && Tokens(a) == Some(ta) && Tokens(b) == Some(tb)
    requires Tokens(a[1..] + " " + b) == Some(ta + tb)
    ensures Tokens(a + " " + b) == Some(ta + tb)
  {
    TailOfJoin(a, b);
    TokensBlankStep(a + " " + b);
  }

  lemma TokensAppendWord(a: string, b: string, ta: seq<string>, tb: seq<string>, tr: seq<string>)
    requires |a| > 0 && !Delimiter(a[0]) && Tokens(a) == Some(ta) && Tokens(b) == Some(tb)
    requires ReadWord(a, Outside).Some?
    requires Tokens(ReadWord(a, Outside).value.1) == Some(tr)
    requires Tokens(ReadWord(a, Outside).value.1 + " " + b) == Some(tr + tb)
    ensures Tokens(a + " " + b) == Some(ta + tb)
  {
    var s := a + " " + b;
    var wr := ReadWord(a, Outside).value;
    TokensWordStep(a);
    ReadWordAppend(a, Outside, " " + b);
    ConcatAssoc(a, " ", b);
    TailOfJoin(a, b);
    TokensWordStep(s);
    ConcatAssoc(wr.1, " ", b);
    ConcatAssoc([wr.0], tr, tb);
  }

  lemma TokensTrailingBlank(a: string, ta: seq<string>)
    requires Tokens(a) == Some(ta)
    ensures Tokens(a + " ") == Some(ta)
  {
    TokensAppend(a, "", ta, []);
    assert a + " " + "" == a + " ";
    assert ta + [] == ta;
  }

  /** A plain word at the front is read character by character. */
  lemma {:induction false} ReadPlainPrefix(p: string, x: string)
    requires PlainWord(p)
    ensures ReadWord(p + x, Outside) == PrependWord(p, ReadWord(x, Outside))
    decreases |p|
  {
    if |p| == 0 {
      assert p + x == x;
      PrependWordNil(ReadWord(x, Outside));
    } else {
      var s := p + x;
      var c := p[0];
      assert PlainChar(c);
      assert s[0] == c;
      assert s[1..] == p[1..] + x;
      ReadPlainStep(s);
      ReadPlainPrefix(p[1..], x);
      PrependWordTwice([c], p[1..], ReadWord(x, Outside));
      assert [c] + p[1..] == p;
    }
  }

  lemma ReadPlainStep(s: string)
    requires |s| > 0 && PlainChar(s[0])
    ensures ReadWord(s, Outside) == PrependWord([s[0]], ReadWord(s[1..], Outside))
  {
    var c := s[0];
    assert !Delimiter(c) && c != '\'' && c != '"' && c != '\\' && !ShellSpecial(c);
  }

  lemma PrependWordNil(o: Option<(string, string)>)
    ensures PrependWord("", o) == o
  {
    match o
    case None =>
    case Some(wr) => assert "" + wr.0 == wr.0;
  }

  lemma PrependWordTwice(a: string, b: string, o: Option<(string, string)>)
    ensures PrependWord(a, PrependWord(b, o)) == PrependWord(a + b, o)
  {
    match o
    case None =>
    case Some(wr) => assert a + (b + wr.0) == (a + b) + wr.0;
  }

  /** The sequence `'"'"'` inside single quotes stands for one apostrophe. */
  lemma EscapedQuoteWord(rest: string)
    ensures ReadWord("'\"'\"'" + rest, InSingle) == PrependWord("'", ReadWord(rest, InSingle))
  {
    var w := "'\"'\"'" + rest;
    assert w[0] == '\'' && w[1] == '"' && w[2] == '\'' && w[3] == '"' && w[4] == '\'';
    assert w[5..] == rest;
    assert !Delimiter(w[4]);
    assert ReadWord(w[4..], Outside) == ReadWord(w[5..], InSingle);
    assert !Delimiter(w[3]) && w[3] == '"';
    assert ReadWord(w[3..], InDouble) == ReadWord(w[4..], Outside);
    assert w[2] !in "$`\\";
    assert ReadWord(w[2..], InDouble) == PrependWord("'", ReadWord(w[3..], InDouble));
    assert !Delimiter(w[1]);
    assert ReadWord(w[1..], Outside) == ReadWord(w[2..], InDouble);
  }

  lemma ReadSingleStep(s: string)
    requires |s| > 0 && s[0] != '\''
    ensures ReadWord(s, InSingle) == PrependWord([s[0]], ReadWord(s[1..], InSingle))
  {
  }

  /** Inside single quotes, the escaped text reads back as `s`. */
  lemma {:induction false} ShellEscapeWord(s: string, tail: string)
    ensures ReadWord(ShellEscape(s) + tail, InSingle) == PrependWord(s, ReadWord(tail, InSingle))
    decreases |s|
  {
    if |s| == 0 {
      assert ShellEscape(s) + tail == tail;
      PrependWordNil(ReadWord(tail, InSingle));
    } else {
      var rest := ShellEscape(s[1..]) + tail;
      ShellEscapeWord(s[1..], tail);
      if s[0] == '\'' {
        assert ShellEscape(s) + tail == "'\"'\"'" + rest;
        EscapedQuoteWord(rest);
      } else {
        var w := [s[0]] + rest;
        assert ShellEscape(s) + tail == w;
        assert w[1..] == rest;
        ReadSingleStep(w);
      }
      PrependWordTwice([s[0]], s[1..], ReadWord(tail, InSingle));
      assert [s[0]] + s[1..] == s;
    }
  }

  /** A plain prefix followed by a quoted path is one word: the prefix and the
      path itself. */
  lemma QuotedWordTokens(p: string, s: string)
    requires PlainWord(p)
    ensures Tokens(p + ShellQuote(s)) == Some([p + s])
  {
    var x := p + ShellQuote(s);
    QuotedWordRead(p, s);
    assert x[0] == (if |p| > 0 then p[0] else '\'');
    if |p| > 0 {
      assert PlainChar(p[0]);
    }
    TokensWordStep(x);
    assert [p + s] + [] == [p + s];
  }

  lemma QuotedWordRead(p: string, s: string)
    requires PlainWord(p)
    ensures ReadWord(p + ShellQuote(s), Outside) == Some((p + s, ""))
  {
    var q := ShellQuote(s);
    ShellEscapeWord(s, "'");
    assert ReadWord("'", InSingle) == Some(("", ""));
    assert q[1..] == ShellEscape(s) + "'";
    assert q[0] == '\'' && !Delimiter(q[0]);
    assert ReadWord(q, Outside) == ReadWord(q[1..], InSingle);
    assert s + "" == s;
    ReadPlainPrefix(p, q);
    PrependWordTwice(p, s, Some(("", "")));
  }

  lemma PlainWordTokens(p: string)
    requires |p| > 0 && PlainWord(p)
    ensures Tokens(p) == Some([p])
  {
    ReadPlainPrefix(p, "");
    assert p + "" == p;
    assert PlainChar(p[0]);
    PrependWordTwice(p, "", Some(("", "")));
    assert ReadWord(p, Outside) == Some((p, ""));
    TokensWordStep(p);
    assert [p] + [] == [p];
  }

  lemma PlainWordAppend(a: string, b: string)
    requires PlainWord(a) && PlainWord(b)
    ensures PlainWord(a + b)
  {
    forall i | 0 <= i < |a + b| ensures PlainChar((a + b)[i]) {
      if i >= |a| {
        assert (a + b)[i] == b[i - |a|];
      }
    }
  }

  /** A printed integer is a plain word. */
  lemma NumeralPlain(i: int)
    ensures PlainWord(IntToString(i))
  {
    var s := IntToString(i);
    forall k | 0 <= k < |s| ensures PlainChar(s[k]) {
      assert IsDigit(s[k]) || s[k] == '-';
    }
  }

  /** Non-empty plain words joined by single blanks read back as those words. */
  lemma {:induction false} JoinTokens(ws: seq<string>)
    requires forall k :: 0 <= k < |ws| ==> |ws[k]| > 0 && PlainWord(ws[k])
    ensures Tokens(Join(" ", ws)) == Some(ws)
  {
    if |ws| == 1 {
      PlainWordTokens(ws[0]);
      assert [ws[0]] == ws;
    } else if |ws| > 1 {
      JoinTokens(ws[1..]);
      PlainWordTokens(ws[0]);
      TokensAppend(ws[0], Join(" ", ws[1..]), [ws[0]], ws[1..]);
      assert [ws[0]] + ws[1..] == ws;
    }
  }

  /** Text that stands for itself between double quotes: none of the
      characters a shell still interprets there. */
  predicate DoubleWord(w: string) {
    '"' !in w && '$' !in w && '`' !in w && '\\' !in w
  }

  /** Between double quotes, ordinary text is read character by character. */
  lemma {:induction false} ReadDoublePrefix(p: string, x: string)
    requires DoubleWord(p)
    ensures ReadWord(p + x, InDouble) == PrependWord(p, ReadWord(x, InDouble))
    decreases |p|
  {
    if |p| == 0 {
      assert p + x == x;
      PrependWordNil(ReadWord(x, InDouble));
    } else {
      var s := p + x;
      var c := p[0];
      assert c in p;
      assert s[0] == c;
      assert s[1..] == p[1..] + x;
      assert c != '"' && c !in "$`\\";
      ReadDoublePrefix(p[1..], x);
      PrependWordTwice([c], p[1..], ReadWord(x, InDouble));
      assert [c] + p[1..] == p;
    }
  }

  /** A POSIX shell reads `"<s>"` as the one word `s`. */
  lemma DoubleQuotedTokens(s: string)
    requires DoubleWord(s)
    ensures Tokens("\"" + s + "\"") == Some([s])
  {
    var x := "\"" + s + "\"";
    assert x[0] == '"' && !Delimiter(x[0]);
    assert x[1..] == s + "\"";
    ReadDoublePrefix(s, "\"");
    assert ReadWord("\"", InDouble) == Some(("", ""));
    assert s + "" == s;
    assert ReadWord(x, Outside) == Some((s, ""));
    TokensWordStep(x);
    assert [s] + [] == [s];
  }

  /** Round trip: a POSIX shell reads `ShellQuote(s)` as the one word `s`. */
  lemma ShellQuoteRoundTrip(s: string)
    ensures Tokens(ShellQuote(s)) == Some([s])
  {
    QuotedWordTokens("", s);
    assert "" + ShellQuote(s) == ShellQuote(s);
    assert "" + s == s;
  }
}
