/**
 The parts of Python's `pathlib.PurePosixPath` and `posixpath` that the
 pipeline uses to name files: `name`, `suffix`, `stem`, `with_name`,
 `with_suffix`, `os.path.splitext`, `os.path.basename` and `os.path.dirname`.

 A path is the string `str(p)` of an already normalised path (no doubled or
 trailing separators), which is what `pathlib` hands out.
 */
module Paths {
  import opened Common

  /** `p.name`: the text after the last `/` (empty for `.` and `/`). */
  function Name(p: string): (n: string)
    ensures '/' !in n
  {
    if p == "." then "" else
    var i := RFind(p, "/");
    NoSlashAfterLast(p, i);
    p[i + 1..]
  }

  lemma NoSlashAfterLast(p: string, i: int)
    requires i == RFind(p, "/")
    ensures -1 <= i < |p|
    ensures '/' !in p[i + 1..]
  {
    if i != -1 {
      assert OccursAt(p, "/", i);
    }
    forall k | i + 1 <= k < |p|
      ensures p[k] != '/'
    {
      if p[k] == '/' {
        assert OccursAt(p, "/", k);
      }
    }
  }

  /** Everything up to and including the last `/`. */
  function Dir(p: string): string {
    if p == "." then "" else PyPrefix(p, RFind(p, "/") + 1)
  }

  /** `name.rfind('.')` when it marks a suffix, i.e. `0 < i < len(name) - 1`. */
  function SuffixDot(name: string): int {
    var i := RFind(name, ".");
    if 0 < i < |name| - 1 then i else -1
  }

  /** `PurePath.suffix` of a file name. */
  function Suffix(name: string): string {
    var i := SuffixDot(name);
    if i == -1 then "" else name[i..]
  }

  /** `PurePath.stem` of a file name. */
  function Stem(name: string): string {
    var i := SuffixDot(name);
    if i == -1 then name else name[..i]
  }

  lemma StemSuffix(name: string)
    ensures Stem(name) + Suffix(name) == name
  {
    var i := SuffixDot(name);
    if i != -1 {
      assert name[..i] + name[i..] == name;
    }
  }

  /** `p.with_name(n)` for a valid new name. */
  function WithName(p: string, n: string): string {
    Dir(p) + n
  }

  /** The validity test `with_suffix` makes before touching the path. */
  predicate ValidSuffix(suf: string) {
    '/' !in suf && (suf == "" || (suf[0] == '.' && suf != "."))
  }

  /** `p.with_suffix(suf)`: replaces the name's suffix (or appends one);
      raises ValueError for an invalid suffix or a path without a name. */
  function WithSuffix(p: string, suf: string): (r: Result<string>)
    ensures r.Ok? <==> ValidSuffix(suf) && Name(p) != ""
    ensures r.Ok? ==> r.value == Dir(p) + Stem(Name(p)) + suf
  {
    if !ValidSuffix(suf) || Name(p) == "" then Err(ValueError)
    else Ok(WithName(p, Stem(Name(p)) + suf))
  }

  /** The extension `os.path.splitext(p)[1]`: from the last `.` of the last
      component, provided some character before it in that component is not a
      dot; otherwise empty. */
  function SplitExt(p: string): (e: string)
    ensures e == "" || e[0] == '.'
    ensures '/' !in e
  {
    var sep := RFind(p, "/");
    var dot := RFind(p, ".");
    NoSlashAfterLast(p, sep);
    if dot > sep && exists k :: sep + 1 <= k < dot && p[k] != '.' then
      assert OccursAt(p, ".", dot);
      assert p[dot..] == p[sep + 1..][dot - sep - 1..];
      p[dot..]
    else ""
  }

  /** `os.path.basename(p)` */
  function Basename(p: string): string {
    PySuffix(p, RFind(p, "/") + 1)
  }

  /** `os.path.dirname(p)`: the head, with trailing slashes removed unless it
      consists of slashes only. */
  function Dirname(p: string): string {
    var head := PyPrefix(p, RFind(p, "/") + 1);
    if |head| > 0 && exists k :: 0 <= k < |head| && head[k] != '/' then RStripSlash(head)
    else head
  }

  function RStripSlash(s: string): string {
    if |s| > 0 && s[|s| - 1] == '/' then RStripSlash(s[..|s| - 1]) else s
  }

  lemma {:induction false} RStripSlashWithin(s: string, c: char)
    requires c !in s
    ensures c !in RStripSlash(s)
    decreases |s|
  {
    if |s| > 0 && s[|s| - 1] == '/' {
      RStripSlashWithin(s[..|s| - 1], c);
    }
  }

  /** Both halves of a path are pieces of it: a character the path lacks,
      they lack too. */
  lemma SplitWithin(p: string, c: char)
    requires c !in p
    ensures c !in Dirname(p) && c !in Basename(p)
  {
    var i := RFind(p, "/") + 1;
    assert 0 <= i <= |p|;
    assert c !in p[..i] && c !in p[i..];
    if |p[..i]| > 0 {
      RStripSlashWithin(p[..i], c);
    }
  }

  /** A name with a proper suffix: some non-dot text, then `.`, then a
      non-empty extension without dots (the split directory holds `0000.mkv`,
      `0001.mkv`, ...). */
  predicate PlainName(stem: string, ext: string) {
    |stem| > 0 && '.' !in stem && '/' !in stem && |ext| > 0 && '.' !in ext && '/' !in ext
  }

  /** A name appended to a directory prefix is the path's name again. */
  lemma NameOfJoin(dir: string, n: string)
    requires |n| > 0 && '/' !in n && n != "."
    requires dir == "" || dir[|dir| - 1] == '/'
    ensures Name(dir + n) == n
    ensures Dir(dir + n) == dir
  {
    var p := dir + n;
    forall j | |dir| - 1 < j < |p| ensures p[j] != '/' {
      assert p[j] == n[j - |dir|];
    }
    RFindChar(p, '/', |dir| - 1);
    assert p[|dir|..] == n;
    assert p[..|dir|] == dir;
  }

  /** `Dir` is empty or ends in the separator. */
  lemma DirShape(p: string)
    ensures Dir(p) == "" || Dir(p)[|Dir(p)| - 1] == '/'
  {
    if p != "." {
      var i := RFind(p, "/");
      if i != -1 {
        assert OccursAt(p, "/", i);
        assert p[i] == '/';
        assert Dir(p) == p[..i + 1];
      }
    }
  }

  lemma StemWithoutSlash(n: string)
    requires '/' !in n
    ensures '/' !in Stem(n)
  {
    var i := SuffixDot(n);
    if i != -1 {
      assert forall k :: 0 <= k < i ==> Stem(n)[k] == n[k];
    }
  }

  lemma SuffixOfPlain(stem: string, ext: string)
    requires PlainName(stem, ext)
    ensures SuffixDot(stem + "." + ext) == |stem|
    ensures Suffix(stem + "." + ext) == "." + ext
    ensures Stem(stem + "." + ext) == stem
  {
    var n := stem + "." + ext;
    forall j | |stem| < j < |n| ensures n[j] != '.' {
      assert n[j] == ext[j - |stem| - 1];
    }
    RFindChar(n, '.', |stem|);
    assert n[..|stem|] == stem;
    assert n[|stem|..] == "." + ext;
  }
}
