/** The serialiser of repo-md: collect the regular files that some glob
    pattern matches, drop those that an ignore pattern matches, and write
    each remaining file to stdout as a Markdown section holding a fenced
    block of its lines, optionally numbered; a file that does not decode as
    UTF-8 gets a warning on stderr instead.

    The outside world is a parameter: the working directory, the entries of
    the filesystem, and what each glob pattern matches there (Env). */
module RepoMd {
  import opened Text

  type Pattern = string

  /** A filesystem path as its sequence of components. */
  type Path = seq<string>

  /** What reading a file as UTF-8 text gives: the whole decoded text, or
      the lines the iterator yielded before the decoder failed. */
  datatype Decoded = Ok(text: string) | DecodeError(yielded: seq<string>)

  datatype Entry = File(content: Decoded) | Dir | Other

  datatype Option<T> = None | Some(value: T)

  /** The working directory, the filesystem, and glob matching from the
      working directory (Path.cwd().glob). */
  datatype Env = Env(cwd: Path, fs: map<Path, Entry>, glob: Pattern -> set<Path>)

  /** Path.is_file(): the path names a regular file. */
  predicate IsFile(fs: map<Path, Entry>, p: Path)
    ensures IsFile(fs, p) <==> p in fs && fs[p] != Dir && fs[p] != Other
  {
    p in fs && fs[p].File?
  }

  predicate Under(cwd: Path, p: Path)
  {
    |cwd| <= |p| && p[..|cwd|] == cwd
  }

  /** Globbing from the working directory only yields paths that extend it. */
  ghost predicate GlobsUnderCwd(env: Env)
  {
    forall pat, p :: p in env.glob(pat) ==> Under(env.cwd, p)
  }

  /** The components joined by '/'; the last component, the file's name,
      ends the result. */
  function JoinPath(parts: seq<string>): (r: string)
    requires parts != []
    ensures |parts[|parts| - 1]| <= |r| && r[|r| - |parts[|parts| - 1]|..] == parts[|parts| - 1]
    ensures |parts| > 1 ==> |r| > |parts[|parts| - 1]| && r[|r| - |parts[|parts| - 1]| - 1] == '/'
  {
    if |parts| == 1 then parts[0] else JoinPath(parts[..|parts| - 1]) + "/" + parts[|parts| - 1]
  }

  /** str(p.relative_to(cwd)): "." for cwd itself; otherwise the components
      below cwd joined by '/', ending in the path's last component. */
  function RelPath(cwd: Path, p: Path): (r: string)
    requires Under(cwd, p)
    ensures |p| == |cwd| ==> r == "."
  {
    if |p| == |cwd| then "." else JoinPath(p[|cwd|..])
  }

  /** A path strictly below cwd renders as its components below cwd joined
      by '/', so it ends in the path's last component, the file's name, with
      a '/' before it when there are several components. */
  lemma RelPathEndsInName(cwd: Path, p: Path)
    requires Under(cwd, p) && |p| > |cwd|
    ensures var r, name := RelPath(cwd, p), p[|p| - 1];
      |name| <= |r| && r[|r| - |name|..] == name &&
      (|p| > |cwd| + 1 ==> |r| > |name| && r[|r| - |name| - 1] == '/')
  {
    assert p[|cwd|..][|p[|cwd|..]| - 1] == p[|p| - 1];
  }

  predicate NoSlash(s: string)
  {
    forall i :: 0 <= i < |s| ==> s[i] != '/'
  }

  /** Components as pathlib yields them below the working directory: none
      holds a '/', and none is ".". */
  predicate PlainComponents(parts: seq<string>)
  {
    forall i :: 0 <= i < |parts| ==> NoSlash(parts[i]) && parts[i] != "."
  }

  /** Joined plain components hold a '/' exactly when there are several. */
  lemma JoinPathSlash(parts: seq<string>)
    requires parts != [] && PlainComponents(parts)
    ensures |parts| == 1 <==> NoSlash(JoinPath(parts))
    ensures JoinPath(parts) != "."
  {
    if |parts| > 1 {
      var r := JoinPath(parts);
      assert r[|r| - |parts[|parts| - 1]| - 1] == '/';
    } else {
      assert parts[0] != ".";
    }
  }

  /** Cutting at the last '/' is unambiguous when what follows holds none. */
  lemma SplitAtLastSlash(x: string, l: string, y: string, m: string)
    requires NoSlash(l) && NoSlash(m)
    requires x + "/" + l == y + "/" + m
    ensures x == y && l == m
  {
    var r := x + "/" + l;
    assert r[|x|] == '/' && forall i :: |x| < i < |r| ==> r[i] == l[i - |x| - 1];
    assert r[|y|] == '/' && forall i :: |y| < i < |r| ==> r[i] == m[i - |y| - 1];
    assert |x| == |y|;
    assert x == r[..|x|] && y == r[..|y|];
    assert l == r[|x| + 1..] && m == r[|y| + 1..];
  }

  /** Plain components split into plain front components and a last one
      without '/'. */
  lemma PlainFront(a: seq<string>)
    requires |a| > 1 && PlainComponents(a)
    ensures PlainComponents(a[..|a| - 1]) && NoSlash(a[|a| - 1])
    ensures a == a[..|a| - 1] + [a[|a| - 1]]
  {
    assert forall i :: 0 <= i < |a| - 1 ==> a[..|a| - 1][i] == a[i];
  }

  /** Joining plain components loses nothing: the string determines them. */
  lemma {:induction false} JoinPathInjective(a: seq<string>, b: seq<string>)
    requires a != [] && b != [] && PlainComponents(a) && PlainComponents(b)
    requires JoinPath(a) == JoinPath(b)
    ensures a == b
    decreases |a|
  {
    JoinPathSlash(a);
    JoinPathSlash(b);
    if |a| > 1 {
      PlainFront(a);
      PlainFront(b);
      var fa, fb := a[..|a| - 1], b[..|b| - 1];
      assert JoinPath(a) == JoinPath(fa) + "/" + a[|a| - 1];
      assert JoinPath(b) == JoinPath(fb) + "/" + b[|b| - 1];
      SplitAtLastSlash(JoinPath(fa), a[|a| - 1], JoinPath(fb), b[|b| - 1]);
      JoinPathInjective(fa, fb);
    }
  }

  /** Different files under the working directory get different relative
      paths, as long as their components are the plain ones pathlib yields. */
  lemma RelPathInjective(cwd: Path, p: Path, q: Path)
    requires Under(cwd, p) && Under(cwd, q)
    requires PlainComponents(p[|cwd|..]) && PlainComponents(q[|cwd|..])
    requires RelPath(cwd, p) == RelPath(cwd, q)
    ensures p == q
  {
    if |p| > |cwd| {
      JoinPathSlash(p[|cwd|..]);
    }
    if |q| > |cwd| {
      JoinPathSlash(q[|cwd|..]);
    }
    if |p| > |cwd| {
      JoinPathInjective(p[|cwd|..], q[|cwd|..]);
      assert p == p[..|cwd|] + p[|cwd|..] && q == q[..|cwd|] + q[|cwd|..];
    } else {
      assert p == p[..|cwd|] && q == q[..|cwd|];
    }
  }

  // ---------------------------------------------------------------------
  // File selection (collect_files and the set difference in process_files)

  /** The regular files among the paths s. */
  function FilesIn(fs: map<Path, Entry>, s: set<Path>): (r: set<Path>)
    ensures r <= s
    ensures forall p :: p in r ==> IsFile(fs, p)
    ensures forall p :: p in s && IsFile(fs, p) ==> p in r
  {
    set p | p in s && IsFile(fs, p)
  }

  /** The set collect_files builds: the regular files matched by the
      patterns, added pattern by pattern. */
  function Collected(env: Env, patterns: seq<Pattern>): (s: set<Path>)
    ensures forall p :: p in s ==> IsFile(env.fs, p)
    decreases |patterns|
  {
    if patterns == [] then {}
    else Collected(env, patterns[..|patterns| - 1]) + FilesIn(env.fs, env.glob(patterns[|patterns| - 1]))
  }

  /** A path is collected exactly when it is a regular file that some pattern matches. */
  lemma {:induction false} CollectedMembers(env: Env, patterns: seq<Pattern>, p: Path)
    ensures p in Collected(env, patterns) <==>
      IsFile(env.fs, p) && exists i :: 0 <= i < |patterns| && p in env.glob(patterns[i])
    decreases |patterns|
  {
    if patterns != [] {
      var front := patterns[..|patterns| - 1];
      CollectedMembers(env, front, p);
      if exists i :: 0 <= i < |patterns| && p in env.glob(patterns[i]) {
        var i :| 0 <= i < |patterns| && p in env.glob(patterns[i]);
        if i < |front| {
          assert front[i] == patterns[i];
        }
      }
      assert forall i :: 0 <= i < |front| ==> front[i] == patterns[i];
    }
  }

  /** Only which patterns are given matters: not their order, nor repeats. */
  lemma CollectedOrderFree(env: Env, ps: seq<Pattern>, qs: seq<Pattern>)
    requires forall pat :: pat in ps <==> pat in qs
    ensures Collected(env, ps) == Collected(env, qs)
  {
    forall p ensures p in Collected(env, ps) <==> p in Collected(env, qs) {
      CollectedMembers(env, ps, p);
      CollectedMembers(env, qs, p);
      if exists i :: 0 <= i < |ps| && p in env.glob(ps[i]) {
        var i :| 0 <= i < |ps| && p in env.glob(ps[i]);
        assert ps[i] in qs;
        var j :| 0 <= j < |qs| && qs[j] == ps[i];
      }
      if exists j :: 0 <= j < |qs| && p in env.glob(qs[j]) {
        var j :| 0 <= j < |qs| && p in env.glob(qs[j]);
        assert qs[j] in ps;
        var i :| 0 <= i < |ps| && ps[i] == qs[j];
      }
    }
  }

  /** Adding patterns can only grow the result. */
  lemma CollectedMonotone(env: Env, ps: seq<Pattern>, qs: seq<Pattern>)
    requires forall pat :: pat in ps ==> pat in qs
    ensures Collected(env, ps) <= Collected(env, qs)
  {
    forall p | p in Collected(env, ps) ensures p in Collected(env, qs) {
      CollectedMembers(env, ps, p);
      CollectedMembers(env, qs, p);
      var i :| 0 <= i < |ps| && p in env.glob(ps[i]);
      assert ps[i] in qs;
      var j :| 0 <= j < |qs| && qs[j] == ps[i];
    }
  }

  /** A pattern that matches no regular file adds nothing, wherever it stands;
      in particular no patterns collect nothing. */
  lemma CollectedNoMatch(env: Env, a: seq<Pattern>, q: Pattern, b: seq<Pattern>)
    requires FilesIn(env.fs, env.glob(q)) == {}
    ensures Collected(env, a + [q] + b) == Collected(env, a + b)
    ensures Collected(env, []) == {}
  {
    var ps, qs := a + [q] + b, a + b;
    forall p ensures p in Collected(env, ps) <==> p in Collected(env, qs) {
      CollectedMembers(env, ps, p);
      CollectedMembers(env, qs, p);
      if IsFile(env.fs, p) && exists i :: 0 <= i < |ps| && p in env.glob(ps[i]) {
        var i :| 0 <= i < |ps| && p in env.glob(ps[i]);
        assert ps[i] != q by { assert p in FilesIn(env.fs, env.glob(ps[i])); }
        if i < |a| { assert qs[i] == ps[i]; } else { assert qs[i - 1] == ps[i]; }
      }
      if exists j :: 0 <= j < |qs| && p in env.glob(qs[j]) {
        var j :| 0 <= j < |qs| && p in env.glob(qs[j]);
        if j < |a| { assert ps[j] == qs[j]; } else { assert ps[j + 1] == qs[j]; }
      }
    }
  }

  /** collect_files: a nested loop over the patterns and, for each, over
      what it matches, adding the regular files to a set. */
  method CollectFiles(env: Env, globPatterns: seq<Pattern>) returns (files: set<Path>)
    ensures files == Collected(env, globPatterns)
  {
    files := {};
    var i := 0;
    while i < |globPatterns|
      invariant 0 <= i <= |globPatterns|
      invariant files == Collected(env, globPatterns[..i])
    {
      var matched := env.glob(globPatterns[i]);
      var rest := matched;
      while rest != {}
        invariant rest <= matched
        invariant files == Collected(env, globPatterns[..i]) + FilesIn(env.fs, matched - rest)
        decreases rest
      {
        var p :| p in rest;
        if IsFile(env.fs, p) {
          files := files + {p};
        }
        assert matched - (rest - {p}) == (matched - rest) + {p};
        rest := rest - {p};
      }
      assert matched - rest == matched;
      assert globPatterns[..i + 1][..i] == globPatterns[..i];
      i := i + 1;
    }
    assert globPatterns[..i] == globPatterns;
  }

  /** files_to_ignore: collected from the ignore patterns when there are any. */
  function IgnoreSet(env: Env, ignoreGlobPatterns: Option<seq<Pattern>>): (s: set<Path>)
    ensures ignoreGlobPatterns.None? || ignoreGlobPatterns.value == [] ==> s == {}
    ensures forall p :: p in s ==> IsFile(env.fs, p)
  {
    if ignoreGlobPatterns.Some? && ignoreGlobPatterns.value != [] then
      Collected(env, ignoreGlobPatterns.value)
    else
      {}
  }

  /** all_files.difference(files_to_ignore): the files process_files handles. */
  function ToProcess(env: Env, globPatterns: seq<Pattern>, ignoreGlobPatterns: Option<seq<Pattern>>): (s: set<Path>)
    ensures s <= Collected(env, globPatterns)
    ensures s !! IgnoreSet(env, ignoreGlobPatterns)
  {
    Collected(env, globPatterns) - IgnoreSet(env, ignoreGlobPatterns)
  }

  /** The first half of process_files: all_files minus files_to_ignore,
      where the ignore patterns are collected only when there are some. */
  method SelectFiles(env: Env, globPatterns: seq<Pattern>, ignoreGlobPatterns: Option<seq<Pattern>>)
    returns (files: set<Path>)
    ensures files == ToProcess(env, globPatterns, ignoreGlobPatterns)
  {
    var allFiles := CollectFiles(env, globPatterns);
    var filesToIgnore: set<Path>;
    if ignoreGlobPatterns.Some? && ignoreGlobPatterns.value != [] {
      filesToIgnore := CollectFiles(env, ignoreGlobPatterns.value);
    } else {
      filesToIgnore := {};
    }
    files := allFiles - filesToIgnore;
  }

  /** A file is handled exactly when it is a regular file that some include
      pattern matches and that no ignore pattern matches. */
  lemma ExclusionCorrect(env: Env, globPatterns: seq<Pattern>, ignoreGlobPatterns: Option<seq<Pattern>>, p: Path)
    ensures p in ToProcess(env, globPatterns, ignoreGlobPatterns) <==>
      IsFile(env.fs, p) &&
      (exists i :: 0 <= i < |globPatterns| && p in env.glob(globPatterns[i])) &&
      !(ignoreGlobPatterns.Some? &&
        exists j :: 0 <= j < |ignoreGlobPatterns.value| && p in env.glob(ignoreGlobPatterns.value[j]))
  {
    CollectedMembers(env, globPatterns, p);
    if ignoreGlobPatterns.Some? {
      CollectedMembers(env, ignoreGlobPatterns.value, p);
    }
  }

  /** Without ignore patterns (None or an empty list) every collected file is handled. */
  lemma NoIgnoreKeepsAll(env: Env, globPatterns: seq<Pattern>, ignoreGlobPatterns: Option<seq<Pattern>>)
    requires ignoreGlobPatterns.None? || ignoreGlobPatterns.value == []
    ensures ToProcess(env, globPatterns, ignoreGlobPatterns) == Collected(env, globPatterns)
  {
  }

  /** Every handled path is a regular file under the working directory, so
      its relative path is defined. */
  lemma ToProcessRenderable(env: Env, globPatterns: seq<Pattern>, ignoreGlobPatterns: Option<seq<Pattern>>, p: Path)
    requires GlobsUnderCwd(env)
    requires p in ToProcess(env, globPatterns, ignoreGlobPatterns)
    ensures IsFile(env.fs, p) && Under(env.cwd, p)
  {
    CollectedMembers(env, globPatterns, p);
    var i :| 0 <= i < |globPatterns| && p in env.glob(globPatterns[i]);
  }

  // ---------------------------------------------------------------------
  // Block rendering (the loop body of process_files)

  const Fence: string := "```\n"
  const ClosingFence: string := "```\n\n"

  function Header(rel: string): (h: string)
    ensures |h| == |rel| + 4
  {
    "# " + rel + "\n\n"
  }

  /** One source line as emitted: prefixed with its number and a space when
      line numbers are on, verbatim otherwise. */
  function RenderLine(lineNo: nat, line: string, includeLn: bool): (r: string)
    ensures !includeLn ==> r == line
    ensures includeLn ==> |r| == |Decimal(lineNo)| + 1 + |line|
  {
    if includeLn then Decimal(lineNo) + " " + line else line
  }

  /** The lines as emitted, numbered from lineNo (enumerate(f, start=lineNo)). */
  function RenderLines(lines: seq<string>, lineNo: nat, includeLn: bool): (r: seq<string>)
    ensures |r| == |lines|
    decreases |lines|
  {
    if lines == [] then [] else [RenderLine(lineNo, lines[0], includeLn)] + RenderLines(lines[1..], lineNo + 1, includeLn)
  }

  /** The k-th line carries number lineNo + k: numbering goes up by exactly one per line. */
  lemma {:induction false} RenderLinesAt(lines: seq<string>, lineNo: nat, includeLn: bool, k: nat)
    requires k < |lines|
    ensures RenderLines(lines, lineNo, includeLn)[k] == RenderLine(lineNo + k, lines[k], includeLn)
    decreases k
  {
    if k > 0 {
      RenderLinesAt(lines[1..], lineNo + 1, includeLn, k - 1);
    }
  }

  /** Without line numbers the lines go out unchanged. */
  lemma {:induction false} RenderLinesVerbatim(lines: seq<string>, lineNo: nat)
    ensures RenderLines(lines, lineNo, false) == lines
    decreases |lines|
  {
    if lines != [] {
      RenderLinesVerbatim(lines[1..], lineNo + 1);
      assert lines == [lines[0]] + lines[1..];
    }
  }

  lemma {:induction false} RenderLinesSnoc(lines: seq<string>, x: string, lineNo: nat, includeLn: bool)
    ensures RenderLines(lines + [x], lineNo, includeLn) ==
      RenderLines(lines, lineNo, includeLn) + [RenderLine(lineNo + |lines|, x, includeLn)]
    decreases |lines|
  {
    if lines != [] {
      var first := [RenderLine(lineNo, lines[0], includeLn)];
      assert (lines + [x])[1..] == lines[1..] + [x];
      assert (lines + [x])[0] == lines[0];
      RenderLinesSnoc(lines[1..], x, lineNo + 1, includeLn);
      Assoc(first, RenderLines(lines[1..], lineNo + 1, includeLn), [RenderLine(lineNo + |lines|, x, includeLn)]);
    } else {
      assert [x][1..] == [];
    }
  }

  /** The text of one file's section: header, opening fence, the lines and
      the closing fence. */
  function Block(rel: string, lines: seq<string>, includeLn: bool): (b: string)
    ensures |b| == |rel| + 13 + TotalLength(RenderLines(lines, 1, includeLn))
  {
    Header(rel) + Fence + Concat(RenderLines(lines, 1, includeLn)) + ClosingFence
  }

  /** Every block starts with the header and the opening fence and ends with
      the closing fence followed by a blank line. */
  lemma BlockShape(rel: string, lines: seq<string>, includeLn: bool)
    ensures var b := Block(rel, lines, includeLn);
      var opening := "# " + rel + "\n\n" + "```\n";
      |b| >= |opening| + 5 &&
      b[..|opening|] == opening &&
      b[|b| - 5..] == "```\n\n"
  {
    var b := Block(rel, lines, includeLn);
    var opening := "# " + rel + "\n\n" + "```\n";
    var body := Concat(RenderLines(lines, 1, includeLn));
    assert b == opening + (body + ClosingFence);
    assert b == (opening + body) + ClosingFence;
  }

  /** Without line numbers the text between the fences is exactly the file's text. */
  lemma BlockVerbatim(rel: string, text: string)
    ensures Block(rel, SplitLines(text), false) == Header(rel) + Fence + text + ClosingFence
  {
    RenderLinesVerbatim(SplitLines(text), 1);
    SplitLinesJoin(text);
  }

  /** With line numbers the k-th line (counting from 1) goes out as its
      number in decimal, a space and the line. */
  lemma BlockNumbered(rel: string, lines: seq<string>)
    ensures var r := RenderLines(lines, 1, true);
      Block(rel, lines, true) == Header(rel) + Fence + Concat(r) + ClosingFence &&
      |r| == |lines| &&
      forall k :: 0 <= k < |lines| ==> r[k] == Decimal(k + 1) + " " + lines[k]
  {
    forall k | 0 <= k < |lines|
      ensures RenderLines(lines, 1, true)[k] == Decimal(k + 1) + " " + lines[k]
    {
      RenderLinesAt(lines, 1, true, k);
    }
  }

  /** A numbered line can be read back: its leading digits are the number,
      then one space, then the line unchanged. */
  lemma NumberedLineReadsBack(lineNo: nat, line: string)
    ensures var s := RenderLine(lineNo, line, true);
      var j := |Decimal(lineNo)|;
      j < |s| && AllDigits(s[..j]) && ParseDecimal(s[..j]) == lineNo &&
      s[j] == ' ' && s[j + 1..] == line
  {
    var d := Decimal(lineNo);
    var s := RenderLine(lineNo, line, true);
    assert s == d + (" " + line);
    assert s[..|d|] == d;
    ParseDecimalInverse(lineNo);
  }

  /** When the text does not end in a newline the closing fence follows its
      last character directly, without a line break of its own. */
  lemma UnterminatedLastLine(rel: string, text: string)
    requires text != [] && text[|text| - 1] != '\n'
    ensures var b := Block(rel, SplitLines(text), false);
      var n := |Header(rel) + Fence + text|;
      n + |ClosingFence| == |b| && b[n - 1] == text[|text| - 1] && b[n..] == ClosingFence
  {
    BlockVerbatim(rel, text);
    var pre := Header(rel) + Fence + text;
    assert Block(rel, SplitLines(text), false) == pre + ClosingFence;
  }

  lemma ExampleLines(text: string)
    requires text == "hello\n"
    ensures SplitLines(text) == [text]
  {
    assert LineEnd(text) == 6;
    assert text[..6] == text && text[6..] == [];
  }

  /** A block is the header, the opening fence, the joined lines and the
      closing fence. */
  lemma BlockFromBody(rel: string, lines: seq<string>, includeLn: bool, body: string)
    requires Concat(RenderLines(lines, 1, includeLn)) == body
    ensures Block(rel, lines, includeLn) == Header(rel) + Fence + body + ClosingFence
  {
  }

  /** The texts of a.txt's blocks, spelt out. */
  lemma HelloTexts()
    ensures Header("a.txt") + Fence + "hello\n" + ClosingFence == "# a.txt\n\n```\nhello\n```\n\n"
    ensures Header("a.txt") + Fence + "1 hello\n" + ClosingFence == "# a.txt\n\n```\n1 hello\n```\n\n"
  {
  }

  /** A file holding "hello\n" comes out as its header and one fenced line. */
  lemma ExampleBlockVerbatim(text: string)
    requires text == "hello\n"
    ensures Block("a.txt", SplitLines(text), false) == "# a.txt\n\n```\nhello\n```\n\n"
  {
    ExampleLine(text, false, "hello\n");
    BlockFromBody("a.txt", SplitLines(text), false, "hello\n");
    HelloTexts();
  }

  /** With line numbers on, the same file's one line is numbered "1 ". */
  lemma ExampleBlockNumbered(text: string)
    requires text == "hello\n"
    ensures Block("a.txt", SplitLines(text), true) == "# a.txt\n\n```\n1 hello\n```\n\n"
  {
    ExampleLine(text, true, "1 hello\n");
    BlockFromBody("a.txt", SplitLines(text), true, "1 hello\n");
    HelloTexts();
  }

  /** The one line of "hello\n", as emitted with or without its number. */
  lemma ExampleLine(text: string, includeLn: bool, expected: string)
    requires text == "hello\n"
    requires expected == if includeLn then "1 hello\n" else "hello\n"
    ensures Concat(RenderLines(SplitLines(text), 1, includeLn)) == expected
  {
    ExampleLines(text);
    assert [text][1..] == [];
    assert Decimal(1) == ['1'];
    var line := RenderLine(1, text, includeLn);
    assert line == expected;
    assert RenderLines([text], 1, includeLn) == [line] + RenderLines([], 2, includeLn);
    ConcatCons(line, []);
  }

  /** Whether the file at p decodes as UTF-8. */
  predicate Decodes(env: Env, p: Path)
    requires IsFile(env.fs, p)
  {
    env.fs[p].content.Ok?
  }

  predicate Renderable(env: Env, p: Path)
  {
    IsFile(env.fs, p) && Under(env.cwd, p)
  }

  /** The block for a file that decodes. */
  function BlockOf(env: Env, p: Path, includeLn: bool): (b: string)
    requires Renderable(env, p) && Decodes(env, p)
    ensures !includeLn ==>
      b == Header(RelPath(env.cwd, p)) + Fence + env.fs[p].content.text + ClosingFence
  {
    BlockVerbatim(RelPath(env.cwd, p), env.fs[p].content.text);
    Block(RelPath(env.cwd, p), SplitLines(env.fs[p].content.text), includeLn)
  }

  const Esc: char := 27 as char
  const Red: string := [Esc] + "[31m"
  const Bold: string := [Esc] + "[1m"
  const Reset: string := [Esc] + "[0m"

  /** The stderr message for a file that does not decode. */
  function Warning(rel: string): (w: string)
    ensures |w| == |WarningLead| + |rel| + |Reset| + 1
    ensures w[..|WarningLead|] == WarningLead
    ensures w[|w| - |Reset| - 1..] == Reset + "\n"
  {
    Bold + Red + "UTF-8 decode error: skip " + Reset + Bold + rel + Reset + "\n"
  }

  /** What precedes the path in a warning. */
  const WarningLead: string := Bold + Red + "UTF-8 decode error: skip " + Reset + Bold

  /** The warning names the file: its relative path stands right after a
      fixed lead-in, and the message is one line, ending in a newline. */
  lemma WarningNamesFile(rel: string)
    ensures |WarningLead| + |rel| < |Warning(rel)|
    ensures Warning(rel)[|WarningLead|..|WarningLead| + |rel|] == rel
    ensures Warning(rel)[|Warning(rel)| - 1] == '\n'
  {
    var w := Warning(rel);
    assert w == WarningLead + rel + (Reset + "\n");
  }

  /** The header reads back: "# ", then the relative path, then a blank line. */
  lemma HeaderReadsBack(rel: string)
    ensures var h := Header(rel);
      |h| == |rel| + 4 && h[..2] == "# " && h[2..|h| - 2] == rel && h[|h| - 2..] == "\n\n"
  {
  }

  /** Different relative paths get different warnings: the warning tells
      which file was skipped. */
  lemma WarningInjective(a: string, b: string)
    requires Warning(a) == Warning(b)
    ensures a == b
  {
    WarningNamesFile(a);
    WarningNamesFile(b);
  }

  /** The warning identifies the skipped file: two files with plain
      components that get the same warning are the same file. */
  lemma WarningIdentifiesFile(env: Env, p: Path, q: Path)
    requires Renderable(env, p) && Renderable(env, q)
    requires PlainComponents(p[|env.cwd|..]) && PlainComponents(q[|env.cwd|..])
    requires Warning(RelPath(env.cwd, p)) == Warning(RelPath(env.cwd, q))
    ensures p == q
  {
    WarningInjective(RelPath(env.cwd, p), RelPath(env.cwd, q));
    RelPathInjective(env.cwd, p, q);
  }

  /** Joining the pieces of a block gives the block's text. */
  lemma JoinPieces(rel: string, rendered: seq<string>)
    ensures Concat([Header(rel), Fence] + rendered + [ClosingFence]) ==
      Header(rel) + Fence + Concat(rendered) + ClosingFence
  {
    ConcatAppend([Header(rel), Fence] + rendered, [ClosingFence]);
    ConcatAppend([Header(rel), Fence], rendered);
    assert [Header(rel), Fence] == [Header(rel)] + [Fence];
    ConcatCons(Header(rel), [Fence]);
    ConcatCons(Fence, []);
    ConcatCons(ClosingFence, []);
    assert [Fence] + [] == [Fence];
    assert [ClosingFence] + [] == [ClosingFence];
  }

  /** Appending the next rendered line to the pieces built so far. */
  lemma PiecesStep(opening: seq<string>, yielded: seq<string>, i: nat, includeLn: bool)
    requires i < |yielded|
    ensures opening + RenderLines(yielded[..i + 1], 1, includeLn) ==
      opening + RenderLines(yielded[..i], 1, includeLn) + [RenderLine(i + 1, yielded[i], includeLn)]
  {
    RenderLinesSnoc(yielded[..i], yielded[i], 1, includeLn);
    assert yielded[..i + 1] == yielded[..i] + [yielded[i]];
    Assoc(opening, RenderLines(yielded[..i], 1, includeLn), [RenderLine(i + 1, yielded[i], includeLn)]);
  }

  /** The pieces of a decoding file, closed by the fence, join to its block. */
  lemma PiecesMakeBlock(env: Env, p: Path, includeLn: bool, pieces: seq<string>)
    requires Renderable(env, p) && Decodes(env, p)
    requires pieces == [Header(RelPath(env.cwd, p)), Fence] +
      RenderLines(SplitLines(env.fs[p].content.text), 1, includeLn)
    ensures Concat(pieces + [ClosingFence]) == BlockOf(env, p, includeLn)
  {
    JoinPieces(RelPath(env.cwd, p), RenderLines(SplitLines(env.fs[p].content.text), 1, includeLn));
  }

  /** One file of the loop: build the list of pieces (header, fence, each
      line as the file iterator yields it, closing fence) and join it; a
      decode error raised by the iterator discards the list. */
  method RenderFile(env: Env, filePath: Path, includeLn: bool) returns (block: Option<string>)
    requires Renderable(env, filePath)
    ensures Decodes(env, filePath) ==> block == Some(BlockOf(env, filePath, includeLn))
    ensures !Decodes(env, filePath) ==> block == None
  {
    var rel := RelPath(env.cwd, filePath);
    var lines := [Header(rel), Fence];
    var content := env.fs[filePath].content;
    var yielded := if content.Ok? then SplitLines(content.text) else content.yielded;
    var i := 0;
    while i < |yielded|
      invariant 0 <= i <= |yielded|
      invariant lines == [Header(rel), Fence] + RenderLines(yielded[..i], 1, includeLn)
    {
      var line := RenderLine(i + 1, yielded[i], includeLn);
      PiecesStep([Header(rel), Fence], yielded, i, includeLn);
      lines := lines + [line];
      i := i + 1;
    }
    if content.DecodeError? {
      return None;
    }
    assert yielded[..i] == yielded;
    PiecesMakeBlock(env, filePath, includeLn, lines);
    lines := lines + [ClosingFence];
    block := Some(Concat(lines));
  }

  // ---------------------------------------------------------------------
  // What a run writes, for the files taken in a given order

  predicate AllRenderable(env: Env, order: seq<Path>)
  {
    forall p :: p in order ==> Renderable(env, p)
  }

  /** What one file writes to stdout: its block, plus print's newline. */
  function StdoutOf(env: Env, p: Path, includeLn: bool): (out: seq<string>)
    requires Renderable(env, p)
    ensures |out| == if Decodes(env, p) then 1 else 0
  {
    if Decodes(env, p) then [BlockOf(env, p, includeLn) + "\n"] else []
  }

  /** What one file writes to stderr: a warning when it does not decode. */
  function StderrOf(env: Env, p: Path): (err: seq<string>)
    requires Renderable(env, p)
    ensures |err| == if Decodes(env, p) then 0 else 1
  {
    if Decodes(env, p) then [] else [Warning(RelPath(env.cwd, p))]
  }

  /** What a run visiting the files in this order writes to stdout. */
  function Stdout(env: Env, order: seq<Path>, includeLn: bool): (out: seq<string>)
    requires AllRenderable(env, order)
    ensures |out| <= |order|
    decreases |order|
  {
    if order == [] then []
    else Stdout(env, order[..|order| - 1], includeLn) + StdoutOf(env, order[|order| - 1], includeLn)
  }

  /** What a run visiting the files in this order writes to stderr. */
  function Stderr(env: Env, order: seq<Path>): (err: seq<string>)
    requires AllRenderable(env, order)
    ensures |err| <= |order|
    decreases |order|
  {
    if order == [] then []
    else Stderr(env, order[..|order| - 1]) + StderrOf(env, order[|order| - 1])
  }

  /** Each file yields one stdout block or one stderr warning, never both,
      so blocks and warnings together number the files visited. */
  lemma {:induction false} OutputCount(env: Env, order: seq<Path>, includeLn: bool)
    requires AllRenderable(env, order)
    ensures |Stdout(env, order, includeLn)| + |Stderr(env, order)| == |order|
    decreases |order|
  {
    if order != [] {
      OutputCount(env, order[..|order| - 1], includeLn);
    }
  }

  /** stdout holds exactly the blocks of the files in the order that decode. */
  lemma {:induction false} StdoutMembers(env: Env, order: seq<Path>, includeLn: bool, s: string)
    requires AllRenderable(env, order)
    ensures s in Stdout(env, order, includeLn) <==>
      exists p :: p in order && Decodes(env, p) && s == BlockOf(env, p, includeLn) + "\n"
    decreases |order|
  {
    if order != [] {
      var front, last := order[..|order| - 1], order[|order| - 1];
      assert forall p :: p in order <==> p in front || p == last;
      StdoutMembers(env, front, includeLn, s);
    }
  }

  /** stderr holds exactly the warnings for the files in the order that do not decode. */
  lemma {:induction false} StderrMembers(env: Env, order: seq<Path>, w: string)
    requires AllRenderable(env, order)
    ensures w in Stderr(env, order) <==>
      exists p :: p in order && !Decodes(env, p) && w == Warning(RelPath(env.cwd, p))
    decreases |order|
  {
    if order != [] {
      var front, last := order[..|order| - 1], order[|order| - 1];
      assert forall p :: p in order <==> p in front || p == last;
      StderrMembers(env, front, w);
    }
  }

  lemma {:induction false} OutputAppend(env: Env, a: seq<Path>, b: seq<Path>, includeLn: bool)
    requires AllRenderable(env, a) && AllRenderable(env, b)
    ensures AllRenderable(env, a + b)
    ensures Stdout(env, a + b, includeLn) == Stdout(env, a, includeLn) + Stdout(env, b, includeLn)
    ensures Stderr(env, a + b) == Stderr(env, a) + Stderr(env, b)
    decreases |b|
  {
    assert forall p :: p in a + b ==> p in a || p in b;
    if b == [] {
      assert a + b == a;
    } else {
      var front, last := b[..|b| - 1], b[|b| - 1];
      assert (a + b)[..|a + b| - 1] == a + front;
      assert (a + b)[|a + b| - 1] == last;
      assert forall p :: p in front ==> p in b;
      OutputAppend(env, a, front, includeLn);
      Assoc(Stdout(env, a, includeLn), Stdout(env, front, includeLn), StdoutOf(env, last, includeLn));
      Assoc(Stderr(env, a), Stderr(env, front), StderrOf(env, last));
    }
  }

  lemma OutputSnoc(env: Env, order: seq<Path>, p: Path, includeLn: bool)
    requires AllRenderable(env, order) && Renderable(env, p)
    ensures AllRenderable(env, order + [p])
    ensures Stdout(env, order + [p], includeLn) == Stdout(env, order, includeLn) + StdoutOf(env, p, includeLn)
    ensures Stderr(env, order + [p]) == Stderr(env, order) + StderrOf(env, p)
  {
    assert (order + [p])[..|order|] == order;
  }

  /** Taking the last element of o1 and its copy at k out of o2 leaves
      equal multisets. */
  lemma RemoveOne<T>(o1: seq<T>, o2: seq<T>, k: nat)
    requires o1 != [] && k < |o2| && o2[k] == o1[|o1| - 1]
    requires multiset(o1) == multiset(o2)
    ensures o2 == o2[..k] + [o2[k]] + o2[k + 1..]
    ensures multiset(o1[..|o1| - 1]) == multiset(o2[..k] + o2[k + 1..])
  {
    assert o2 == o2[..k] + [o2[k]] + o2[k + 1..];
    var front, x := o1[..|o1| - 1], o1[|o1| - 1];
    assert o1 == front + [x];
    assert multiset(o1) == multiset(front) + multiset{x};
    MultisetSwap(o2[..k], [o2[k]], o2[k + 1..]);
    var others := o2[..k] + o2[k + 1..];
    assert multiset(o2) == multiset(others) + multiset{x};
    forall y ensures multiset(front)[y] == multiset(others)[y] {
      assert multiset(o1)[y] == multiset(o2)[y];
    }
  }

  lemma SameElements(env: Env, o1: seq<Path>, o2: seq<Path>)
    requires AllRenderable(env, o1)
    requires multiset(o1) == multiset(o2)
    ensures AllRenderable(env, o2)
  {
    forall p | p in o2 ensures p in o1 {
      assert p in multiset(o2);
    }
  }

  /** The order files are visited in changes only the order of the output:
      any rearrangement writes the same blocks and the same warnings. */
  lemma {:induction false} OutputPermutation(env: Env, o1: seq<Path>, o2: seq<Path>, includeLn: bool)
    requires AllRenderable(env, o1)
    requires multiset(o1) == multiset(o2)
    ensures AllRenderable(env, o2)
    ensures multiset(Stdout(env, o1, includeLn)) == multiset(Stdout(env, o2, includeLn))
    ensures multiset(Stderr(env, o1)) == multiset(Stderr(env, o2))
    decreases |o1|
  {
    SameElements(env, o1, o2);
    if o1 == [] {
      assert o2 == [];
    } else {
      var rest, x := o1[..|o1| - 1], o1[|o1| - 1];
      assert o1 == rest + [x];
      assert x in multiset(o2);
      var k :| 0 <= k < |o2| && o2[k] == x;
      var before, after := o2[..k], o2[k + 1..];
      RemoveOne(o1, o2, k);
      assert forall p :: p in rest ==> p in o1;
      OutputPermutation(env, rest, before + after, includeLn);
      assert forall p :: p in before ==> p in before + after;
      assert forall p :: p in after ==> p in before + after;
      StdoutSplit(env, before, x, after, includeLn);
      assert o2 == before + [x] + after;
      assert Stdout(env, o1, includeLn) == Stdout(env, rest, includeLn) + StdoutOf(env, x, includeLn);
      assert Stderr(env, o1) == Stderr(env, rest) + StderrOf(env, x);
    }
  }

  /** The output of a run split around one file. */
  lemma StdoutSplit(env: Env, before: seq<Path>, x: Path, after: seq<Path>, includeLn: bool)
    requires AllRenderable(env, before + after) && Renderable(env, x)
    ensures AllRenderable(env, before + [x] + after)
    ensures multiset(Stdout(env, before + [x] + after, includeLn)) ==
      multiset(Stdout(env, before + after, includeLn)) + multiset(StdoutOf(env, x, includeLn))
    ensures multiset(Stderr(env, before + [x] + after)) ==
      multiset(Stderr(env, before + after)) + multiset(StderrOf(env, x))
  {
    assert forall p :: p in before ==> p in before + after;
    assert forall p :: p in after ==> p in before + after;
    OutputAppend(env, before, after, includeLn);
    OutputAppend(env, before, [x], includeLn);
    OutputAppend(env, before + [x], after, includeLn);
    assert [x][..0] == [];
    assert Stdout(env, [x], includeLn) == StdoutOf(env, x, includeLn);
    assert Stderr(env, [x]) == StderrOf(env, x);
    MultisetSwap(Stdout(env, before, includeLn), StdoutOf(env, x, includeLn), Stdout(env, after, includeLn));
    MultisetSwap(Stderr(env, before), StderrOf(env, x), Stderr(env, after));
  }


  /** Every block on stdout belongs to a handled file, one that decodes and
      that no ignore pattern matches: an ignored file never produces output. */
  lemma StdoutOnlyFromHandled(env: Env, globPatterns: seq<Pattern>, ignoreGlobPatterns: Option<seq<Pattern>>,
                              order: seq<Path>, includeLn: bool, s: string)
    requires AllRenderable(env, order)
    requires forall p :: p in order <==> p in ToProcess(env, globPatterns, ignoreGlobPatterns)
    requires s in Stdout(env, order, includeLn)
    ensures exists p ::
      p in order && p !in IgnoreSet(env, ignoreGlobPatterns) && Decodes(env, p) && s == BlockOf(env, p, includeLn) + "\n"
  {
    StdoutMembers(env, order, includeLn, s);
  }

  predicate Distinct(s: seq<Path>)
  {
    forall i, j :: 0 <= i < j < |s| ==> s[i] != s[j]
  }

  lemma DistinctSnoc(s: seq<Path>, p: Path)
    requires Distinct(s) && p !in s
    ensures Distinct(s + [p])
  {
  }

  lemma {:induction false} DistinctMultiplicity(s: seq<Path>, p: Path)
    requires Distinct(s)
    ensures multiset(s)[p] == if p in s then 1 else 0
    decreases |s|
  {
    if s != [] {
      var front := s[..|s| - 1];
      assert s == front + [s[|s| - 1]];
      assert forall i, j :: 0 <= i < j < |front| ==> front[i] == s[i] && front[j] == s[j];
      DistinctMultiplicity(front, p);
      assert s[|s| - 1] !in front;
    }
  }

  /** Two runs over the same files, in whatever order each visits them,
      write the same blocks and the same warnings. */
  lemma RunsAgreeUpToOrder(env: Env, o1: seq<Path>, o2: seq<Path>, includeLn: bool)
    requires AllRenderable(env, o1)
    requires Distinct(o1) && Distinct(o2)
    requires forall p :: p in o1 <==> p in o2
    ensures AllRenderable(env, o2)
    ensures multiset(Stdout(env, o1, includeLn)) == multiset(Stdout(env, o2, includeLn))
    ensures multiset(Stderr(env, o1)) == multiset(Stderr(env, o2))
  {
    forall p ensures multiset(o1)[p] == multiset(o2)[p] {
      DistinctMultiplicity(o1, p);
      DistinctMultiplicity(o2, p);
    }
    assert multiset(o1) == multiset(o2);
    OutputPermutation(env, o1, o2, includeLn);
  }

  // ---------------------------------------------------------------------
  // The process: its output streams and process_files

  /** The process's standard streams; each element is the text of one write. */
  class Console {
    var stdout: seq<string>
    var stderr: seq<string>

    constructor ()
      ensures stdout == [] && stderr == []
    {
      stdout, stderr := [], [];
    }

    /** print(s): s and a newline, to stdout. */
    method Print(s: string)
      modifies this
      ensures stdout == old(stdout) + [s + "\n"]
      ensures stderr == old(stderr)
    {
      stdout := stdout + [s + "\n"];
    }

    /** sys.stderr.write(s). */
    method WriteErr(s: string)
      modifies this
      ensures stderr == old(stderr) + [s]
      ensures stdout == old(stdout)
    {
      stderr := stderr + [s];
    }
  }

  /** The loop body of process_files for one file: print its block, or
      write the warning when it does not decode. */
  method ProcessOne(env: Env, filePath: Path, includeLn: bool, console: Console)
    requires Renderable(env, filePath)
    modifies console
    ensures console.stdout == old(console.stdout) + StdoutOf(env, filePath, includeLn)
    ensures console.stderr == old(console.stderr) + StderrOf(env, filePath)
  {
    var block := RenderFile(env, filePath, includeLn);
    if block.None? {
      console.WriteErr(Warning(RelPath(env.cwd, filePath)));
    } else {
      console.Print(block.value);
    }
  }

  /** process_files: collect, subtract the ignored files, and write one
      block or one warning per remaining file, visiting them in some order.
      The ghost result is that order. */
  method ProcessFiles(env: Env, globPatterns: seq<Pattern>, ignoreGlobPatterns: Option<seq<Pattern>>,
                      includeLn: bool, console: Console)
    returns (ghost order: seq<Path>)
    requires GlobsUnderCwd(env)
    modifies console
    ensures Distinct(order)
    ensures forall p :: p in order <==> p in ToProcess(env, globPatterns, ignoreGlobPatterns)
    ensures |order| == |ToProcess(env, globPatterns, ignoreGlobPatterns)|
    ensures AllRenderable(env, order)
    ensures console.stdout == old(console.stdout) + Stdout(env, order, includeLn)
    ensures console.stderr == old(console.stderr) + Stderr(env, order)
    ensures |Stdout(env, order, includeLn)| + |Stderr(env, order)| == |ToProcess(env, globPatterns, ignoreGlobPatterns)|
  {
    var remaining := SelectFiles(env, globPatterns, ignoreGlobPatterns);
    ghost var todo := remaining;
    forall p | p in todo ensures Renderable(env, p) {
      ToProcessRenderable(env, globPatterns, ignoreGlobPatterns, p);
    }
    order := [];
    while remaining != {}
      invariant remaining <= todo
      invariant forall p :: p in order <==> p in todo && p !in remaining
      invariant Distinct(order)
      invariant |order| + |remaining| == |todo|
      invariant AllRenderable(env, order)
      invariant console.stdout == old(console.stdout) + Stdout(env, order, includeLn)
      invariant console.stderr == old(console.stderr) + Stderr(env, order)
      decreases remaining
    {
      var filePath :| filePath in remaining;
      ghost var out, err := Stdout(env, order, includeLn), Stderr(env, order);
      ProcessOne(env, filePath, includeLn, console);
      OutputSnoc(env, order, filePath, includeLn);
      Assoc(old(console.stdout), out, StdoutOf(env, filePath, includeLn));
      Assoc(old(console.stderr), err, StderrOf(env, filePath));
      DistinctSnoc(order, filePath);
      order := order + [filePath];
      remaining := remaining - {filePath};
    }
    OutputCount(env, order, includeLn);
  }
}
