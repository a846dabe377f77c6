# repo-md, modelled in Dafny

repo-md is a command-line tool that concatenates text files into one
Markdown document for pasting into a language-model prompt. Its core, the
function `process_files` with its helper `collect_files`, does three things:

1. **File selection.** The files matched by every include glob pattern are
   unioned into a set. Only regular files are kept. The set of regular files
   matched by the ignore patterns is subtracted, if there are any ignore
   patterns.
2. **Block rendering.** Each remaining file becomes one block:
   - a `# <relative path>` header and a blank line;
   - an opening fence;
   - the file's lines, verbatim or prefixed with their 1-based number and a
     space;
   - a closing fence and a blank line.

   The pieces are collected in a list, joined, and printed. `print` adds one
   more newline.
3. **Skip on decode error.** A file that does not decode as UTF-8 produces
   no stdout output. It gets one warning on stderr naming its relative path,
   and the loop moves on to the next file.

The model has two modules:

- `Text` (`text.dfy`) covers the string operations the core relies on.
  - `Concat` is `''.join`.
  - `SplitLines` gives the lines a text-mode file iterator yields. Each line
    keeps its `'\n'`.
  - `Decimal` is the decimal rendering of a line number.

  Each comes with the property that pins it down:
  - joining the split lines gives the text back;
  - the lines are cut exactly at the newlines;
  - `ParseDecimal` inverts `Decimal`.
- `RepoMd` (`repo_md.dfy`) covers the tool itself.
  - The outside world is the `Env` datatype: the working directory (a path
    as a sequence of components), the filesystem (a map from path to
    `File(Ok(text))`, `File(DecodeError(yielded lines))`, `Dir` or `Other`),
    and glob matching as a function from pattern to a set of paths.
  - `CollectFiles` and `ProcessFiles` are methods with the source's loops.
  - Set iteration order is unspecified, so the loops pick the next element
    with `:|`. `ProcessFiles` returns the order it used as a ghost result.
  - stdout and stderr are the `seq<string>` fields of a `Console` object.
    Each element is the text of one `sys.stderr.write` call or one `print`
    call (its text and the newline together).
  - Pure functions state what the loops must produce: `Collected`,
    `ToProcess`, `Block`, `Stdout` and `Stderr`. Lemmas prove the
    properties of those functions.

Two details of the code's behaviour are worth knowing. The model follows
the code in both.
- The module docstring promises a "language-specific" fence. The code writes
  a plain ```` ``` ````.
- The code appends the closing fence directly after the file's last line. So
  a file that does not end in a newline has the fence glued to that line.
  `UnterminatedLastLine` states this.

## Model

| member | source | states |
|---|---|---|
| `RepoMd.CollectFiles` | repo_md/__main__.py:35-41 | the nested loop over patterns and their glob results returns exactly `Collected(env, patterns)`, whatever order each glob result is visited in |
| `RepoMd.IsFile` | repo_md/__main__.py:39 | `is_file()`: a path is a regular file exactly when the filesystem holds an entry for it that is neither a directory nor anything else |
| `RepoMd.FilesIn` | repo_md/__main__.py:38-40 | the regular files among a glob result: exactly those matched paths that are regular files, no others |
| `RepoMd.CollectedMembers` | repo_md/__main__.py:35-41 | a path is collected if and only if it is a regular file and some pattern matches it; a set, so overlapping patterns add it once |
| `RepoMd.CollectedOrderFree` | repo_md/__main__.py:37-41 | two pattern lists with the same patterns, in any order and with any repeats, collect the same set |
| `RepoMd.CollectedMonotone` | repo_md/__main__.py:37-41 | adding patterns can only grow the collected set |
| `RepoMd.Collected` | repo_md/__main__.py:35-41 | everything collected is a regular file: `is_file()` filters every glob match |
| `RepoMd.CollectedNoMatch` | repo_md/__main__.py:36-41 | a pattern that matches no regular file adds nothing wherever it stands, and no patterns collect the empty set |
| `RepoMd.IgnoreSet` | repo_md/__main__.py:46-49 | the ignore set is empty when the ignore list is `None` or empty, and holds only regular files |
| `RepoMd.ToProcess` | repo_md/__main__.py:51 | the handled files lie within the collected include set and share nothing with the ignore set |
| `RepoMd.SelectFiles` | repo_md/__main__.py:45-51 | the files handled are the include set minus the ignore set; the ignore patterns are collected only when the list is present and not empty |
| `RepoMd.ExclusionCorrect` | repo_md/__main__.py:45-51 | a file is handled if and only if it is a regular file, some include pattern matches it, and no ignore pattern matches it |
| `RepoMd.NoIgnoreKeepsAll` | repo_md/__main__.py:46-49 | with ignore patterns `None` or empty, every collected file is handled |
| `RepoMd.ToProcessRenderable` | repo_md/__main__.py:38-53 | every handled path is a regular file under the working directory, because globbing starts from it, so `relative_to` is defined |
| `RepoMd.RenderLines` | repo_md/__main__.py:57-61 | one emitted line per line the iterator yields, no more and no fewer |
| `RepoMd.RenderLinesAt` | repo_md/__main__.py:57-61 | the k-th emitted line is line k rendered with number `start + k`: numbering rises by exactly one per line |
| `RepoMd.RenderLinesVerbatim` | repo_md/__main__.py:60-61 | without line numbers the emitted lines are the lines read, unchanged |
| `RepoMd.JoinPath` | repo_md/__main__.py:53 | the joined path ends in its last component, with a `/` before it when there are several components |
| `RepoMd.RelPath` | repo_md/__main__.py:53 | the working directory itself renders as `.` |
| `RepoMd.JoinPathSlash` | repo_md/__main__.py:53 | joined plain components contain a `/` exactly when there are several, and never render as `.` |
| `RepoMd.JoinPathInjective` | repo_md/__main__.py:53 | joining plain components loses nothing: equal strings come from equal component lists |
| `RepoMd.RelPathInjective` | repo_md/__main__.py:53 | different files below the working directory, with plain components, get different relative paths |
| `RepoMd.RelPathEndsInName` | repo_md/__main__.py:53 | a path below the working directory renders ending in its file name, with a `/` before the name when the file sits in a subdirectory |
| `RepoMd.Header` | repo_md/__main__.py:53 | the header is the relative path plus exactly four fixed characters; `HeaderReadsBack` spells out which |
| `RepoMd.RenderLine` | repo_md/__main__.py:58-61 | without line numbers a line goes out unchanged; with them it grows by exactly the number's digits and one space; `NumberedLineReadsBack` characterises it |
| `RepoMd.HeaderReadsBack` | repo_md/__main__.py:53 | the header is `# `, then exactly the relative path, then a blank line |
| `RepoMd.Block` | repo_md/__main__.py:52-73 | a block holds nothing beyond the header, the fences and the emitted lines: its length is the path's plus 13 plus the lines' total; characterised by `BlockShape`, `BlockVerbatim` and `BlockNumbered` |
| `RepoMd.BlockShape` | repo_md/__main__.py:53-72 | every block starts with `"# " + rel + "\n\n" + "```\n"` and ends with `"```\n\n"` |
| `RepoMd.BlockVerbatim` | repo_md/__main__.py:52-72 | without line numbers the text between the fences is exactly the file's decoded text: no newline added, removed or changed |
| `RepoMd.BlockNumbered` | repo_md/__main__.py:52-72 | with line numbers the block holds one emitted line per source line, the k-th being `decimal(k) + " " + line`, from k = 1 |
| `RepoMd.NumberedLineReadsBack` | repo_md/__main__.py:59 | a numbered line splits back into its number (the leading digits, parsed), one space, and the original line |
| `RepoMd.UnterminatedLastLine` | repo_md/__main__.py:57-72 | when the text does not end in a newline, the closing fence follows its last character directly |
| `RepoMd.ExampleBlockVerbatim` | repo_md/__main__.py:52-72 | a file `a.txt` whose text is `hello\n` renders as `# a.txt`, a blank line, and a fence around `hello` |
| `RepoMd.ExampleBlockNumbered` | repo_md/__main__.py:52-72 | with line numbers, the same file's line is `1 hello` |
| `RepoMd.Warning` | repo_md/__main__.py:63-70 | the warning is the fixed bold red lead-in, then the path, then the reset code and a newline, and its length is exactly that |
| `RepoMd.WarningNamesFile` | repo_md/__main__.py:67-70 | the decode-error warning holds the relative path right after a fixed lead-in and ends in a newline |
| `RepoMd.WarningInjective` | repo_md/__main__.py:67-70 | different relative-path strings give different warnings |
| `RepoMd.WarningIdentifiesFile` | repo_md/__main__.py:67-70 | two files whose components are plain (no `/`, none `.`) and that get the same warning are the same file: the warning identifies the skipped file |
| `RepoMd.BlockOf` | repo_md/__main__.py:52-73 | without line numbers a decoding file's block is its header, the opening fence, the file's decoded text verbatim, and the closing fence |
| `RepoMd.RenderFile` | repo_md/__main__.py:52-72 | building the piece list over the lines the file iterator yields gives `Some(Block(...))` for a file that decodes; a decode error discards the partial list and gives `None` |
| `RepoMd.ProcessOne` | repo_md/__main__.py:52-73 | one loop iteration: a decoding file appends its block and print's newline to stdout only; a failing file appends one warning to stderr only |
| `RepoMd.Console.Print` | repo_md/__main__.py:73 | `print` appends the text and a newline to stdout and leaves stderr alone |
| `RepoMd.Console.WriteErr` | repo_md/__main__.py:67-70 | `sys.stderr.write` appends to stderr and leaves stdout alone |
| `RepoMd.ProcessFiles` | repo_md/__main__.py:44-73 | visits every file of the include set minus the ignore set exactly once, in some order; appends to stdout and stderr exactly what `Stdout` and `Stderr` give for that order; blocks plus warnings number exactly the files in the set difference |
| `RepoMd.OutputCount` | repo_md/__main__.py:51-73 | for any order of visiting, the blocks on stdout plus the warnings on stderr number exactly the files visited |
| `RepoMd.StdoutOf` | repo_md/__main__.py:62-73 | a file writes one stdout element if it decodes and none otherwise |
| `RepoMd.StderrOf` | repo_md/__main__.py:62-73 | a file writes one stderr element if it does not decode and none otherwise |
| `RepoMd.Stdout` | repo_md/__main__.py:51-73 | what the loop writes to stdout for a visiting order: at most one element per file; characterised by `StdoutMembers`, `OutputCount` and `OutputPermutation` |
| `RepoMd.Stderr` | repo_md/__main__.py:51-71 | what the loop writes to stderr for a visiting order: at most one element per file; characterised by `StderrMembers`, `OutputCount` and `OutputPermutation` |
| `RepoMd.StdoutMembers` | repo_md/__main__.py:51-73 | a string is on stdout if and only if it is the block, plus print's newline, of a visited file that decodes |
| `RepoMd.StderrMembers` | repo_md/__main__.py:62-71 | a string is on stderr if and only if it is the warning for a visited file that does not decode |
| `RepoMd.StdoutOnlyFromHandled` | repo_md/__main__.py:45-73 | every block on stdout belongs to a file that decodes and that no ignore pattern matched: an ignored file never produces output |
| `RepoMd.OutputPermutation` | repo_md/__main__.py:51 | visiting the files in a rearranged order writes the same multiset of blocks and of warnings |
| `RepoMd.RunsAgreeUpToOrder` | repo_md/__main__.py:51 | two runs over the same set of files, each visiting every file once, write the same blocks and warnings, apart from order |
| `Text.SplitLines` | repo_md/__main__.py:56-57 | the lines iterating the open file yields: none for an empty file, at least one otherwise, never more lines than characters; characterised by `SplitLinesJoin`, `SplitLineAt` and `SplitLinesLast` |
| `Text.SplitLinesJoin` | repo_md/__main__.py:56-61 | joining the lines the file iterator yields gives back the decoded text |
| `Text.SplitLineAt` | repo_md/__main__.py:57 | no yielded line is empty; every line but the last ends in a newline; no line holds a newline anywhere else |
| `Text.SplitLinesLast` | repo_md/__main__.py:57 | the last line ends in a newline if and only if the text does |
| `Text.Decimal` | repo_md/__main__.py:59 | the line number is written as a non-empty run of decimal digits without leading zeros |
| `Text.ParseDecimalInverse` | repo_md/__main__.py:59 | parsing the written line number gives the number back |
| `Text.Concat` | repo_md/__main__.py:73 | `''.join`: the result's length is the parts' total length, so nothing is inserted between them; `ConcatAppend` gives how it splits |
| `Text.ConcatAppend` | repo_md/__main__.py:73 | `''.join` of two lists placed one after the other is the join of the first followed by the join of the second |

## Left out

- `main` and the argparse setup (repo_md/__main__.py:76-88) are command-line plumbing. The model takes the patterns, the optional ignore list and the flag as parameters.
- Glob semantics (`*`, `**`, `?`, character classes) belong to the `pathlib` library. Glob matching is the abstract `glob` field of `Env`. The only assumption about it is that its results extend the working directory. The docstring's brace-expansion example assumes a feature `pathlib` does not have, and it is not modelled.
- Patterns that `Path.glob` rejects are not modelled. In Python 3.12 an empty pattern raises `ValueError`. An absolute pattern raises `NotImplementedError`. Because `glob` is a generator, the exception surfaces while `collect_files` iterates (repo_md/__main__.py:38) and ends the run before any output. The model's `glob` is total: every pattern yields a set of paths.
- Opening a file and decoding UTF-8 are abstract. So is text mode's universal-newline translation. A file's entry already holds the decoded text, or the lines yielded before the decoder failed.
- Other I/O failures, such as permission errors or a file deleted between matching and reading, are not caught by the source. They propagate out of the run. The model has no such failures.
- Path-to-string rendering is simplified. A relative path is its components joined by `/`, and `.` when it equals the working directory. OS-specific separators are not modelled.
- A `Path` in the model is any sequence of strings, so it admits components holding `/` or equal to `.`. pathlib never yields such components from a glob. `RelPathInjective` and `WarningIdentifiesFile` therefore require plain components. Without that requirement, `["a/b"]` and `["a", "b"]` would render alike.
- `print` writes its text and the newline as two writes to the stream. The model logs them as one element.
- The ANSI colour codes in the warning are kept verbatim. Terminal rendering of them is not modelled.
