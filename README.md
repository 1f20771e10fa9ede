# GithubToLLM analyzer, modelled in Dafny

`github_repo_analyzer.py` turns a repository into two text files:

- a markdown document that holds every file under a heading with its
  relative path, with definitions bolded;
- an indented listing of its directories and files.

This project models the part of that script that decides what those files
contain:

- **Highlight** (`highlight.dfy`): the substitution of line 46. It is
  `re.sub(r'^(def|class)\s+(\w+)', r'**\1 \2**', …, flags=re.MULTILINE)`,
  written out as the left-to-right scan `re.sub` performs. `\s+` and `\w+`
  are greedy runs, and `^` holds at the start and after each newline.
- **Walk** (`walk.dfy`): the directory walk both serializers iterate over.
  Each entry is a directory, given as its components below the top, and the
  names of its files, in the order `os.walk` yields them. It also covers the
  total of line 33 and the files the markdown loop meets, in order, with
  their joined and relative paths (lines 39-40).
- **MarkdownSerializer** (`markdown.dfy`): `create_markdown` (lines 31-53),
  a method with the source's two nested loops. The inner loop is its own
  method, and the body of one pass is a third method. The method is proved
  against a specification function of the walk and of the file contents:
  - one section per file: heading, fenced bolded content and rule;
  - when a read fails, the output stops after that file's heading.
- **TreeSerializer** (`tree.dfy`): `create_file_tree` (lines 57-67), a
  method with the source's two nested loops, proved against a listing of
  typed lines. Each line has a depth, a name and a directory flag.
  - The depth is computed as line 62 writes it, `root.replace(repo_path,
    '').count(os.sep)` (`TreeSerializer.LevelAsWritten`).
  - `TreeSerializer.Level` is the depth line 62 is meant to compute: the top
    removed once, as a prefix. It serves as the reference.
  - For a top that starts with `/`, the two agree exactly when the top's
    text does not recur below the top. When it does, as for a subdirectory
    `app` or `apple` of a top `/app`, the listing indents that directory too
    little (see "## Findings").
- **Paths** (`paths.dfy`): the string operations the script leans on:
  - `posixpath.join`, `posixpath.basename` and `os.path.relpath`, for files
    below the top;
  - `str.count(os.sep)` and `str.replace(x, '')`.
- **Analyzer** (`analyzer.dfy`): the repository name and the three output
  paths built in `main` (lines 85, 92, 94, 101-102).

File contents are a map from path to text that stands for
`get_file_content` (lines 19-29):

- A path in the map reads, whether by UTF-8, by the latin-1 fallback or as
  the "Unable to read file content" message of line 29.
- A path missing from the map is a file whose UTF-8 `open` or `read` (lines
  21-22) raised something other than `UnicodeDecodeError` (a permission
  error, a dangling link, an I/O error during the read).
  `get_file_content` has no handler for that exception, so it propagates
  out of `create_markdown` right after the file's heading is written (line
  42). It also ends the whole program, so `create_file_tree` never runs and
  the tree file is never written.

The test file expects `**def** test_function` and `**class** TestClass`
(test_github_repo_analyzer.py:32-33). The replacement `**\1 \2**` puts the
keyword and the name inside one pair of markers: `**def test_function**`.
The model follows the code (`Highlight.BoldDefinitionLine`).

## Model

| member | source | states |
|---|---|---|
| Highlight.BoldFrom | github_repo_analyzer.py:46 | The left-to-right scan of `re.sub`: at a line start, a definition is replaced and the scan resumes after it; otherwise one character is copied. |
| Highlight.Bold | github_repo_analyzer.py:46 | The substitution applied from the start of the content, where `^` holds. |
| Highlight.MatchDefinition | github_repo_analyzer.py:46 | A match at a line start is `def` or `class` (tried in that order), then at least one whitespace character, then a non-empty identifier that is the whole run of word characters there. The match's length never exceeds the input. |
| Highlight.BoldIdentity | github_repo_analyzer.py:46 | The substitution leaves a content unchanged if and only if no line of it begins with a definition. |
| Highlight.BoldDefinitionLine | github_repo_analyzer.py:46 | A line `kw ws name tail` becomes `**kw name**tail`. The whitespace run, newlines included, collapses to one space, the rest of the line is kept, and the following lines are substituted afresh. |
| Highlight.BoldPlainLine | github_repo_analyzer.py:46 | A line that does not begin with a definition is copied unchanged, and the following lines are substituted afresh. |
| Highlight.BoldRestOfLine | github_repo_analyzer.py:46 | Past the start of a line, where `^` does not hold, nothing is rewritten up to the next newline. |
| Highlight.MatchDefinitionComplete | github_repo_analyzer.py:46 | Every `def`/`class`, whitespace, identifier, then a non-word character or the end, is matched, with the whole whitespace run as the gap and the whole identifier as group 2. |
| Highlight.WhitespaceRunCollapses | github_repo_analyzer.py:46 | For any non-empty whitespace run `ws`, `def` + ws + `foo(): pass` becomes `**def foo**(): pass`. |
| Highlight.KeywordNeedsWhitespace | github_repo_analyzer.py:46 | A keyword not followed by whitespace (`define x`, `classy = 1`) leaves its line unchanged. |
| Walk.TotalFiles | github_repo_analyzer.py:33 | The sum of the lengths of the file lists of the walk. |
| Walk.FileRefs | github_repo_analyzer.py:33-38 | The total computed up front on line 33 is the number of files the nested loops visit. |
| Walk.FileRefsAt | github_repo_analyzer.py:37-40 | File j of walk entry i is visited at position (files of the entries before i) + j. It carries its joined path and its relative path. |
| MarkdownSerializer.Heading | github_repo_analyzer.py:42 | `# `, the relative path and a blank line. |
| MarkdownSerializer.Section | github_repo_analyzer.py:42-49 | The heading, the text in a fence, and the rule. |
| MarkdownSerializer.CreateMarkdown | github_repo_analyzer.py:31-53 | `total` is the number of files in the walk. The output is the section of every file up to the first failing read, then that file's heading. `processed` is the number of sections written. |
| MarkdownSerializer.WriteDirectory | github_repo_analyzer.py:38-53 | After the files of one directory, either all of them are written and the count is the walk total so far, or the run stopped at a failing read after its heading. |
| MarkdownSerializer.WriteFile | github_repo_analyzer.py:39-52 | One file writes its heading, then either stops on a failed read, or writes its bolded content in a fence and the rule. The divisor of line 52 is positive and at least the new count. |
| MarkdownSerializer.MarkdownComplete | github_repo_analyzer.py:37-51 | When every file reads, all files are processed and the output is the document of every section. |
| MarkdownSerializer.MarkdownStopsAt | github_repo_analyzer.py:42-43 | When the read of file n fails, n files were processed and the output ends with that file's heading. |
| MarkdownSerializer.ReadableCountIs | github_repo_analyzer.py:43-51 | The processed count is exactly the position of the first failing read, or the number of files when none fails. |
| MarkdownSerializer.DocumentAt | github_repo_analyzer.py:37-49 | Each file's section sits whole, in walk order, between the sections of the files before it and after it. |
| MarkdownSerializer.WalkSectionAt | github_repo_analyzer.py:39-48 | The section of file j of entry i is headed by a relative path that, joined back onto the top, gives the file's path; a file directly in the top is headed by its bare name. The section shows the file's content bolded. |
| MarkdownSerializer.SectionVerbatim | github_repo_analyzer.py:46-48 | A file with no definition line appears in its fence exactly as read. |
| TreeSerializer.CreateFileTree | github_repo_analyzer.py:57-67 | The text written is the listing of the walk: one line per directory, indented by the depth line 62 computes as written, each followed by its files one level deeper, each line ending in a newline. |
| TreeSerializer.WriteFiles | github_repo_analyzer.py:65-67 | The inner loop appends each file name on its own line after the sub-indent, in order. |
| TreeSerializer.EntryText | github_repo_analyzer.py:61-67 | One pass of the outer loop appends the directory's basename and a trailing `/`, indented four spaces per level of `root.replace(repo_path, '').count(os.sep)`, then its files' lines indented one level more. |
| TreeSerializer.TreeDirLineAt | github_repo_analyzer.py:61-64 | The directory of entry i is listed at line i + (files of the entries before it), at the level line 62 computes as written, and named by its last component; the top is named by its own basename. Whenever the top's text does not recur below the top, that level is the number of components below the top. |
| TreeSerializer.TreeFileLineAt | github_repo_analyzer.py:65-67 | File j of entry i is listed right after its directory and the files before it, one level deeper than the directory's level as written; whenever the top's text does not recur below the top, that is one more than the number of components below the top. |
| TreeSerializer.Render | github_repo_analyzer.py:63-67 | The text of a line: four spaces per level, the name, and `/` after a directory name. |
| TreeSerializer.LevelAsWritten | github_repo_analyzer.py:62 | Line 62 as written: every occurrence of the top's text removed from the directory path, then the separators counted. |
| TreeSerializer.Level | github_repo_analyzer.py:62 | Not line 62 as written: the corrected depth, with the top removed once as a prefix before the separators are counted. It is the reference the as-written level is compared with. |
| TreeSerializer.LevelIsDepth | github_repo_analyzer.py:62 | The corrected depth of a directory is the number of its components below the top, 0 for the top. |
| TreeSerializer.LevelAsWrittenAgrees | github_repo_analyzer.py:62 | Line 62 as written computes the corrected depth whenever the top's text occurs nowhere in the part of the directory path below the top. |
| TreeSerializer.LevelAsWrittenExact | github_repo_analyzer.py:62 | For a top that starts with `/`, line 62 as written gives the number of components below the top if and only if the top's text does not recur below the top; when it does, the level is smaller. |
| TreeSerializer.LevelAsWrittenMiscounts | github_repo_analyzer.py:62 | For top `/app` with a subdirectory `app` or `apple`, line 62 as written gives level 0 (`/app/app` becomes empty, `/app/apple` becomes `le`); the depth is 1. |
| TreeSerializer.NestedDirectoryListing | github_repo_analyzer.py:61-64 | The listing of a top `/app` whose one subdirectory `app` holds no file is `app/` twice, the subdirectory line without indent. |
| Paths.RelPathRejoins | github_repo_analyzer.py:39-40 | The relative path joined back onto the top is the joined path. It has one separator per directory between the top and the file. |
| Paths.RootIsTopAndBelow | github_repo_analyzer.py:37-39 | A directory the walk reports is the top followed by `/` and each component below it, and has no trailing separator. |
| Paths.BasenameIsLastComponent | github_repo_analyzer.py:64 | The basename holds no separator and is the end of the path, right after its last separator when it has one. |
| Paths.BasenameOfJoin | github_repo_analyzer.py:64 | The basename of a directory joined with a name is that name. |
| Paths.CountSepAppend | github_repo_analyzer.py:62 | Counting separators distributes over concatenation. |
| Paths.RemoveAllAbsent | github_repo_analyzer.py:62 | `replace(x, '')` leaves a string unchanged when x does not occur in it. |
| Paths.RemoveAllShortens | github_repo_analyzer.py:62 | Where x occurs, `replace(x, '')` gives a strictly shorter text. |
| Paths.RemoveAllIdentity | github_repo_analyzer.py:62 | `replace(x, '')` leaves a text unchanged if and only if x is empty or occurs nowhere in it. |
| Paths.RemoveAllKeepsCount | github_repo_analyzer.py:62 | `replace(x, '')` never adds a separator. |
| Paths.RemoveAllDropsSeparator | github_repo_analyzer.py:62 | Where an x that starts with `/` occurs, `replace(x, '')` removes at least one separator. |
| Paths.RemoveAll | github_repo_analyzer.py:62 | `str.replace(x, '')`: the non-overlapping occurrences of x, found left to right, removed; an empty x removes nothing. The result is never longer than the input. |
| Paths.CountSep | github_repo_analyzer.py:62 | `str.count(os.sep)`: the number of separators, at most the length of the text. |
| Paths.JoinPath | github_repo_analyzer.py:39 | `posixpath.join(a, b)`: b when it is absolute, otherwise a and b with one separator between them unless a is empty or ends in one. |
| Paths.JoinEndsWith | github_repo_analyzer.py:39 | A join ends with its second part and, unless that part is absolute, starts with its first. |
| Paths.RelPath | github_repo_analyzer.py:40 | `os.path.relpath` of a walked file against the top: the components below the top and the file name, joined (it rejoins to the file's path by `Paths.RelPathRejoins`). |
| Paths.Basename | github_repo_analyzer.py:64 | `posixpath.basename`: the text after the last separator. It holds no separator and is no longer than the path. |
| Analyzer.RepoName | github_repo_analyzer.py:85-92 | The basename of the URL path or of the absolute local path. |
| Analyzer.OutputDir | github_repo_analyzer.py:94 | `<name>_analysis` joined onto the working directory. |
| Analyzer.MarkdownFile | github_repo_analyzer.py:101 | `<name>_contents.md` joined onto the output directory. |
| Analyzer.TreeFile | github_repo_analyzer.py:102 | `<name>_file_tree.txt` joined onto the output directory. |
| Analyzer.RepoNameIsLastComponent | github_repo_analyzer.py:85-92 | The repository name is the last component of the URL path or of the absolute local path. It holds no separator. |
| Analyzer.RemoteName | github_repo_analyzer.py:85 | A URL path `/owner/repo` names the repository `repo`. |
| Analyzer.TrailingSlashGivesEmptyName | github_repo_analyzer.py:85-101 | A URL path ending in `/` gives an empty name, so the outputs are `_analysis` and `_contents.md`. |
| Analyzer.OutputNames | github_repo_analyzer.py:94-102 | The output directory is `<name>_analysis` in the working directory. The two output files `<name>_contents.md` and `<name>_file_tree.txt` are distinct entries inside it. |

## Left out

- Cloning (lines 10-17), reading files (lines 19-29), creating the output directory and opening the output files are I/O. The clone is an absent input; file contents are the map described above; the outputs are returned strings.
- `os.walk` itself is not modelled. The walk is an input, with any order of directories and files. The `dirs` list is read by neither serializer and is dropped.
- Only the first walk is taken: line 33 and line 37 walk the tree twice, and the model assumes that both walks see the same tree.
- MarkdownSerializer.WriteFile: the positive divisor of line 52 rests on both walks seeing the same tree. The program breaks that when its output directory (the working directory plus `<name>_analysis`, lines 94-96) lies inside the analysed tree, as for the input `.`, on a run where `<name>_contents.md` does not exist yet. Line 36 creates `<name>_contents.md` after line 33 has counted and before line 37 walks, so the second walk meets one file more: `processed_files` reaches the total plus one, the document gets a section for its own output file, and when the tree holds no other file line 52 divides by zero and the run ends with a `ZeroDivisionError`. On a later run line 33 already counts the earlier `<name>_contents.md` and `<name>_file_tree.txt`, line 36 only truncates the first, the two walks agree and nothing divides by zero; the document still gets a section for its own output file. The model does not capture either case.
- The progress line (lines 52-53) and every other `print` are console output. Only the fact that line 52's divisor is positive is kept (`MarkdownSerializer.WriteFile`).
- `argparse`, `urlparse` (its scheme test and its path extraction) and `os.path.abspath` are not modelled. The input is already classified into a URL path or an absolute local path, which is `Analyzer.Input`.
- The `sys.exit` paths (missing local path, failed clone, failed directory creation) and the `IOError` handler of `create_file_tree` are not modelled: they stop the program before or instead of the outputs.
- In the URL case the temporary clone is deleted when the `with` block of lines 82-85 ends, before lines 104-105 walk it. Both walks then see a missing directory, and `os.walk` yields nothing. The model takes the walk as given and does not capture this.
- Highlight.IsWord: `\w` is modelled on ASCII letters, digits and underscore; Python's `\w` on `str` also accepts other Unicode letters and digits. `\s` covers the full set `str.isspace()` accepts.
- Names are sequences of Unicode scalar values. On POSIX `os.walk` returns a file or directory name that is not valid UTF-8 with lone surrogates, which a `char` here cannot hold. Writing such a name to the UTF-8 output files raises `UnicodeEncodeError`: at line 42 it ends `create_markdown` before that file's heading; at lines 64 and 67 it is not an `IOError`, so line 69 does not catch it and the program ends with the tree file half written. The model does not capture this.
- Paths: `os.path` is taken to be `posixpath` and `os.sep` to be `/`. On Windows the source uses `ntpath` and `\`, which changes the joins and relative paths of lines 39-40, the level of line 62 and the basename of line 64; that platform is not modelled.
- Paths.IsTop: the walk top is assumed not to end in a separator. The filesystem root `/` as the top is not covered by the depth and relative-path lemmas.
- MarkdownSerializer.CreateMarkdown: a file that `get_file_content` reads through its latin-1 fallback, or whose read turns into the error message of line 29, is an ordinary entry of the contents map. The encoding itself is not modelled.
- The inner loops of both serializers, and one pass of the markdown inner loop, are separate methods (`WriteDirectory`, `WriteFile`, `WriteFiles`). This is the same control flow as the nested loops of the source, split so that each proof stays small.

## Findings

The listing keeps the program's behaviour (`TreeSerializer.LevelAsWritten`,
shown on a whole listing by `TreeSerializer.NestedDirectoryListing`). The
corrected depth is `TreeSerializer.Level`, and the listing lemmas state that
the two agree whenever the top's text does not recur below the top; for a
top that starts with `/` they agree only then (`TreeSerializer.LevelAsWrittenExact`).

| source | as written | input that shows it | evidently intended | confidence | as-written member | corrected member |
|---|---|---|---|---|---|---|
| github_repo_analyzer.py:62 | `root.replace(repo_path, '')` removes every occurrence of the top's text from the directory path, not just the leading one | top `/app` with a subdirectory `apple`: `/app/apple` becomes `le`, with no separator, and the subdirectory gets level 0, the level of the top; the same with a subdirectory `app`, where `/app/app` becomes empty and the listing is `app/` twice without indent | remove the top as a prefix, so that the level is the number of components below the top (1 here) | not executed | TreeSerializer.LevelAsWrittenMiscounts | TreeSerializer.LevelIsDepth |
