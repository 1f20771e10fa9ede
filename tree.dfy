/** create_file_tree: one line per directory, indented by the level line 62
    computes for it, followed by one line per file, one level deeper. */
module TreeSerializer {
  import opened Paths
  import opened Walk
  import opened Sequences

  /** ' ' * n. */
  function Spaces(n: nat): (r: string)
    ensures |r| == n && forall k :: 0 <= k < n ==> r[k] == ' '
  {
    if n == 0 then [] else [' '] + Spaces(n - 1)
  }

  /** The depth computation of line 62 as written:
      root.replace(repo_path, '').count(os.sep). */
  function LevelAsWritten(top: string, root: string): nat {
    CountSep(RemoveAll(root, top))
  }

  /** root with the prefix top taken off, when root starts with it. */
  function RemovePrefix(s: string, prefix: string): (r: string)
    ensures prefix <= s ==> s == prefix + r
    ensures !(prefix <= s) ==> r == s
  {
    if prefix <= s then s[|prefix|..] else s
  }

  /** The depth line 62 is meant to compute: the separators of root after
      the top, removed once as a prefix rather than everywhere. */
  function Level(top: string, root: string): nat {
    CountSep(RemovePrefix(root, top))
  }

  /** The depth of a directory is the number of components between it and
      the top: 0 for the top itself. */
  lemma LevelIsDepth(top: string, parts: seq<string>)
    requires IsTop(top) && AllNames(parts)
    ensures Level(top, Root(top, parts)) == |parts|
  {
    RootIsTopAndBelow(top, parts);
    assert RemovePrefix(Root(top, parts), top) == Below(parts);
    BelowCounts(parts);
  }

  /** The top's text occurs again in the part of a directory path below the
      top, as "/app" does in "/app/app" and in "/app/apple". */
  ghost predicate TopRecursBelow(top: string, parts: seq<string>) {
    exists k :: OccursAt(Below(parts), top, k)
  }

  /** Line 62 as written gives the same depth as long as the top's own text
      does not recur below it. */
  lemma LevelAsWrittenAgrees(top: string, parts: seq<string>)
    requires IsTop(top) && AllNames(parts) && !TopRecursBelow(top, parts)
    ensures LevelAsWritten(top, Root(top, parts)) == Level(top, Root(top, parts))
  {
    LevelAsWrittenBelow(top, parts);
    RootIsTopAndBelow(top, parts);
    assert RemovePrefix(Root(top, parts), top) == Below(parts);
    RemoveAllAbsent(Below(parts), top);
  }

  /** Line 62 removes the top at the front of the path, and what it then
      counts is the part below the top with the top's text removed. */
  lemma LevelAsWrittenBelow(top: string, parts: seq<string>)
    requires IsTop(top) && AllNames(parts)
    ensures LevelAsWritten(top, Root(top, parts)) == CountSep(RemoveAll(Below(parts), top))
  {
    RootIsTopAndBelow(top, parts);
    RemoveAllLeading(top, Below(parts));
  }

  /** For an absolute top, as os.path.abspath and a temporary directory give,
      line 62 as written gives the depth exactly when the top's text does
      not recur below the top; when it does, the level is too small. */
  lemma LevelAsWrittenExact(top: string, parts: seq<string>)
    requires IsTop(top) && top[0] == Sep && AllNames(parts)
    ensures LevelAsWritten(top, Root(top, parts)) == |parts| <==> !TopRecursBelow(top, parts)
    ensures TopRecursBelow(top, parts) ==> LevelAsWritten(top, Root(top, parts)) < |parts|
  {
    LevelAsWrittenBelow(top, parts);
    BelowCounts(parts);
    if TopRecursBelow(top, parts) {
      var k :| OccursAt(Below(parts), top, k);
      RemoveAllDropsSeparator(Below(parts), top, k);
    } else {
      LevelAsWrittenAgrees(top, parts);
      LevelIsDepth(top, parts);
    }
  }

  /** A repository at /app with a subdirectory app or apple: replace removes
      every occurrence of "/app", "/app/app" becomes "" and "/app/apple"
      becomes "le", and either subdirectory gets level 0, the level of the
      top, instead of 1. */
  lemma LevelAsWrittenMiscounts()
    ensures LevelAsWritten("/app", Root("/app", ["app"])) == 0
    ensures Level("/app", Root("/app", ["app"])) == 1
    ensures LevelAsWritten("/app", Root("/app", ["apple"])) == 0
    ensures Level("/app", Root("/app", ["apple"])) == 1
  {
    NestedAppRoot();
    NestedAppRemoved();
    AppleRemoved();
    assert AllNames(["app"]) && AllNames(["apple"]);
    LevelIsDepth("/app", ["app"]);
    LevelIsDepth("/app", ["apple"]);
  }

  lemma AppleRemoved()
    ensures Root("/app", ["apple"]) == "/app/apple"
    ensures RemoveAll("/app/apple", "/app") == "le"
    ensures CountSep("le") == 0
  {
    assert Root("/app", []) == "/app";
    assert "/app/apple" == "/app" + "/apple";
    RemoveAllLeading("/app", "/apple");
    assert "/apple" == "/app" + "le";
    RemoveAllLeading("/app", "le");
    CountSepNone("le");
  }

  lemma NestedAppRoot()
    ensures Root("/app", ["app"]) == "/app/app"
  {
    assert Root("/app", []) == "/app";
  }

  lemma NestedAppRemoved()
    ensures RemoveAll("/app/app", "/app") == []
  {
    assert "/app/app"[..4] == "/app";
    assert "/app/app"[4..] == "/app";
    assert "/app"[..4] == "/app";
    assert "/app"[4..] == [];
  }

  /** A line of the listing: its depth, its name, and whether it names a
      directory (which is written with a trailing separator). */
  datatype TreeLine = TreeLine(level: nat, name: string, isDir: bool)

  /** The text of a line: four spaces per level (lines 63 and 65), the
      name, and "/" after a directory name (line 64). */
  function Render(line: TreeLine): string {
    Spaces(4 * line.level) + line.name + (if line.isDir then "/" else "")
  }

  /** The file lines of a directory at depth level, in the order of its files
      (lines 66-67). */
  function FileLines(level: nat, files: seq<string>): (lines: seq<TreeLine>)
    ensures |lines| == |files|
    ensures forall k :: 0 <= k < |files| ==> lines[k] == TreeLine(level + 1, files[k], false)
  {
    if files == [] then []
    else FileLines(level, files[..|files| - 1]) + [TreeLine(level + 1, files[|files| - 1], false)]
  }

  /** The lines written for one walk entry: the directory (lines 62-64),
      then its files. */
  function EntryLines(top: string, e: Entry): (lines: seq<TreeLine>)
    ensures |lines| == 1 + |e.files|
  {
    var root := Root(top, e.parts);
    var level := LevelAsWritten(top, root);
    [TreeLine(level, Basename(root), true)] + FileLines(level, e.files)
  }

  lemma EntryDirLine(top: string, e: Entry)
    ensures EntryLines(top, e)[0] == TreeLine(LevelAsWritten(top, Root(top, e.parts)), Basename(Root(top, e.parts)), true)
  {
  }

  lemma EntryFileLine(top: string, e: Entry, j: nat)
    requires j < |e.files|
    ensures EntryLines(top, e)[j + 1] == TreeLine(LevelAsWritten(top, Root(top, e.parts)) + 1, e.files[j], false)
  {
  }

  /** The lines of the whole listing: one per directory and one per file. */
  function TreeLines(top: string, walk: seq<Entry>): (lines: seq<TreeLine>)
    ensures |lines| == |walk| + TotalFiles(walk)
  {
    if walk == [] then [] else TreeLines(top, walk[..|walk| - 1]) + EntryLines(top, walk[|walk| - 1])
  }

  /** Each line rendered and followed by a newline. */
  function Text(lines: seq<TreeLine>): string {
    if lines == [] then [] else Text(lines[..|lines| - 1]) + Render(lines[|lines| - 1]) + "\n"
  }

  lemma TextStep(lines: seq<TreeLine>, line: TreeLine)
    ensures Text(lines + [line]) == Text(lines) + Render(line) + "\n"
  {
    assert (lines + [line])[..|lines|] == lines;
  }

  lemma RenderDir(level: nat, name: string)
    ensures Render(TreeLine(level, name, true)) == Spaces(4 * level) + name + "/"
  {
  }

  lemma RenderFile(level: nat, name: string)
    ensures Render(TreeLine(level, name, false)) == Spaces(4 * level) + name
  {
    assert Spaces(4 * level) + name + [] == Spaces(4 * level) + name;
  }

  lemma TreeLinesStep(top: string, walk: seq<Entry>, i: nat)
    requires i < |walk|
    ensures TreeLines(top, walk[..i + 1]) == TreeLines(top, walk[..i]) + EntryLines(top, walk[i])
  {
    assert walk[..i + 1][..i] == walk[..i];
  }

  /** The text lines 66-67 write for the files of one directory. */
  function FilesText(subIndent: string, files: seq<string>): string {
    if files == [] then []
    else FilesText(subIndent, files[..|files| - 1]) + (subIndent + files[|files| - 1]) + "\n"
  }

  /** create_file_tree: for each directory of the walk, its line, then the
      line of each of its files, written in walk order. */
  method CreateFileTree(top: string, walk: seq<Entry>) returns (text: string)
    ensures text == Text(TreeLines(top, walk))
  {
    text := [];
    for i := 0 to |walk|
      invariant text == Text(TreeLines(top, walk[..i]))
    {
      EntryText(top, walk, i);
      var root := Root(top, walk[i].parts);
      var level := LevelAsWritten(top, root);
      var indent := Spaces(4 * level);
      text := text + (indent + Basename(root) + "/") + "\n";
      var subIndent := Spaces(4 * (level + 1));
      text := WriteFiles(text, subIndent, walk[i].files);
    }
    assert walk[..|walk|] == walk;
  }

  /** The inner loop of create_file_tree: each file of a directory on a line
      of its own, after the sub-indent. */
  method WriteFiles(text: string, subIndent: string, files: seq<string>) returns (out: string)
    ensures out == text + FilesText(subIndent, files)
  {
    out := text;
    for j := 0 to |files|
      invariant out == text + FilesText(subIndent, files[..j])
    {
      assert files[..j + 1][..j] == files[..j];
      Associative(out, subIndent + files[j], "\n");
      Associative(text, FilesText(subIndent, files[..j]), subIndent + files[j]);
      Associative(text, FilesText(subIndent, files[..j]) + (subIndent + files[j]), "\n");
      out := out + (subIndent + files[j]) + "\n";
    }
    assert files[..|files|] == files;
  }

  /** The text of an entry's lines: its directory line, then FilesText. */
  lemma EntryText(top: string, walk: seq<Entry>, i: nat)
    requires i < |walk|
    ensures var root := Root(top, walk[i].parts);
      Text(TreeLines(top, walk[..i + 1]))
      == Text(TreeLines(top, walk[..i]))
       + (Spaces(4 * LevelAsWritten(top, root)) + Basename(root) + "/") + "\n"
       + FilesText(Spaces(4 * (LevelAsWritten(top, root) + 1)), walk[i].files)
  {
    TreeLinesStep(top, walk, i);
    EntryLinesText(top, TreeLines(top, walk[..i]), walk[i]);
  }

  /** The same, for the lines of one entry after any lines at all. */
  lemma EntryLinesText(top: string, before: seq<TreeLine>, e: Entry)
    ensures var root := Root(top, e.parts);
      Text(before + EntryLines(top, e))
      == Text(before)
       + (Spaces(4 * LevelAsWritten(top, root)) + Basename(root) + "/") + "\n"
       + FilesText(Spaces(4 * (LevelAsWritten(top, root) + 1)), e.files)
  {
    var root := Root(top, e.parts);
    var level := LevelAsWritten(top, root);
    assert EntryLines(top, e) == [TreeLine(level, Basename(root), true)] + FileLines(level, e.files);
    DirectoryText(before, level, Basename(root), e.files);
  }

  lemma DirectoryText(before: seq<TreeLine>, level: nat, name: string, files: seq<string>)
    ensures Text(before + ([TreeLine(level, name, true)] + FileLines(level, files)))
         == Text(before) + (Spaces(4 * level) + name + "/") + "\n" + FilesText(Spaces(4 * (level + 1)), files)
  {
    var dir := TreeLine(level, name, true);
    assert before + ([dir] + FileLines(level, files)) == (before + [dir]) + FileLines(level, files);
    TextOfFiles(before + [dir], level, files);
    TextStep(before, dir);
    RenderDir(level, name);
  }

  lemma {:induction false} TextOfFiles(written: seq<TreeLine>, level: nat, files: seq<string>)
    ensures Text(written + FileLines(level, files)) == Text(written) + FilesText(Spaces(4 * (level + 1)), files)
  {
    if files == [] {
      assert written + FileLines(level, files) == written;
    } else {
      var init, last := files[..|files| - 1], files[|files| - 1];
      var line := TreeLine(level + 1, last, false);
      TextOfFiles(written, level, init);
      assert written + FileLines(level, files) == (written + FileLines(level, init)) + [line];
      TextStep(written + FileLines(level, init), line);
      RenderFile(level + 1, last);
      var t, f, l := Text(written), FilesText(Spaces(4 * (level + 1)), init), Spaces(4 * (level + 1)) + last;
      Associative(t, f, l);
      Associative(t, f + l, "\n");
    }
  }

  lemma {:induction false} TreeLinesPrefix(top: string, walk: seq<Entry>, m: nat)
    requires m <= |walk|
    ensures TreeLines(top, walk[..m]) <= TreeLines(top, walk)
    decreases |walk|
  {
    if m < |walk| {
      var init := walk[..|walk| - 1];
      assert init[..m] == walk[..m];
      TreeLinesPrefix(top, init, m);
    } else {
      assert walk[..m] == walk;
    }
  }

  /** Line k of entry i's lines is line i + (files before entry i) + k of
      the listing. */
  lemma TreeLineOfEntry(top: string, walk: seq<Entry>, i: nat, k: nat)
    requires i < |walk| && k <= |walk[i].files|
    ensures i + TotalFiles(walk[..i]) + k < |TreeLines(top, walk)|
    ensures TreeLines(top, walk)[i + TotalFiles(walk[..i]) + k] == EntryLines(top, walk[i])[k]
  {
    TreeLinesStep(top, walk, i);
    TreeLinesPrefix(top, walk, i + 1);
    PrefixElement(TreeLines(top, walk[..i]), EntryLines(top, walk[i]), TreeLines(top, walk), k);
  }

  /** The directory of entry i is listed at line i + (files of the entries
      before it), at the level line 62 computes and named by its last
      component (the top by its own basename). That level is the number of
      components below the top whenever the top does not recur below it. */
  lemma TreeDirLineAt(top: string, walk: seq<Entry>, i: nat)
    requires IsTop(top) && i < |walk| && AllNames(walk[i].parts)
    ensures i + TotalFiles(walk[..i]) < |TreeLines(top, walk)|
    ensures TreeLines(top, walk)[i + TotalFiles(walk[..i])]
         == TreeLine(LevelAsWritten(top, Root(top, walk[i].parts)), DirName(top, walk[i].parts), true)
    ensures !TopRecursBelow(top, walk[i].parts) ==>
      TreeLines(top, walk)[i + TotalFiles(walk[..i])].level == |walk[i].parts|
  {
    TreeLineOfEntry(top, walk, i, 0);
    DirLineDepth(top, walk[i]);
  }

  lemma DirLineDepth(top: string, e: Entry)
    requires IsTop(top) && AllNames(e.parts)
    ensures EntryLines(top, e)[0]
         == TreeLine(LevelAsWritten(top, Root(top, e.parts)), DirName(top, e.parts), true)
    ensures !TopRecursBelow(top, e.parts) ==> LevelAsWritten(top, Root(top, e.parts)) == |e.parts|
  {
    EntryDirLine(top, e);
    BasenameOfRoot(top, e.parts);
    if !TopRecursBelow(top, e.parts) {
      LevelAsWrittenAgrees(top, e.parts);
      LevelIsDepth(top, e.parts);
    }
  }

  /** File j of entry i is listed right after its directory and the files
      before it, one level deeper than the directory: one more than the
      number of components below the top whenever the top does not recur
      below it. */
  lemma TreeFileLineAt(top: string, walk: seq<Entry>, i: nat, j: nat)
    requires IsTop(top) && i < |walk| && AllNames(walk[i].parts) && j < |walk[i].files|
    ensures i + TotalFiles(walk[..i]) + 1 + j < |TreeLines(top, walk)|
    ensures TreeLines(top, walk)[i + TotalFiles(walk[..i]) + 1 + j]
         == TreeLine(LevelAsWritten(top, Root(top, walk[i].parts)) + 1, walk[i].files[j], false)
    ensures !TopRecursBelow(top, walk[i].parts) ==>
      TreeLines(top, walk)[i + TotalFiles(walk[..i]) + 1 + j].level == |walk[i].parts| + 1
  {
    TreeLineOfEntry(top, walk, i, j + 1);
    EntryFileLine(top, walk[i], j);
    if !TopRecursBelow(top, walk[i].parts) {
      LevelAsWrittenAgrees(top, walk[i].parts);
      LevelIsDepth(top, walk[i].parts);
    }
  }

  /** The listing of a repository at /app whose one subdirectory is app: the
      subdirectory is written with no indent, like the top, where four
      spaces were meant. */
  lemma NestedDirectoryListing()
    ensures Text(TreeLines("/app", [Entry([], []), Entry(["app"], [])])) == "app" + "/\n" + "app" + "/\n"
  {
    NestedDirectoryLines();
    UnindentedDirectories("app");
  }

  /** Two directory lines of level 0 are each the bare name, a / and a newline. */
  lemma UnindentedDirectories(name: string)
    ensures Text([TreeLine(0, name, true), TreeLine(0, name, true)]) == name + "/\n" + name + "/\n"
  {
    var d := TreeLine(0, name, true);
    RenderDir(0, name);
    assert Spaces(0) == [];
    assert Render(d) == name + "/";
    TwoLinesText(d);
  }

  /** Both lines of that listing are directory lines of level 0 named app. */
  lemma NestedDirectoryLines()
    ensures TreeLines("/app", [Entry([], []), Entry(["app"], [])])
         == [TreeLine(0, "app", true), TreeLine(0, "app", true)]
  {
    TopEntryLines();
    NestedEntryLines();
    TwoEntryLines("/app", [Entry([], []), Entry(["app"], [])]);
  }

  lemma TwoEntryLines(top: string, walk: seq<Entry>)
    requires |walk| == 2
    ensures TreeLines(top, walk) == EntryLines(top, walk[0]) + EntryLines(top, walk[1])
  {
    var first := walk[..1];
    assert TreeLines(top, walk) == TreeLines(top, first) + EntryLines(top, walk[1]);
    assert first[..0] == [];
    assert TreeLines(top, first) == EntryLines(top, walk[0]);
  }

  lemma TwoLinesText(line: TreeLine)
    ensures Text([line, line]) == Render(line) + "\n" + Render(line) + "\n"
  {
    TextStep([], line);
    TextStep([line], line);
    assert [] + [line] == [line] && [line] + [line] == [line, line];
  }

  lemma TopEntryLines()
    ensures EntryLines("/app", Entry([], [])) == [TreeLine(0, "app", true)]
  {
    var top := "/app";
    assert Root(top, []) == top;
    RemoveAllLeading(top, []);
    assert top + [] == top;
    assert CountSep([]) == 0;
    assert top == "/" + "app";
    BasenameAfterSep("/", "app");
  }

  lemma NestedEntryLines()
    ensures EntryLines("/app", Entry(["app"], [])) == [TreeLine(0, "app", true)]
  {
    LevelAsWrittenMiscounts();
    NestedAppRoot();
    BasenameOfJoin("/app", "app");
  }
}
