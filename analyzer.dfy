/** main: the repository name and the output paths derived from the input. */
module Analyzer {
  import opened Paths

  /** The input once classified (line 80): a URL, of which only the path
      component is used, or a local directory made absolute (line 88). */
  datatype Input = Remote(urlPath: string) | Local(absPath: string)

  /** Lines 85 and 92: the basename of the URL path or of the absolute path. */
  function RepoName(input: Input): string {
    match input
    case Remote(urlPath) => Basename(urlPath)
    case Local(absPath) => Basename(absPath)
  }

  /** Line 94. */
  function OutputDir(cwd: string, name: string): string {
    JoinPath(cwd, name + "_analysis")
  }

  /** Line 101. */
  function MarkdownFile(cwd: string, name: string): string {
    JoinPath(OutputDir(cwd, name), name + "_contents.md")
  }

  /** Line 102. */
  function TreeFile(cwd: string, name: string): string {
    JoinPath(OutputDir(cwd, name), name + "_file_tree.txt")
  }

  /** The repository name is the last component of the path it is taken
      from: it holds no separator, and the path is some directory part
      (empty or ending in a separator) followed by it. */
  lemma RepoNameIsLastComponent(input: Input)
    ensures var path := if input.Remote? then input.urlPath else input.absPath;
      && Sep !in RepoName(input)
      && |RepoName(input)| <= |path|
      && path == path[..|path| - |RepoName(input)|] + RepoName(input)
      && (|RepoName(input)| < |path| ==> path[|path| - |RepoName(input)| - 1] == Sep)
  {
    var path := if input.Remote? then input.urlPath else input.absPath;
    BasenameIsLastComponent(path);
  }

  /** A URL path of directories and a name, such as /owner/repo, names the
      repository by its last component. */
  lemma RemoteName(owner: string, name: string)
    requires Sep !in name
    ensures RepoName(Remote(owner + [Sep] + name)) == name
  {
    assert owner + [Sep] + name == (owner + [Sep]) + name;
    BasenameAfterSep(owner + [Sep], name);
  }

  /** A URL path ending in a separator gives an empty repository name, and
      the outputs are then named "_analysis", "_contents.md" and
      "_file_tree.txt". */
  lemma TrailingSlashGivesEmptyName(urlPath: string, cwd: string)
    requires urlPath != [] && urlPath[|urlPath| - 1] == Sep
    ensures RepoName(Remote(urlPath)) == []
    ensures OutputDir(cwd, RepoName(Remote(urlPath))) == JoinPath(cwd, "_analysis")
    ensures Basename(MarkdownFile(cwd, RepoName(Remote(urlPath)))) == "_contents.md"
  {
    var name := RepoName(Remote(urlPath));
    assert LastSepEnd(urlPath, |urlPath|) == |urlPath|;
    assert name == [];
    OutputNames(cwd, name);
    assert name + "_analysis" == "_analysis";
    assert name + "_contents.md" == "_contents.md";
  }

  lemma NoSeparatorIn(name: string, suffix: string)
    requires Sep !in name && Sep !in suffix
    ensures Sep !in name + suffix
  {
    assert forall c :: c in name + suffix ==> c in name || c in suffix;
  }

  /** The output directory is a new entry of the working directory named
      <name>_analysis, and the two output files, <name>_contents.md and
      <name>_file_tree.txt, are distinct entries inside it. */
  lemma OutputNames(cwd: string, name: string)
    requires Sep !in name
    ensures Basename(OutputDir(cwd, name)) == name + "_analysis"
    ensures MarkdownFile(cwd, name) == OutputDir(cwd, name) + [Sep] + name + "_contents.md"
    ensures TreeFile(cwd, name) == OutputDir(cwd, name) + [Sep] + name + "_file_tree.txt"
    ensures Basename(MarkdownFile(cwd, name)) == name + "_contents.md"
    ensures Basename(TreeFile(cwd, name)) == name + "_file_tree.txt"
    ensures MarkdownFile(cwd, name) != TreeFile(cwd, name)
  {
    var dir, md, tree := name + "_analysis", name + "_contents.md", name + "_file_tree.txt";
    assert Sep !in "_analysis" && Sep !in "_contents.md" && Sep !in "_file_tree.txt";
    NoSeparatorIn(name, "_analysis");
    NoSeparatorIn(name, "_contents.md");
    NoSeparatorIn(name, "_file_tree.txt");
    BasenameOfJoin(cwd, dir);
    var out := OutputDir(cwd, name);
    assert out[|out| - 1] == 's' by {
      if dir == [] || dir[0] != Sep {
        assert out[|out| - 1] == dir[|dir| - 1];
      }
    }
    assert md[0] != Sep && tree[0] != Sep by {
      if name != [] {
        assert md[0] == name[0] && tree[0] == name[0];
      }
    }
    assert out + [Sep] + md == out + [Sep] + name + "_contents.md";
    assert out + [Sep] + tree == out + [Sep] + name + "_file_tree.txt";
    BasenameOfJoin(out, md);
    BasenameOfJoin(out, tree);
    assert |md| != |tree|;
  }
}
