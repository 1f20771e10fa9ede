/** The directory walk both serializers iterate over. os.walk itself is not
    modelled: its output is an input here, one entry per directory in the
    order the walk yields them. */
module Walk {
  import opened Paths
  import opened Sequences

  /** One (root, dirs, files) triple of os.walk: the directory, given by its
      components below the walk top, and the names of its files. The dirs
      list is read by neither serializer. */
  datatype Entry = Entry(parts: seq<string>, files: seq<string>)

  /** Line 33: sum(len(files) for _, _, files in os.walk(repo_path)). */
  function TotalFiles(walk: seq<Entry>): nat {
    if walk == [] then 0 else TotalFiles(walk[..|walk| - 1]) + |walk[|walk| - 1].files|
  }

  /** A file met by the markdown loop: os.path.join(root, file) (line 39)
      and its path relative to the top (line 40). */
  datatype FileRef = FileRef(path: string, rel: string)

  /** The files of one directory, in the order listed. */
  function DirRefs(top: string, parts: seq<string>, files: seq<string>): (refs: seq<FileRef>)
    ensures |refs| == |files|
    ensures forall k :: 0 <= k < |files| ==>
      refs[k] == FileRef(JoinPath(Root(top, parts), files[k]), RelPath(parts, files[k]))
  {
    if files == [] then []
    else
      var file := files[|files| - 1];
      DirRefs(top, parts, files[..|files| - 1]) + [FileRef(JoinPath(Root(top, parts), file), RelPath(parts, file))]
  }

  function EntryRefs(top: string, e: Entry): seq<FileRef> {
    DirRefs(top, e.parts, e.files)
  }

  /** The files of the walk in the order the nested loops meet them; there
      are as many as the precomputed total counts. */
  function FileRefs(top: string, walk: seq<Entry>): (refs: seq<FileRef>)
    ensures |refs| == TotalFiles(walk)
  {
    if walk == [] then [] else FileRefs(top, walk[..|walk| - 1]) + EntryRefs(top, walk[|walk| - 1])
  }

  lemma FileRefsStep(top: string, walk: seq<Entry>, i: nat)
    requires i < |walk|
    ensures FileRefs(top, walk[..i + 1]) == FileRefs(top, walk[..i]) + EntryRefs(top, walk[i])
  {
    assert walk[..i + 1][..i] == walk[..i];
  }

  lemma TotalFilesStep(walk: seq<Entry>, i: nat)
    requires i < |walk|
    ensures TotalFiles(walk[..i + 1]) == TotalFiles(walk[..i]) + |walk[i].files|
  {
    assert walk[..i + 1][..i] == walk[..i];
  }

  /** The files of the first m entries come first, in the same order. */
  lemma {:induction false} FileRefsPrefix(top: string, walk: seq<Entry>, m: nat)
    requires m <= |walk|
    ensures FileRefs(top, walk[..m]) <= FileRefs(top, walk)
    decreases |walk|
  {
    if m < |walk| {
      var init := walk[..|walk| - 1];
      assert init[..m] == walk[..m];
      FileRefsPrefix(top, init, m);
    } else {
      assert walk[..m] == walk;
    }
  }

  /** Every file of every entry is visited exactly once and in walk order:
      file j of entry i is the file at position (files of the entries before
      i) + j. */
  lemma FileRefsAt(top: string, walk: seq<Entry>, i: nat, j: nat)
    requires i < |walk| && j < |walk[i].files|
    ensures TotalFiles(walk[..i]) + j < |FileRefs(top, walk)|
    ensures FileRefs(top, walk)[TotalFiles(walk[..i]) + j]
         == FileRef(JoinPath(Root(top, walk[i].parts), walk[i].files[j]), RelPath(walk[i].parts, walk[i].files[j]))
  {
    EntryRefsAt(top, walk, i, j);
  }

  /** File j of entry i is file j of that entry's own list. */
  lemma EntryRefsAt(top: string, walk: seq<Entry>, i: nat, j: nat)
    requires i < |walk| && j < |walk[i].files|
    ensures TotalFiles(walk[..i]) + j < |FileRefs(top, walk)|
    ensures FileRefs(top, walk)[TotalFiles(walk[..i]) + j] == EntryRefs(top, walk[i])[j]
  {
    FileRefsStep(top, walk, i);
    FileRefsPrefix(top, walk, i + 1);
    PrefixElement(FileRefs(top, walk[..i]), EntryRefs(top, walk[i]), FileRefs(top, walk), j);
  }
}
