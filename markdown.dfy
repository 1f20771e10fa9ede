/** create_markdown: one section per walked file, written in walk order. The
    output file is a string the method appends to; file contents come from a
    map standing for get_file_content. */
module MarkdownSerializer {
  import opened Paths
  import opened Highlight
  import opened Walk
  import opened Sequences

  /** Line 42. */
  function Heading(rel: string): string {
    "# " + rel + "\n\n"
  }

  /** Lines 42-49: the heading, the fenced text of the file, and the rule. */
  function Section(rel: string, text: string): string {
    Heading(rel) + "```\n" + text + "\n```\n\n" + "---\n\n"
  }

  /** Line 46 applied to the content of every file that reads: the text each
      file shows in its fence. */
  function Highlighted(contents: map<string, string>): (shown: map<string, string>)
    ensures Shows(shown, contents)
  {
    map p | p in contents :: Bold(contents[p])
  }

  /** `shown` holds, for every file that reads, its content bolded. The
      quantifier is triggered only where a content is bolded, so that the
      document functions below can be unfolded without unfolding Bold. */
  predicate Shows(shown: map<string, string>, contents: map<string, string>) {
    && shown.Keys == contents.Keys
    && forall p {:trigger Bold(contents[p])} :: p in contents ==> shown[p] == Bold(contents[p])
  }

  /** Every file has a content to read. A path missing from the map is a file
      whose read raised an error other than UnicodeDecodeError, which
      get_file_content lets propagate. */
  predicate Readable(refs: seq<FileRef>, shown: map<string, string>) {
    forall k :: 0 <= k < |refs| ==> refs[k].path in shown
  }

  /** The sections of the files, in order. */
  function Document(refs: seq<FileRef>, shown: map<string, string>): string
    requires Readable(refs, shown)
  {
    if refs == [] then []
    else
      var last := refs[|refs| - 1];
      Document(refs[..|refs| - 1], shown) + Section(last.rel, shown[last.path])
  }

  /** How many files are written before the first read that fails. */
  function ReadableCount(refs: seq<FileRef>, shown: map<string, string>): (n: nat)
    ensures n <= |refs|
    ensures Readable(refs[..n], shown)
    ensures n < |refs| ==> refs[n].path !in shown
  {
    if refs == [] || refs[0].path !in shown then 0
    else
      var n := 1 + ReadableCount(refs[1..], shown);
      assert forall k :: 1 <= k < n ==> refs[k] == refs[1..][k - 1];
      n
  }

  /** The whole output of create_markdown: the sections of the files up to
      the first failing read, and the heading of that file when there is
      one. */
  function Markdown(refs: seq<FileRef>, shown: map<string, string>): string {
    var n := ReadableCount(refs, shown);
    Document(refs[..n], shown) + (if n < |refs| then Heading(refs[n].rel) else [])
  }

  /** When every file reads, the output is the whole document. */
  lemma MarkdownComplete(refs: seq<FileRef>, shown: map<string, string>)
    requires Readable(refs, shown)
    ensures ReadableCount(refs, shown) == |refs|
    ensures Markdown(refs, shown) == Document(refs, shown)
  {
    assert refs[..|refs|] == refs;
    ReadableCountIs(refs, shown, |refs|);
  }

  /** When the read of file n fails, the output stops after its heading. */
  lemma MarkdownStopsAt(refs: seq<FileRef>, shown: map<string, string>, n: nat)
    requires n < |refs| && Readable(refs[..n], shown) && refs[n].path !in shown
    ensures ReadableCount(refs, shown) == n
    ensures Markdown(refs, shown) == Document(refs[..n], shown) + Heading(refs[n].rel)
  {
    ReadableCountIs(refs, shown, n);
  }

  /** The files written are exactly those before the first failing read. */
  lemma {:induction false} ReadableCountIs(refs: seq<FileRef>, shown: map<string, string>, n: nat)
    requires n <= |refs| && Readable(refs[..n], shown)
    requires n < |refs| ==> refs[n].path !in shown
    ensures ReadableCount(refs, shown) == n
  {
    if n > 0 {
      assert refs[0] == refs[..n][0];
      var tail, before := refs[1..], refs[..n];
      var rest := tail[..n - 1];
      assert Readable(rest, shown) by {
        forall k | 0 <= k < |rest| ensures rest[k].path in shown {
          assert rest[k] == before[k + 1];
        }
      }
      ReadableCountIs(tail, shown, n - 1);
    }
  }

  /** Writing one more readable file extends the document by its section. */
  lemma DocumentStep(refs: seq<FileRef>, shown: map<string, string>, n: nat)
    requires n < |refs| && Readable(refs[..n], shown) && refs[n].path in shown
    ensures Readable(refs[..n + 1], shown)
    ensures Document(refs[..n + 1], shown)
         == Document(refs[..n], shown) + Section(refs[n].rel, shown[refs[n].path])
  {
    assert refs[..n + 1][..n] == refs[..n];
    assert forall k :: 0 <= k < n ==> refs[..n + 1][k] == refs[..n][k];
  }

  /** The writes of lines 42, 43, 48 and 49 for a readable file extend the
      document by that file's section. */
  lemma SectionAppended(refs: seq<FileRef>, shown: map<string, string>, n: nat)
    requires n < |refs| && Readable(refs[..n], shown) && refs[n].path in shown
    ensures Readable(refs[..n + 1], shown)
    ensures Document(refs[..n], shown) + Heading(refs[n].rel) + "```\n" + shown[refs[n].path]
              + "\n```\n\n" + "---\n\n"
         == Document(refs[..n + 1], shown)
  {
    SectionWritten(Document(refs[..n], shown), refs[n].rel, shown[refs[n].path]);
    DocumentStep(refs, shown, n);
  }

  /** The writes of lines 42, 43, 48 and 49 put down one section. */
  lemma SectionWritten(doc: string, rel: string, text: string)
    ensures doc + Heading(rel) + "```\n" + text + "\n```\n\n" + "---\n\n"
         == doc + Section(rel, text)
  {
    var h := Heading(rel);
    Associative(doc, h, "```\n");
    Associative(doc, h + "```\n", text);
    Associative(doc, h + "```\n" + text, "\n```\n\n");
    Associative(doc, h + "```\n" + text + "\n```\n\n", "---\n\n");
  }

  /** The state of the output after the first n files are written. */
  predicate Written(refs: seq<FileRef>, shown: map<string, string>, doc: string, n: nat) {
    n <= |refs| && Readable(refs[..n], shown) && doc == Document(refs[..n], shown)
  }

  /** The state of the output after the read of file n failed: the files
      before it written, then its heading. */
  predicate Stopped(refs: seq<FileRef>, shown: map<string, string>, doc: string, n: nat) {
    && n < |refs| && Readable(refs[..n], shown) && refs[n].path !in shown
    && doc == Document(refs[..n], shown) + Heading(refs[n].rel)
  }

  /** create_markdown as it runs: `total` is counted first (line 33); every
      file gets its heading, then its bolded content in a fence and a rule
      (lines 42-49), and `processed` goes up by one per file written (line
      51). A failing read ends the run after the heading of that file. */
  method CreateMarkdown(top: string, walk: seq<Entry>, contents: map<string, string>)
    returns (doc: string, processed: nat, total: nat)
    ensures total == TotalFiles(walk) == |FileRefs(top, walk)|
    ensures processed == ReadableCount(FileRefs(top, walk), Highlighted(contents))
    ensures doc == Markdown(FileRefs(top, walk), Highlighted(contents))
  {
    ghost var refs, shown := FileRefs(top, walk), Highlighted(contents);
    total := TotalFiles(walk);
    processed := 0;
    doc := [];
    for i := 0 to |walk|
      invariant processed == TotalFiles(walk[..i])
      invariant Written(refs, shown, doc, processed)
    {
      var failed;
      doc, processed, failed := WriteDirectory(top, walk, i, contents, shown, doc, processed);
      if failed {
        MarkdownStopsAt(refs, shown, processed);
        return;
      }
    }
    assert walk[..|walk|] == walk;
    assert refs[..processed] == refs;
    MarkdownComplete(refs, shown);
  }

  /** The inner loop of create_markdown over the files of walk entry i
      (lines 38-53). It reports a failed read, after which nothing more is
      written. */
  method WriteDirectory(top: string, walk: seq<Entry>, i: nat, contents: map<string, string>,
                        ghost shown: map<string, string>, doc: string, processed: nat)
    returns (out: string, count: nat, failed: bool)
    requires i < |walk| && processed == TotalFiles(walk[..i])
    requires Shows(shown, contents) && Written(FileRefs(top, walk), shown, doc, processed)
    ensures !failed ==> count == TotalFiles(walk[..i + 1]) && Written(FileRefs(top, walk), shown, out, count)
    ensures failed ==> Stopped(FileRefs(top, walk), shown, out, count)
  {
    out, count, failed := doc, processed, false;
    for j := 0 to |walk[i].files|
      invariant count == processed + j
      invariant Written(FileRefs(top, walk), shown, out, count)
    {
      out, failed := WriteFile(top, walk, i, j, contents, shown, out, count);
      if failed {
        return;
      }
      count := count + 1;
    }
    TotalFilesStep(walk, i);
  }

  /** One pass of the inner loop, over file j of walk entry i, which is file
      n of the walk: the heading (line 42), then either the failed read, or
      the bolded content in a fence and the rule (lines 43-49). Line 52 then
      divides the new count by total_files, which is positive and no less. */
  method WriteFile(top: string, walk: seq<Entry>, i: nat, j: nat, contents: map<string, string>,
                   ghost shown: map<string, string>, doc: string, n: nat)
    returns (out: string, failed: bool)
    requires i < |walk| && j < |walk[i].files| && n == TotalFiles(walk[..i]) + j
    requires Shows(shown, contents) && Written(FileRefs(top, walk), shown, doc, n)
    ensures failed ==> Stopped(FileRefs(top, walk), shown, out, n)
    ensures !failed ==> Written(FileRefs(top, walk), shown, out, n + 1)
    ensures !failed ==> 0 < n + 1 <= TotalFiles(walk)
  {
    ghost var refs := FileRefs(top, walk);
    var root, file := Root(top, walk[i].parts), walk[i].files[j];
    var path := JoinPath(root, file);
    var rel := RelPath(walk[i].parts, file);
    FileRefsAt(top, walk, i, j);
    out := doc + Heading(rel);
    if path !in contents {
      return out, true;
    }
    var content := Bold(contents[path]);
    SectionAppended(refs, shown, n);
    out := out + "```\n" + content + "\n```\n\n";
    out := out + "---\n\n";
    failed := false;
  }

  /** Documents compose: the document of a walk split in two is the document
      of the first part followed by that of the second. */
  lemma {:induction false} DocumentAppend(a: seq<FileRef>, b: seq<FileRef>, shown: map<string, string>)
    requires Readable(a, shown) && Readable(b, shown)
    ensures Readable(a + b, shown)
    ensures Document(a + b, shown) == Document(a, shown) + Document(b, shown)
    decreases |b|
  {
    ReadableAppend(a, b, shown);
    if b == [] {
      assert a + b == a;
    } else {
      var init, last := b[..|b| - 1], b[|b| - 1];
      assert Readable(init, shown) by {
        assert forall k :: 0 <= k < |init| ==> init[k] == b[k];
      }
      assert (a + b)[..|a + b| - 1] == a + init;
      assert (a + b)[|a + b| - 1] == last;
      DocumentAppend(a, init, shown);
      var s := Section(last.rel, shown[last.path]);
      calc {
        Document(a + b, shown);
        Document(a + init, shown) + s;
        Document(a, shown) + Document(init, shown) + s;
        { Associative(Document(a, shown), Document(init, shown), s); }
        Document(a, shown) + Document(b, shown);
      }
    }
  }

  lemma ReadableAppend(a: seq<FileRef>, b: seq<FileRef>, shown: map<string, string>)
    requires Readable(a, shown) && Readable(b, shown)
    ensures Readable(a + b, shown)
  {
    forall k | 0 <= k < |a + b| ensures (a + b)[k].path in shown {
      if k < |a| { assert (a + b)[k] == a[k]; } else { assert (a + b)[k] == b[k - |a|]; }
    }
  }

  /** The section of each file sits, whole, between the sections of the
      files before it and those after it: the document is the in-order
      concatenation of exactly one section per file. */
  lemma DocumentAt(refs: seq<FileRef>, shown: map<string, string>, k: nat)
    requires Readable(refs, shown) && k < |refs|
    ensures Readable(refs[..k], shown) && Readable(refs[k + 1..], shown)
    ensures Document(refs, shown)
         == Document(refs[..k], shown)
          + Section(refs[k].rel, shown[refs[k].path])
          + Document(refs[k + 1..], shown)
  {
    var before, file, after := refs[..k], refs[k], refs[k + 1..];
    SplitAt(refs, k);
    assert Readable(before, shown) && Readable(after, shown) by {
      forall m | 0 <= m < |before| ensures before[m].path in shown {
        assert before[m] == refs[m];
      }
      forall m | 0 <= m < |after| ensures after[m].path in shown {
        assert after[m] == refs[k + 1 + m];
      }
    }
    assert Document([file], shown) == Section(file.rel, shown[file.path]) by {
      assert [file][..0] == [];
    }
    DocumentAppend(before, [file], shown);
    DocumentAppend(before + [file], after, shown);
  }

  /** A file whose content has no line opening with a definition appears in
      its section verbatim. */
  lemma SectionVerbatim(rel: string, content: string)
    requires HasNoDefinitionLine(content)
    ensures Section(rel, Bold(content)) == "# " + rel + "\n\n```\n" + content + "\n```\n\n---\n\n"
  {
    BoldIdentity(content);
  }

  /** The markdown of a walk whose files all read: its i-th entry's j-th file
      is headed by the file's path relative to the top, a file directly in
      the top is headed by its bare name, and the section shows the file's
      content bolded. */
  lemma WalkSectionAt(top: string, walk: seq<Entry>, contents: map<string, string>, i: nat, j: nat)
    requires IsTop(top) && Readable(FileRefs(top, walk), contents)
    requires i < |walk| && j < |walk[i].files|
    requires AllNames(walk[i].parts) && IsName(walk[i].files[j])
    ensures TotalFiles(walk[..i]) + j < TotalFiles(walk)
    ensures Readable(FileRefs(top, walk), Highlighted(contents))
    ensures var k, refs, shown := TotalFiles(walk[..i]) + j, FileRefs(top, walk), Highlighted(contents);
      var path := JoinPath(Root(top, walk[i].parts), walk[i].files[j]);
      && refs[k].path == path
      && JoinPath(top, refs[k].rel) == path
      && (walk[i].parts == [] ==> refs[k].rel == walk[i].files[j])
      && Document(refs, shown)
         == Document(refs[..k], shown)
          + Section(refs[k].rel, Bold(contents[path]))
          + Document(refs[k + 1..], shown)
  {
    SectionOfFileAt(top, walk, contents, Highlighted(contents), i, j);
  }

  /** The same, for any map that shows each readable file's content bolded. */
  lemma SectionOfFileAt(top: string, walk: seq<Entry>, contents: map<string, string>,
                        shown: map<string, string>, i: nat, j: nat)
    requires IsTop(top) && Readable(FileRefs(top, walk), contents) && Shows(shown, contents)
    requires i < |walk| && j < |walk[i].files|
    requires AllNames(walk[i].parts) && IsName(walk[i].files[j])
    ensures TotalFiles(walk[..i]) + j < TotalFiles(walk)
    ensures Readable(FileRefs(top, walk), shown)
    ensures var k, refs := TotalFiles(walk[..i]) + j, FileRefs(top, walk);
      var path := JoinPath(Root(top, walk[i].parts), walk[i].files[j]);
      && refs[k].path == path
      && JoinPath(top, refs[k].rel) == path
      && (walk[i].parts == [] ==> refs[k].rel == walk[i].files[j])
      && Document(refs, shown)
         == Document(refs[..k], shown)
          + Section(refs[k].rel, Bold(contents[path]))
          + Document(refs[k + 1..], shown)
  {
    var refs := FileRefs(top, walk);
    FileRefsAt(top, walk, i, j);
    var k := TotalFiles(walk[..i]) + j;
    RelPathRejoins(top, walk[i].parts, walk[i].files[j]);
    assert shown[refs[k].path] == Bold(contents[refs[k].path]);
    DocumentAt(refs, shown, k);
  }
}
