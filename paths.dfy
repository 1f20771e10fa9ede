/** The path-string operations of Python's posixpath and str that the analyzer
    relies on, and the directory strings os.walk builds below a walk top. */
module Paths {

  /** os.sep on POSIX, the platform this module models. */
  const Sep: char := '/'

  /** A directory or file name as os.walk lists it. */
  predicate IsName(s: string) {
    s != [] && Sep !in s && s != "." && s != ".."
  }

  predicate AllNames(names: seq<string>) {
    forall k :: 0 <= k < |names| ==> IsName(names[k])
  }

  /** A walk top as os.path.abspath leaves it (other than the filesystem root
      itself): not empty and without a trailing separator. */
  predicate IsTop(top: string) {
    top != [] && top[|top| - 1] != Sep
  }

  /** posixpath.join(a, b): b when it is absolute, otherwise a and b with one
      separator between them unless a is empty or already ends in one. */
  function JoinPath(a: string, b: string): string {
    if b != [] && b[0] == Sep then b
    else if a == [] || a[|a| - 1] == Sep then a + b
    else a + [Sep] + b
  }

  /** The index just after the last separator among the first n characters
      of p, or 0 when they hold none. */
  function LastSepEnd(p: string, n: nat): (k: nat)
    requires n <= |p|
    ensures k <= n
    decreases n
  {
    if n == 0 || p[n - 1] == Sep then n else LastSepEnd(p, n - 1)
  }

  /** A join ends with its second part, and starts with its first unless
      the second is absolute. */
  lemma JoinEndsWith(a: string, b: string)
    ensures |b| <= |JoinPath(a, b)| && JoinPath(a, b)[|JoinPath(a, b)| - |b|..] == b
    ensures (b == [] || b[0] != Sep) ==> a <= JoinPath(a, b)
  {
    if !(b != [] && b[0] == Sep) && !(a == [] || a[|a| - 1] == Sep) {
      assert JoinPath(a, b) == (a + [Sep]) + b;
    }
  }

  /** posixpath.basename: the text after the last separator. */
  function Basename(p: string): (r: string)
    ensures |r| <= |p|
    ensures Sep !in r
  {
    LastSepEndIsLast(p, |p|);
    p[LastSepEnd(p, |p|)..]
  }

  lemma {:induction false} LastSepEndIsLast(p: string, n: nat)
    requires n <= |p|
    ensures Sep !in p[LastSepEnd(p, n)..n]
    ensures LastSepEnd(p, n) > 0 ==> p[LastSepEnd(p, n) - 1] == Sep
    decreases n
  {
    if n > 0 && p[n - 1] != Sep {
      LastSepEndIsLast(p, n - 1);
      assert p[LastSepEnd(p, n)..n] == p[LastSepEnd(p, n)..n - 1] + [p[n - 1]];
    }
  }

  /** The basename is the end of the path, right after its last separator
      when it has one, and holds no separator. */
  lemma BasenameIsLastComponent(p: string)
    ensures Sep !in Basename(p)
    ensures p == p[..|p| - |Basename(p)|] + Basename(p)
    ensures |Basename(p)| < |p| ==> p[|p| - |Basename(p)| - 1] == Sep
  {
    LastSepEndIsLast(p, |p|);
    assert p == p[..LastSepEnd(p, |p|)] + p[LastSepEnd(p, |p|)..];
  }

  /** str.count(os.sep). */
  function CountSep(s: string): (n: nat)
    ensures n <= |s|
  {
    if s == [] then 0
    else
      assert s == [s[0]] + s[1..];
      (if s[0] == Sep then 1 else 0) + CountSep(s[1..])
  }

  lemma {:induction false} CountSepNone(s: string)
    requires Sep !in s
    ensures CountSep(s) == 0
  {
    if s != [] {
      assert s == [s[0]] + s[1..];
      CountSepNone(s[1..]);
    }
  }

  lemma CountSepOne()
    ensures CountSep([Sep]) == 1
  {
    assert [Sep][1..] == [];
  }

  /** Counting separators distributes over concatenation. */
  lemma {:induction false} CountSepAppend(a: string, b: string)
    ensures CountSep(a + b) == CountSep(a) + CountSep(b)
  {
    if a == [] {
      assert a + b == b;
    } else {
      assert (a + b)[1..] == a[1..] + b;
      CountSepAppend(a[1..], b);
    }
  }

  /** pat occurs in s starting at index k. */
  predicate OccursAt(s: string, pat: string, k: int) {
    0 <= k && k + |pat| <= |s| && s[k..k + |pat|] == pat
  }

  /** str.replace(pat, ''): the non-overlapping occurrences of pat, found left
      to right, removed. An empty pat removes nothing, as in Python. */
  function RemoveAll(s: string, pat: string): (r: string)
    ensures |r| <= |s|
    decreases |s|
  {
    if pat == [] || |s| < |pat| then s
    else if s[..|pat|] == pat then RemoveAll(s[|pat|..], pat)
    else [s[0]] + RemoveAll(s[1..], pat)
  }

  lemma {:induction false} RemoveAllAbsent(s: string, pat: string)
    requires pat != []
    requires forall k :: !OccursAt(s, pat, k)
    ensures RemoveAll(s, pat) == s
    decreases |s|
  {
    if |pat| <= |s| {
      assert !OccursAt(s, pat, 0);
      forall k ensures !OccursAt(s[1..], pat, k) {
        if OccursAt(s[1..], pat, k) {
          assert s[1..][k..k + |pat|] == s[k + 1..k + 1 + |pat|];
          assert OccursAt(s, pat, k + 1);
        }
      }
      RemoveAllAbsent(s[1..], pat);
    }
  }

  /** An occurrence at the front is removed, and the scan resumes right
      after it. */
  lemma RemoveAllLeading(pat: string, s: string)
    requires pat != []
    ensures RemoveAll(pat + s, pat) == RemoveAll(s, pat)
  {
    assert (pat + s)[..|pat|] == pat;
    assert (pat + s)[|pat|..] == s;
  }

  /** Where pat occurs, replace(pat, '') makes the text strictly shorter. */
  lemma {:induction false} RemoveAllShortens(s: string, pat: string, k: nat)
    requires pat != [] && OccursAt(s, pat, k)
    ensures |RemoveAll(s, pat)| < |s|
    decreases |s|
  {
    if s[..|pat|] != pat {
      assert k != 0;
      assert s[1..][k - 1..k - 1 + |pat|] == s[k..k + |pat|];
      RemoveAllShortens(s[1..], pat, k - 1);
    }
  }

  /** replace(pat, '') leaves a text unchanged exactly when pat is empty or
      occurs nowhere in it. */
  lemma RemoveAllIdentity(s: string, pat: string)
    ensures RemoveAll(s, pat) == s <==> (pat == [] || forall k :: !OccursAt(s, pat, k))
  {
    if pat != [] {
      if forall k :: !OccursAt(s, pat, k) {
        RemoveAllAbsent(s, pat);
      } else {
        var k :| OccursAt(s, pat, k);
        RemoveAllShortens(s, pat, k);
      }
    }
  }

  /** replace(pat, '') never adds a separator. */
  lemma {:induction false} RemoveAllKeepsCount(s: string, pat: string)
    ensures CountSep(RemoveAll(s, pat)) <= CountSep(s)
    decreases |s|
  {
    if pat != [] && |pat| <= |s| {
      if s[..|pat|] == pat {
        RemoveAllKeepsCount(s[|pat|..], pat);
        assert s == pat + s[|pat|..];
        CountSepAppend(pat, s[|pat|..]);
      } else {
        RemoveAllKeepsCount(s[1..], pat);
        assert s == [s[0]] + s[1..];
        CountSepAppend([s[0]], s[1..]);
        CountSepAppend([s[0]], RemoveAll(s[1..], pat));
      }
    }
  }

  lemma LeadingSeparatorDropped(s: string, pat: string)
    requires pat != [] && pat[0] == Sep && |pat| <= |s| && s[..|pat|] == pat
    ensures CountSep(RemoveAll(s, pat)) < CountSep(s)
  {
    RemoveAllKeepsCount(s[|pat|..], pat);
    assert s == pat + s[|pat|..];
    CountSepAppend(pat, s[|pat|..]);
    assert pat == [Sep] + pat[1..];
    CountSepAppend([Sep], pat[1..]);
    CountSepOne();
  }

  /** Where an absolute pat occurs, replace(pat, '') drops at least one
      separator. */
  lemma {:induction false} RemoveAllDropsSeparator(s: string, pat: string, k: nat)
    requires pat != [] && pat[0] == Sep && OccursAt(s, pat, k)
    ensures CountSep(RemoveAll(s, pat)) < CountSep(s)
    decreases |s|
  {
    if s[..|pat|] == pat {
      LeadingSeparatorDropped(s, pat);
    } else {
      assert k != 0;
      assert s[1..][k - 1..k - 1 + |pat|] == s[k..k + |pat|];
      RemoveAllDropsSeparator(s[1..], pat, k - 1);
      assert s == [s[0]] + s[1..];
      CountSepAppend([s[0]], s[1..]);
      CountSepAppend([s[0]], RemoveAll(s[1..], pat));
    }
  }

  lemma {:induction false} LastSepEndAfterSep(x: string, b: string, k: nat)
    requires x == [] || x[|x| - 1] == Sep
    requires Sep !in b && k <= |b|
    ensures LastSepEnd(x + b, |x| + k) == |x|
  {
    if k > 0 {
      assert (x + b)[|x| + k - 1] == b[k - 1];
      LastSepEndAfterSep(x, b, k - 1);
    } else if x != [] {
      assert (x + b)[|x| - 1] == x[|x| - 1];
    }
  }

  lemma BasenameAfterSep(x: string, b: string)
    requires x == [] || x[|x| - 1] == Sep
    requires Sep !in b
    ensures Basename(x + b) == b
  {
    LastSepEndAfterSep(x, b, |b|);
    assert (x + b)[|x|..] == b;
  }

  /** The basename of a path joined from a directory and a name is the name. */
  lemma BasenameOfJoin(a: string, b: string)
    requires Sep !in b
    ensures Basename(JoinPath(a, b)) == b
  {
    if a == [] || a[|a| - 1] == Sep {
      BasenameAfterSep(a, b);
    } else {
      assert JoinPath(a, b) == (a + [Sep]) + b;
      BasenameAfterSep(a + [Sep], b);
    }
  }

  /** The directory os.walk reports for the components parts below top:
      os.path.join applied one name at a time. */
  function Root(top: string, parts: seq<string>): string {
    if parts == [] then top else JoinPath(Root(top, parts[..|parts| - 1]), parts[|parts| - 1])
  }

  /** os.path.relpath(os.path.join(root, file), top) for a file listed in the
      directory parts below top. */
  function RelPath(parts: seq<string>, file: string): string {
    JoinPath(Root([], parts), file)
  }

  /** "/p1/p2/.../pk": what Root appends to a top. */
  function Below(parts: seq<string>): string {
    if parts == [] then [] else Below(parts[..|parts| - 1]) + [Sep] + parts[|parts| - 1]
  }

  lemma {:induction false} RootIsTopAndBelow(top: string, parts: seq<string>)
    requires IsTop(top) && AllNames(parts)
    ensures Root(top, parts) == top + Below(parts)
    ensures IsTop(Root(top, parts))
  {
    if parts != [] {
      var init, last := parts[..|parts| - 1], parts[|parts| - 1];
      assert AllNames(init) by {
        forall k | 0 <= k < |init| ensures IsName(init[k]) { assert init[k] == parts[k]; }
      }
      RootIsTopAndBelow(top, init);
      assert IsName(last);
      assert last[0] != Sep;
      var dir := Root(top, init);
      assert Root(top, parts) == dir + [Sep] + last;
      assert dir + [Sep] + last == top + (Below(init) + [Sep] + last);
      assert (dir + [Sep] + last)[|dir + [Sep] + last| - 1] == last[|last| - 1];
    }
  }

  lemma {:induction false} RelativeRootIsBelow(parts: seq<string>)
    requires AllNames(parts) && parts != []
    ensures Below(parts) == [Sep] + Root([], parts)
    ensures IsTop(Root([], parts)) && Root([], parts)[0] != Sep
  {
    var init, last := parts[..|parts| - 1], parts[|parts| - 1];
    assert IsName(last);
    assert Below(parts) == Below(init) + [Sep] + last;
    assert Root([], parts) == JoinPath(Root([], init), last);
    if init == [] {
      assert Root([], parts) == last;
    } else {
      assert AllNames(init) by {
        forall k | 0 <= k < |init| ensures IsName(init[k]) { assert init[k] == parts[k]; }
      }
      RelativeRootIsBelow(init);
      var dir := Root([], init);
      assert Root([], parts) == dir + [Sep] + last;
      assert [Sep] + (dir + [Sep] + last) == [Sep] + dir + [Sep] + last;
      assert (dir + [Sep] + last)[0] == dir[0];
      assert (dir + [Sep] + last)[|dir + [Sep] + last| - 1] == last[|last| - 1];
    }
  }

  lemma {:induction false} BelowCounts(parts: seq<string>)
    requires AllNames(parts)
    ensures CountSep(Below(parts)) == |parts|
  {
    if parts != [] {
      var init := parts[..|parts| - 1];
      BelowCounts(init);
      CountSepAppend(Below(init), [Sep]);
      CountSepAppend(Below(init) + [Sep], parts[|parts| - 1]);
      CountSepOne();
      assert IsName(parts[|parts| - 1]);
      CountSepNone(parts[|parts| - 1]);
    }
  }

  /** The relative path of a file is the one that joined back onto the top
      gives the file's path (os.path.relpath's defining property); it has one
      separator per directory between the top and the file, and a file
      directly under the top is named by its bare name. */
  lemma RelPathRejoins(top: string, parts: seq<string>, file: string)
    requires IsTop(top) && AllNames(parts) && IsName(file)
    ensures JoinPath(top, RelPath(parts, file)) == JoinPath(Root(top, parts), file)
    ensures CountSep(RelPath(parts, file)) == |parts|
    ensures parts == [] ==> RelPath(parts, file) == file
  {
    assert file[0] != Sep;
    if parts == [] {
      assert RelPath(parts, file) == file;
      assert Root(top, parts) == top;
      CountSepNone(file);
    } else {
      RelPathBelow(top, parts, file);
      RelativeRootIsBelow(parts);
      BelowCounts(parts);
      RelPathSeparators(Root([], parts), file);
    }
  }

  lemma RelPathBelow(top: string, parts: seq<string>, file: string)
    requires IsTop(top) && AllNames(parts) && IsName(file) && parts != []
    ensures RelPath(parts, file) == Root([], parts) + [Sep] + file
    ensures JoinPath(top, RelPath(parts, file)) == JoinPath(Root(top, parts), file)
  {
    RootIsTopAndBelow(top, parts);
    RelativeRootIsBelow(parts);
    assert Root(top, parts) == top + [Sep] + Root([], parts);
    JoinThroughDirectory(top, Root([], parts), file);
  }

  lemma JoinThroughDirectory(top: string, dir: string, file: string)
    requires IsTop(top) && IsTop(dir) && dir[0] != Sep && file != [] && file[0] != Sep
    ensures JoinPath(dir, file) == dir + [Sep] + file
    ensures JoinPath(top, dir + [Sep] + file) == JoinPath(top + [Sep] + dir, file)
  {
    assert (dir + [Sep] + file)[0] == dir[0];
    assert (top + [Sep] + dir)[|top + [Sep] + dir| - 1] == dir[|dir| - 1];
    assert top + [Sep] + (dir + [Sep] + file) == (top + [Sep] + dir) + [Sep] + file;
  }

  lemma RelPathSeparators(rel: string, file: string)
    requires Sep !in file
    ensures CountSep(rel + [Sep] + file) == CountSep([Sep] + rel)
  {
    CountSepAppend(rel, [Sep]);
    CountSepAppend(rel + [Sep], file);
    CountSepAppend([Sep], rel);
    CountSepOne();
    CountSepNone(file);
  }

  /** The name a directory below top goes by: its last component, or the
      top's basename for the top itself. */
  function DirName(top: string, parts: seq<string>): string {
    if parts == [] then Basename(top) else parts[|parts| - 1]
  }

  lemma BasenameOfRoot(top: string, parts: seq<string>)
    requires AllNames(parts)
    ensures Basename(Root(top, parts)) == DirName(top, parts)
  {
    if parts != [] {
      BasenameOfJoin(Root(top, parts[..|parts| - 1]), parts[|parts| - 1]);
    }
  }
}
