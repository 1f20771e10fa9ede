/** The definition-bolding substitution of the markdown serializer:
    re.sub(r'^(def|class)\s+(\w+)', r'**\1 \2**', content, flags=re.MULTILINE),
    written out as the left-to-right scan that re.sub performs. */
module Highlight {
  import opened Sequences

  /** Python's `\s` on str: the characters str.isspace() accepts. */
  predicate IsSpace(c: char) {
    var n := c as int;
    9 <= n <= 13 || 28 <= n <= 32 || n == 0x85 || n == 0xA0 || n == 0x1680
    || 0x2000 <= n <= 0x200A || n == 0x2028 || n == 0x2029 || n == 0x202F
    || n == 0x205F || n == 0x3000
  }

  /** Python's `\w`, restricted to ASCII letters, digits and underscore. */
  predicate IsWord(c: char) {
    'a' <= c <= 'z' || 'A' <= c <= 'Z' || '0' <= c <= '9' || c == '_'
  }

  predicate AllSpace(s: string) {
    forall i :: 0 <= i < |s| ==> IsSpace(s[i])
  }

  predicate AllWord(s: string) {
    forall i :: 0 <= i < |s| ==> IsWord(s[i])
  }

  /** What a greedy `\s+` consumes at the start of s: the length of the
      longest prefix of whitespace. */
  function SpaceRun(s: string): (n: nat)
    ensures n <= |s|
    ensures forall i :: 0 <= i < n ==> IsSpace(s[i])
    ensures n < |s| ==> !IsSpace(s[n])
  {
    if s != [] && IsSpace(s[0]) then 1 + SpaceRun(s[1..]) else 0
  }

  /** What a greedy `\w+` consumes at the start of s. */
  function WordRun(s: string): (n: nat)
    ensures n <= |s|
    ensures forall i :: 0 <= i < n ==> IsWord(s[i])
    ensures n < |s| ==> !IsWord(s[n])
  {
    if s != [] && IsWord(s[0]) then 1 + WordRun(s[1..]) else 0
  }

  /** A match of `(def|class)\s+(\w+)`: group 1, the length of the whitespace
      run, and group 2. */
  datatype Definition = Definition(keyword: string, gap: nat, name: string)
  {
    /** The number of characters of the content the match consumes. */
    function Length(): nat {
      |keyword| + gap + |name|
    }

    /** The replacement `**\1 \2**`. */
    function Replacement(): string {
      "**" + keyword + " " + name + "**"
    }
  }

  datatype Scan = NoMatch | Match(def: Definition)

  /** s starts with d's keyword, then d.gap whitespace characters (at least
      one), then d's name, which is the whole run of word characters there. */
  ghost predicate Matches(s: string, d: Definition) {
    && d.Length() <= |s|
    && s[..|d.keyword|] == d.keyword
    && 0 < d.gap && AllSpace(s[|d.keyword|..|d.keyword| + d.gap])
    && s[|d.keyword| + d.gap..d.Length()] == d.name
    && d.name != [] && AllWord(d.name)
    && (d.Length() == |s| || !IsWord(s[d.Length()]))
  }

  /** Tries `kw\s+(\w+)` at the start of s. */
  function MatchKeyword(s: string, kw: string): (m: Scan)
    requires kw != []
    ensures m.Match? ==> m.def.keyword == kw && Matches(s, m.def)
    ensures m.Match? ==> s[0] == kw[0] && IsSpace(s[|kw|])
  {
    if |kw| <= |s| && s[..|kw|] == kw then
      var gap := SpaceRun(s[|kw|..]);
      var nameLength := WordRun(s[|kw| + gap..]);
      if 0 < gap && 0 < nameLength then
        KeywordMatches(s, kw, gap, nameLength);
        Match(Definition(kw, gap, s[|kw| + gap..|kw| + gap + nameLength]))
      else NoMatch
    else
      NoMatch
  }

  lemma KeywordMatches(s: string, kw: string, gap: nat, nameLength: nat)
    requires kw != [] && |kw| <= |s| && s[..|kw|] == kw
    requires gap == SpaceRun(s[|kw|..]) && 0 < gap
    requires nameLength == WordRun(s[|kw| + gap..]) && 0 < nameLength
    ensures |kw| + gap + nameLength <= |s|
    ensures Matches(s, Definition(kw, gap, s[|kw| + gap..|kw| + gap + nameLength]))
    ensures s[0] == kw[0] && IsSpace(s[|kw|])
  {
    var afterKeyword, afterGap := s[|kw|..], s[|kw| + gap..];
    var name := s[|kw| + gap..|kw| + gap + nameLength];
    var spaces := s[|kw|..|kw| + gap];
    assert AllSpace(spaces) by {
      forall i | 0 <= i < gap ensures IsSpace(spaces[i]) {
        assert spaces[i] == afterKeyword[i];
      }
    }
    assert AllWord(name) by {
      forall i | 0 <= i < nameLength ensures IsWord(name[i]) {
        assert name[i] == afterGap[i];
      }
    }
    assert |kw| + gap + nameLength < |s| ==> s[|kw| + gap + nameLength] == afterGap[nameLength];
    assert s[|kw|] == afterKeyword[0];
    assert s[0] == s[..|kw|][0];
  }

  /** The pattern tried where `^` holds: the alternative `def` first, then
      `class`. A match is one of the two keywords followed by whitespace and
      an identifier; so an indented line, `define x` or `classy` never
      matches. */
  function MatchDefinition(s: string): (m: Scan)
    ensures m.Match? ==> (m.def.keyword == "def" || m.def.keyword == "class") && Matches(s, m.def)
    ensures m.Match? ==> 0 < m.def.Length() <= |s|
    ensures m.Match? ==> s[0] == m.def.keyword[0] && IsSpace(s[|m.def.keyword|])
  {
    var m := MatchKeyword(s, "def");
    if m.Match? then m else MatchKeyword(s, "class")
  }

  /** re.sub over s, where atLineStart says whether `^` holds at the first
      position of s (the start of the content, or just after a newline).
      The scan resumes after each match, and a match ends with a word
      character, so `^` does not hold right after one. */
  function BoldFrom(s: string, atLineStart: bool): string
    decreases |s|
  {
    if s == [] then []
    else
      var m := if atLineStart then MatchDefinition(s) else NoMatch;
      if m.Match? then m.def.Replacement() + BoldFrom(s[m.def.Length()..], false)
      else [s[0]] + BoldFrom(s[1..], s[0] == '\n')
  }

  /** Line 46: the content with every definition at a line start bolded. */
  function Bold(content: string): string {
    BoldFrom(content, true)
  }

  /** `^` in MULTILINE mode holds at position i of s. */
  predicate LineStart(s: string, i: nat)
    requires i <= |s|
  {
    i == 0 || s[i - 1] == '\n'
  }

  /** No line of s begins with a definition. */
  ghost predicate HasNoDefinitionLine(s: string) {
    forall i :: 0 <= i < |s| && LineStart(s, i) ==> MatchDefinition(s[i..]).NoMatch?
  }

  /** The scan's view of "no definition line": none at the first position
      when `^` holds there, none after any newline. */
  ghost predicate Quiet(s: string, atLineStart: bool) {
    && (atLineStart && s != [] ==> MatchDefinition(s).NoMatch?)
    && forall i :: 1 <= i < |s| && s[i - 1] == '\n' ==> MatchDefinition(s[i..]).NoMatch?
  }

  lemma {:induction false} BoldFromIdentity(s: string, atLineStart: bool)
    ensures BoldFrom(s, atLineStart) == s <==> Quiet(s, atLineStart)
    decreases |s|
  {
    if s != [] {
      var m := if atLineStart then MatchDefinition(s) else NoMatch;
      if m.Match? {
        MatchChanges(s);
      } else {
        var rest, next := s[1..], s[0] == '\n';
        BoldFromIdentity(rest, next);
        QuietStep(s, atLineStart);
        CopyStep(s, atLineStart);
        ConsEqual(s[0], BoldFrom(rest, next), rest);
      }
    }
  }

  /** A definition at the start is rewritten: the output starts with `*`. */
  lemma MatchChanges(s: string)
    requires s != [] && MatchDefinition(s).Match?
    ensures BoldFrom(s, true) != s
  {
    var m := MatchDefinition(s);
    assert BoldFrom(s, true)[0] == '*';
    assert s[0] == m.def.keyword[0];
  }

  /** Without a definition at the start, the scan copies one character. */
  lemma CopyStep(s: string, atLineStart: bool)
    requires s != [] && (atLineStart ==> MatchDefinition(s).NoMatch?)
    ensures BoldFrom(s, atLineStart) == [s[0]] + BoldFrom(s[1..], s[0] == '\n')
    ensures s == [s[0]] + s[1..]
  {
  }

  lemma ConsEqual(c: char, x: string, y: string)
    ensures [c] + x == [c] + y <==> x == y
  {
    if [c] + x == [c] + y {
      assert x == ([c] + x)[1..];
    }
  }

  /** Where no definition starts the scan, quietness carries over to the
      rest after the first character. */
  lemma QuietStep(s: string, atLineStart: bool)
    requires s != [] && (atLineStart ==> MatchDefinition(s).NoMatch?)
    ensures Quiet(s, atLineStart) <==> Quiet(s[1..], s[0] == '\n')
  {
    var rest := s[1..];
    if Quiet(rest, s[0] == '\n') {
      forall i | 1 <= i < |s| && s[i - 1] == '\n' ensures MatchDefinition(s[i..]).NoMatch? {
        assert s[i..] == rest[i - 1..];
        if i > 1 {
          assert rest[i - 2] == s[i - 1];
        }
      }
    }
    if Quiet(s, atLineStart) {
      forall i | 1 <= i < |rest| && rest[i - 1] == '\n' ensures MatchDefinition(rest[i..]).NoMatch? {
        assert rest[i..] == s[i + 1..];
        assert s[i] == rest[i - 1];
      }
      if s[0] == '\n' && rest != [] {
        assert s[1..] == rest;
      }
    }
  }

  /** The substitution leaves the content exactly as it was if and only if no
      line of it begins with a definition. */
  lemma BoldIdentity(content: string)
    ensures Bold(content) == content <==> HasNoDefinitionLine(content)
  {
    BoldFromIdentity(content, true);
    if content != [] {
      assert content[0..] == content;
      assert LineStart(content, 0);
    }
    forall i | 1 <= i < |content| ensures LineStart(content, i) == (content[i - 1] == '\n') { }
  }

  /** Inside a line (after its start) the scan copies characters up to and
      including the newline that ends it. */
  lemma {:induction false} BoldRestOfLine(line: string, more: string)
    requires '\n' !in line
    ensures BoldFrom(line + more, false) == line + BoldFrom(more, false)
    decreases |line|
  {
    if line != [] {
      var c, cs := line[0], line[1..];
      assert c in line;
      assert line + more == [c] + (cs + more);
      assert '\n' !in cs by {
        assert forall x :: x in cs ==> x in line;
      }
      BoldRestOfLine(cs, more);
      calc {
        BoldFrom(line + more, false);
        [c] + BoldFrom(cs + more, false);
        [c] + (cs + BoldFrom(more, false));
        { assert [c] + (cs + BoldFrom(more, false)) == ([c] + cs) + BoldFrom(more, false);
          assert [c] + cs == line; }
        line + BoldFrom(more, false);
      }
    } else {
      assert line + more == more;
    }
  }

  /** A line `kw ws name tail` at a line start, where ws is one or more
      whitespace characters (newlines included) and name is the identifier,
      becomes `**kw name**tail`: the whitespace collapses to one space and the
      rest of the line is unchanged; the following lines are scanned afresh. */
  lemma BoldDefinitionLine(kw: string, ws: string, name: string, tail: string, rest: string)
    requires kw == "def" || kw == "class"
    requires ws != [] && AllSpace(ws)
    requires name != [] && AllWord(name)
    requires '\n' !in tail && (tail == [] || !IsWord(tail[0]))
    requires rest == [] || rest[0] == '\n'
    ensures Bold(kw + ws + name + tail + rest)
         == "**" + kw + " " + name + "**" + tail + (if rest == [] then [] else "\n" + Bold(rest[1..]))
  {
    var head := "**" + kw + " " + name + "**";
    var next := if rest == [] then [] else "\n" + Bold(rest[1..]);
    Associative(kw + ws + name, tail, rest);
    BoldMatchAtStart(kw, ws, name, tail + rest);
    BoldRestOfLine(tail, rest);
    RestAfterNewline(rest);
    Associative(head, tail, next);
  }

  lemma BoldMatchAtStart(kw: string, ws: string, name: string, after: string)
    requires kw == "def" || kw == "class"
    requires ws != [] && AllSpace(ws)
    requires name != [] && AllWord(name)
    requires after == [] || !IsWord(after[0])
    ensures Bold(kw + ws + name + after) == "**" + kw + " " + name + "**" + BoldFrom(after, false)
  {
    var s := kw + ws + name + after;
    MatchDefinitionComplete(kw, ws, name, after);
    assert s[|kw| + |ws| + |name|..] == after;
  }

  /** A line that does not begin a definition is copied as it is, and the
      following lines are scanned afresh. */
  lemma BoldPlainLine(line: string, rest: string)
    requires '\n' !in line
    requires rest == [] || rest[0] == '\n'
    requires MatchDefinition(line + rest).NoMatch?
    ensures Bold(line + rest) == line + (if rest == [] then [] else "\n" + Bold(rest[1..]))
  {
    RestAfterNewline(rest);
    if line == [] {
      assert line + rest == rest;
    } else {
      CopyLine(line, rest);
    }
  }

  lemma CopyLine(line: string, rest: string)
    requires line != [] && '\n' !in line
    requires MatchDefinition(line + rest).NoMatch?
    ensures Bold(line + rest) == line + BoldFrom(rest, false)
  {
    var s := line + rest;
    var c, cs := line[0], line[1..];
    assert c != '\n' by { assert c in line; }
    assert '\n' !in cs by { assert forall x :: x in cs ==> x in line; }
    CopyStep(s, true);
    assert s[0] == c && s[1..] == cs + rest;
    BoldRestOfLine(cs, rest);
    calc {
      Bold(s);
      [c] + BoldFrom(cs + rest, false);
      [c] + (cs + BoldFrom(rest, false));
      { Associative([c], cs, BoldFrom(rest, false)); assert [c] + cs == line; }
      line + BoldFrom(rest, false);
    }
  }

  lemma RestAfterNewline(rest: string)
    requires rest == [] || rest[0] == '\n'
    ensures BoldFrom(rest, false) == if rest == [] then [] else "\n" + Bold(rest[1..])
  { }

  /** Every `kw ws name` followed by a non-word character (or the end) is
      matched, with the whole whitespace run as the gap. */
  lemma MatchDefinitionComplete(kw: string, ws: string, name: string, rest: string)
    requires kw == "def" || kw == "class"
    requires ws != [] && AllSpace(ws)
    requires name != [] && AllWord(name)
    requires rest == [] || !IsWord(rest[0])
    ensures MatchDefinition(kw + ws + name + rest) == Match(Definition(kw, |ws|, name))
  {
    var s := kw + ws + name + rest;
    MatchKeywordComplete(s, kw, ws, name, rest);
    if kw == "class" {
      assert s[..3] == "cla";
    }
  }

  lemma MatchKeywordComplete(s: string, kw: string, ws: string, name: string, rest: string)
    requires s == kw + ws + name + rest
    requires ws != [] && AllSpace(ws)
    requires name != [] && AllWord(name)
    requires rest == [] || !IsWord(rest[0])
    requires kw != []
    ensures MatchKeyword(s, kw) == Match(Definition(kw, |ws|, name))
  {
    Pieces(s, kw, ws, name, rest);
    Runs(ws, name, rest);
    assert SpaceRun(s[|kw|..]) == |ws|;
    assert WordRun(s[|kw| + |ws|..]) == |name|;
    MatchKeywordFound(s, kw, |ws|, |name|);
  }

  lemma Pieces(s: string, kw: string, ws: string, name: string, rest: string)
    requires s == kw + ws + name + rest
    ensures s[..|kw|] == kw && s[|kw|..] == ws + (name + rest)
    ensures s[|kw| + |ws|..] == name + rest
    ensures s[|kw| + |ws|..|kw| + |ws| + |name|] == name
  {
    var tail := name + rest;
    assert s == kw + (ws + tail);
    assert s[|kw|..] == ws + tail;
    assert s[|kw| + |ws|..] == (ws + tail)[|ws|..] == tail;
    assert tail[..|name|] == name;
  }

  lemma Runs(ws: string, name: string, rest: string)
    requires ws != [] && AllSpace(ws)
    requires name != [] && AllWord(name)
    requires rest == [] || !IsWord(rest[0])
    ensures SpaceRun(ws + (name + rest)) == |ws|
    ensures WordRun(name + rest) == |name|
  {
    var tail := name + rest;
    assert (ws + tail)[|ws|] == name[0] && !IsSpace(name[0]);
    SpaceRunIs(ws + tail, |ws|);
    assert |name| < |tail| ==> tail[|name|] == rest[0];
    WordRunIs(tail, |name|);
  }

  /** The match MatchKeyword reports when both runs are non-empty. */
  lemma MatchKeywordFound(s: string, kw: string, gap: nat, nameLength: nat)
    requires kw != [] && |kw| <= |s| && s[..|kw|] == kw
    requires gap == SpaceRun(s[|kw|..]) && 0 < gap
    requires nameLength == WordRun(s[|kw| + gap..]) && 0 < nameLength
    ensures |kw| + gap + nameLength <= |s|
    ensures MatchKeyword(s, kw) == Match(Definition(kw, gap, s[|kw| + gap..|kw| + gap + nameLength]))
  {
  }

  /** A run's length is the first position outside its class. */
  lemma SpaceRunIs(s: string, k: nat)
    requires k <= |s|
    requires forall i :: 0 <= i < k ==> IsSpace(s[i])
    requires k < |s| ==> !IsSpace(s[k])
    ensures SpaceRun(s) == k
  {
  }

  lemma WordRunIs(s: string, k: nat)
    requires k <= |s|
    requires forall i :: 0 <= i < k ==> IsWord(s[i])
    requires k < |s| ==> !IsWord(s[k])
    ensures WordRun(s) == k
  {
  }

  /** Any whitespace between keyword and name, newlines included, collapses
      to one space. */
  lemma WhitespaceRunCollapses(ws: string)
    requires ws != [] && AllSpace(ws)
    ensures Bold("def" + ws + "foo(): pass") == "**def foo**(): pass"
  {
    var kw, name, tail := "def", "foo", "(): pass";
    assert "def" + ws + "foo(): pass" == kw + ws + name + tail + [] by {
      assert "foo(): pass" == name + tail;
    }
    assert "**" + kw + " " + name + "**" + tail == "**def foo**(): pass" by { }
    BoldDefinitionLine(kw, ws, name, tail, []);
  }

  /** A keyword must be followed by whitespace: a line such as `define x` or
      `classy = 1` is copied unchanged. */
  lemma KeywordNeedsWhitespace(kw: string, tail: string, rest: string)
    requires kw == "def" || kw == "class"
    requires tail != [] && !IsSpace(tail[0]) && '\n' !in tail
    requires rest == [] || rest[0] == '\n'
    ensures Bold(kw + tail + rest) == kw + tail + (if rest == [] then [] else "\n" + Bold(rest[1..]))
  {
    var s := kw + tail + rest;
    assert s[0] == kw[0] && s[|kw|] == tail[0];
    assert s == (kw + tail) + rest;
    BoldPlainLine(kw + tail, rest);
  }
}
