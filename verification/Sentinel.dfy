/**
 The managed block in a user's CLAUDE.md (claude-plugin/scripts/adopt.js): how it is
 found, removed with its seam healed, written, and how it comes and goes over any
 sequence of `adopt` and `unadopt`.

 The file's line terminator is '\n'.  Each regular expression of the source is
 line-anchored; it is stated here as a predicate of one line.
 */
module Sentinel {
  import opened Options
  import opened Text

  const BEGIN_PREFIX: string := "<!-- code-graph-mcp:begin"
  const BEGIN: string := "<!-- code-graph-mcp:begin v2 -->"
  const END: string := "<!-- code-graph-mcp:end -->"

  // ---------- Marker lines ----------

  predicate IsBlankChar(c: char) {
    c == ' ' || c == '\t'
  }

  predicate AllBlank(s: string) {
    forall i :: 0 <= i < |s| ==> IsBlankChar(s[i])
  }

  function DropBlanks(s: string): string {
    if s != [] && IsBlankChar(s[0]) then DropBlanks(s[1..]) else s
  }

  function IndexOf(s: string, c: char): (i: nat)
    ensures i <= |s| && c !in s[..i] && (i < |s| ==> s[i] == c)
  {
    if s == [] || s[0] == c then 0 else
      var i := 1 + IndexOf(s[1..], c);
      assert s[..i] == [s[0]] + s[1..][..i - 1];
      i
  }

  /** The length of the BEGIN marker at the head of `s`; 0 when there is none. */
  function BeginMarkerLength(s: string): (n: nat)
    ensures n <= |s|
  {
    if BEGIN_PREFIX <= s then
      var tail := s[|BEGIN_PREFIX|..];
      var j := IndexOf(tail, '>');
      if 2 <= j < |tail| && tail[j - 2..j] == "--" then |BEGIN_PREFIX| + j + 1 else 0
    else 0
  }

  predicate IsBegin(line: string) {
    var s := DropBlanks(line);
    BeginMarkerLength(s) > 0 && AllBlank(s[BeginMarkerLength(s)..])
  }

  predicate IsEnd(line: string) {
    var s := DropBlanks(line);
    END <= s && AllBlank(s[|END|..])
  }

  /** A BEGIN marker occurs somewhere in the line. */
  predicate HasBegin(line: string) {
    exists i :: 0 <= i < |line| && BeginMarkerLength(line[i..]) > 0
  }

  // ---------- Where the three patterns match ----------

  datatype Pattern = WellFormed | OrphanBegin | OrphanEnd

  /** From the line start `p`: the end of the first END line, unless a BEGIN marker
      stands on a line before it. */
  function ScanEnd(t: string, p: nat): (r: Option<nat>)
    requires p <= |t|
    ensures r.Some? ==> p < r.value <= |t| && (r.value < |t| ==> t[r.value] == '\n')
    decreases |t| - p
  {
    var e := LineEnd(t, p);
    if IsEnd(t[p..e]) then Some(e)
    else if HasBegin(t[p..e]) || e == |t| then None
    else ScanEnd(t, e + 1)
  }

  /** A match starting with the line at `p`: where it ends, before the optional newline. */
  function MatchAt(t: string, p: nat, pattern: Pattern): (r: Option<nat>)
    requires p <= |t|
    ensures r.Some? ==> p < r.value <= |t| && (r.value < |t| ==> t[r.value] == '\n')
  {
    var e := LineEnd(t, p);
    match pattern
    case WellFormed => if IsBegin(t[p..e]) && e < |t| then ScanEnd(t, e + 1) else None
    case OrphanBegin => if IsBegin(t[p..e]) then Some(e) else None
    case OrphanEnd => if IsEnd(t[p..e]) then Some(e) else None
  }

  datatype Span = Span(start: nat, end: nat)

  /** The leftmost match at or after the line start `p`. */
  function NextMatch(t: string, p: nat, pattern: Pattern): (r: Option<Span>)
    requires p <= |t|
    ensures r.Some? ==> p <= r.value.start < r.value.end <= |t|
    decreases |t| - p
  {
    var m := MatchAt(t, p, pattern);
    if m.Some? then Some(Span(p, if m.value < |t| then m.value + 1 else m.value))
    else
      var e := LineEnd(t, p);
      if e < |t| then NextMatch(t, e + 1, pattern) else None
  }

  // ---------- Removal ----------

  /** Two pieces put together; a run of more than two newlines at the seam becomes two. */
  function Glue(before: string, after: string): string {
    if TrailingNewlines(before) + LeadingNewlines(after) > 2
    then TrimEnd(before) + "\n\n" + after[LeadingNewlines(after)..]
    else before + after
  }

  /** Remove every match from `cursor` on, gluing what lies on the two sides. */
  function Heal(out: string, t: string, cursor: nat, pattern: Pattern): string
    requires cursor <= |t|
    decreases |t| - cursor
  {
    match NextMatch(t, cursor, pattern)
    case None => out + t[cursor..]
    case Some(m) =>
      var kept := out + t[cursor..m.start];
      var after := LeadingNewlines(t[m.end..]);
      if TrailingNewlines(kept) + after > 2
      then Heal(TrimEnd(kept) + "\n\n", t, m.end + after, pattern)
      else Heal(kept, t, m.end, pattern)
  }

  lemma HealStep(out: string, t: string, cursor: nat, pattern: Pattern)
    requires cursor <= |t| && NextMatch(t, cursor, pattern).Some?
    ensures var m := NextMatch(t, cursor, pattern).value;
      var kept := out + t[cursor..m.start];
      var after := LeadingNewlines(t[m.end..]);
      Heal(out, t, cursor, pattern) ==
        if TrailingNewlines(kept) + after > 2
        then Heal(TrimEnd(kept) + "\n\n", t, m.end + after, pattern)
        else Heal(kept, t, m.end, pattern)
  {
    hide NextMatch, LeadingNewlines, TrailingNewlines, TrimEnd;
  }

  method StripAndHealSeams(t: string, pattern: Pattern) returns (r: string)
    ensures r == Heal("", t, 0, pattern)
  {
    hide Heal, NextMatch, LeadingNewlines, TrailingNewlines;
    var out := "";
    var cursor: nat := 0;
    var m := NextMatch(t, cursor, pattern);
    while m.Some?
      invariant cursor <= |t| && m == NextMatch(t, cursor, pattern)
      invariant Heal(out, t, cursor, pattern) == Heal("", t, 0, pattern)
      decreases |t| - cursor
    {
      HealStep(out, t, cursor, pattern);
      out := out + t[cursor..m.value.start];
      cursor := m.value.end;
      var before := TrailingNewlines(out);
      var after := LeadingNewlines(t[cursor..]);
      if before + after > 2 {
        out := out[..|out| - before] + "\n\n";
        cursor := cursor + after;
      }
      m := NextMatch(t, cursor, pattern);
    }
    HealEnd(out, t, cursor, pattern);
    r := out + t[cursor..];
  }

  lemma HealEnd(out: string, t: string, cursor: nat, pattern: Pattern)
    requires cursor <= |t| && NextMatch(t, cursor, pattern).None?
    ensures Heal(out, t, cursor, pattern) == out + t[cursor..]
  {
    hide NextMatch;
  }

  function Strip(t: string): string {
    Heal("", Heal("", Heal("", t, 0, WellFormed), 0, OrphanBegin), 0, OrphanEnd)
  }

  method StripSentinelBlock(t: string) returns (out: string)
    ensures out == Strip(t)
  {
    out := StripAndHealSeams(t, WellFormed);
    out := StripAndHealSeams(out, OrphanBegin);
    if Contains(out, END) {
      out := StripAndHealSeams(out, OrphanEnd);
    } else {
      NoEndNoMatch(out, 0);
    }
  }

  lemma {:induction false} DropBlanksSuffix(s: string) returns (k: nat)
    ensures k <= |s| && DropBlanks(s) == s[k..] && AllBlank(s[..k])
    ensures k < |s| ==> !IsBlankChar(s[k])
  {
    k := 0;
    if s != [] && IsBlankChar(s[0]) {
      k := DropBlanksSuffix(s[1..]);
      k := k + 1;
    }
  }

  lemma ContainsAt(t: string, p: nat, e: nat, k: nat, s: string)
    requires p <= e <= |t| && k <= e - p && s <= t[p..e][k..]
    ensures Contains(t, s)
  {
    assert t[p..e][k..] == t[p + k..e];
    assert OccursAt(t, s, p + k);
  }

  /** The guard before the third pass only skips work: no END text, no END line. */
  lemma {:induction false} NoEndNoMatch(t: string, p: nat)
    requires p <= |t| && !Contains(t, END)
    ensures NextMatch(t, p, OrphanEnd) == None
    decreases |t| - p
  {
    var e := LineEnd(t, p);
    var k := DropBlanksSuffix(t[p..e]);
    if END <= t[p..e][k..] {
      ContainsAt(t, p, e, k, END);
    }
    if e < |t| {
      NoEndNoMatch(t, e + 1);
    }
  }

  // ---------- The same removals on the non-empty lines alone ----------

  /** What follows the first END line, unless a line with a BEGIN marker precedes it. */
  function AfterEnd(ls: seq<string>): (r: Option<seq<string>>)
    ensures r.Some? ==> |r.value| < |ls|
  {
    if ls == [] then None
    else if IsEnd(ls[0]) then Some(ls[1..])
    else if HasBegin(ls[0]) then None
    else AfterEnd(ls[1..])
  }

  /** Lines left when every BEGIN ... END block without a BEGIN inside is taken out. */
  function WithoutBlocks(ls: seq<string>): seq<string>
    decreases |ls|
  {
    if ls == [] then []
    else if IsBegin(ls[0]) && AfterEnd(ls[1..]).Some? then WithoutBlocks(AfterEnd(ls[1..]).value)
    else [ls[0]] + WithoutBlocks(ls[1..])
  }

  function WithoutBegins(ls: seq<string>): seq<string> {
    if ls == [] then []
    else if IsBegin(ls[0]) then WithoutBegins(ls[1..])
    else [ls[0]] + WithoutBegins(ls[1..])
  }

  function WithoutEnds(ls: seq<string>): seq<string> {
    if ls == [] then []
    else if IsEnd(ls[0]) then WithoutEnds(ls[1..])
    else [ls[0]] + WithoutEnds(ls[1..])
  }

  function Without(pattern: Pattern, ls: seq<string>): seq<string> {
    match pattern
    case WellFormed => WithoutBlocks(ls)
    case OrphanBegin => WithoutBegins(ls)
    case OrphanEnd => WithoutEnds(ls)
  }

  lemma MarkersNotEmpty()
    ensures !IsBegin("") && !IsEnd("") && !HasBegin("")
  {
  }

  /** Content from a line start on: that line, if not empty, then the rest. */
  lemma ContentAt(t: string, p: nat)
    requires p <= |t|
    ensures var e := LineEnd(t, p);
      var rest := if e < |t| then Content(t[e + 1..]) else [];
      Content(t[p..]) == if e == p then rest else [t[p..e]] + rest
  {
    LinesAt(t, p);
    var e := LineEnd(t, p);
    NonEmptyConcat([t[p..e]], if e < |t| then Lines(t[e + 1..]) else []);
    assert NonEmpty([t[p..e]]) == if e == p then [] else [t[p..e]];
  }

  lemma ContentSkipsNewline(t: string, e: nat)
    requires e < |t| && t[e] == '\n'
    ensures Content(t[e..]) == Content(t[e + 1..])
  {
    assert t[e..][1..] == t[e + 1..];
  }

  lemma ScanEndStep(t: string, p: nat)
    requires p <= |t|
    ensures var e := LineEnd(t, p);
      && p <= e <= |t| && (e < |t| ==> t[e] == '\n')
      && ScanEnd(t, p) ==
           if IsEnd(t[p..e]) then Some(e)
           else if HasBegin(t[p..e]) || e == |t| then None
           else ScanEnd(t, e + 1)
  {
    hide IsEnd, HasBegin, LineEnd;
  }

  lemma AfterEndStep(line: string, rest: seq<string>)
    ensures AfterEnd([line] + rest) ==
      if IsEnd(line) then Some(rest) else if HasBegin(line) then None else AfterEnd(rest)
  {
    hide IsEnd, HasBegin;
    assert ([line] + rest)[1..] == rest;
  }

  lemma {:induction false} ScanEndOnContent(t: string, p: nat)
    requires p <= |t|
    ensures var r := ScanEnd(t, p);
      AfterEnd(Content(t[p..])) == if r.Some? then Some(Content(t[r.value..])) else None
    decreases |t| - p
  {
    hide *;
    var e := LineEnd(t, p);
    ScanEndStep(t, p);
    ContentAt(t, p);
    RestAfterLine(t, e);
    if e == p {
      MarkersNotEmpty();
      assert t[p..p] == "";
    }
    if e == |t| {
      AfterEndOfNothing();
    } else {
      ScanEndOnContent(t, e + 1);
    }
    AfterEndStep(t[p..e], if e < |t| then Content(t[e + 1..]) else []);
  }

  lemma RestAfterLine(t: string, e: nat)
    requires e <= |t| && (e < |t| ==> t[e] == '\n')
    ensures Content(t[e..]) == if e < |t| then Content(t[e + 1..]) else []
  {
    if e < |t| {
      ContentSkipsNewline(t, e);
    } else {
      assert t[e..] == [];
      EmptyContent();
    }
  }

  lemma WithoutLine(pattern: Pattern, line: string, rest: seq<string>)
    ensures Without(pattern, [line] + rest) ==
      match pattern
      case WellFormed =>
        if IsBegin(line) && AfterEnd(rest).Some? then WithoutBlocks(AfterEnd(rest).value)
        else [line] + WithoutBlocks(rest)
      case OrphanBegin => if IsBegin(line) then WithoutBegins(rest) else [line] + WithoutBegins(rest)
      case OrphanEnd => if IsEnd(line) then WithoutEnds(rest) else [line] + WithoutEnds(rest)
    ensures Without(pattern, []) == []
  {
    hide IsBegin, IsEnd, AfterEnd;
    assert ([line] + rest)[1..] == rest;
  }

  /** A match removes from the content what the line view removes. */
  lemma MatchOnContent(t: string, p: nat, pattern: Pattern)
    requires p <= |t|
    ensures var m := MatchAt(t, p, pattern);
      var e := LineEnd(t, p);
      Without(pattern, Content(t[p..])) ==
        if m.Some? then Without(pattern, Content(t[m.value..]))
        else (if e == p then [] else [t[p..e]]) + (if e < |t| then Without(pattern, Content(t[e + 1..])) else [])
  {
    hide IsBegin, IsEnd, HasBegin, Content, AfterEnd, WithoutBlocks, WithoutBegins, WithoutEnds, ScanEnd, MatchAt,
        LineEnd;
    var e := LineEnd(t, p);
    MatchAtCases(t, p, pattern);
    MarkersNotEmpty();
    ContentAt(t, p);
    var rest := if e < |t| then Content(t[e + 1..]) else [];
    WithoutLine(pattern, t[p..e], rest);
    assert e == p ==> t[p..e] == "";
    assert [] + Without(pattern, rest) == Without(pattern, rest);
    RestAfterLine(t, e);
    if e < |t| {
      ScanEndOnContent(t, e + 1);
    } else {
      AfterEndOfNothing();
    }
  }

  lemma MatchAtCases(t: string, p: nat, pattern: Pattern)
    requires p <= |t|
    ensures var e := LineEnd(t, p);
      && p <= e <= |t| && (e < |t| ==> t[e] == '\n')
      && MatchAt(t, p, pattern) ==
           match pattern
           case WellFormed => if IsBegin(t[p..e]) && e < |t| then ScanEnd(t, e + 1) else None
           case OrphanBegin => if IsBegin(t[p..e]) then Some(e) else None
           case OrphanEnd => if IsEnd(t[p..e]) then Some(e) else None
  {
    hide IsBegin, IsEnd, ScanEnd;
  }

  lemma AfterEndOfNothing()
    ensures AfterEnd([]) == None
  {
  }

  predicate LineStart(t: string, p: nat) {
    p <= |t| && (p == 0 || t[p - 1] == '\n')
  }

  lemma NextMatchStarts(t: string, p: nat, pattern: Pattern)
    requires LineStart(t, p)
    ensures var m := NextMatch(t, p, pattern);
      m.Some? ==> LineStart(t, m.value.start) && (m.value.end == |t| || LineStart(t, m.value.end))
    decreases |t| - p
  {
    hide MatchAt;
    var e := LineEnd(t, p);
    if MatchAt(t, p, pattern).None? && e < |t| {
      NextMatchStarts(t, e + 1, pattern);
    }
  }

  lemma NextMatchStep(t: string, p: nat, pattern: Pattern)
    requires p <= |t|
    ensures var at := MatchAt(t, p, pattern);
      var e := LineEnd(t, p);
      && p <= e <= |t|
      && NextMatch(t, p, pattern) ==
           (if at.Some? then Some(Span(p, if at.value < |t| then at.value + 1 else at.value))
            else if e < |t| then NextMatch(t, e + 1, pattern) else None)
      && (at.Some? ==> p < at.value <= |t| && (at.value < |t| ==> t[at.value] == '\n'))
      && (e < |t| ==> var m := NextMatch(t, e + 1, pattern); m.Some? ==> e < m.value.start < m.value.end <= |t|)
  {
    hide MatchAt, LineEnd;
  }

  /** Up to the next match everything is kept; the match itself is taken out. */
  lemma {:induction false} NextMatchOnContent(t: string, p: nat, pattern: Pattern)
    requires p <= |t|
    ensures var m := NextMatch(t, p, pattern);
      Without(pattern, Content(t[p..])) ==
        if m.Some? then Content(t[p..m.value.start]) + Without(pattern, Content(t[m.value.end..]))
        else Content(t[p..])
    decreases |t| - p
  {
    hide *;
    NextMatchStep(t, p, pattern);
    var e := LineEnd(t, p);
    var at := MatchAt(t, p, pattern);
    MatchOnContent(t, p, pattern);
    ContentAt(t, p);
    EmptyContent();
    if at.Some? {
      assert t[p..p] == "";
      RestAfterLine(t, at.value);
      assert at.value == |t| ==> t[at.value..] == "";
    } else if e < |t| {
      NextMatchOnContent(t, e + 1, pattern);
      var m := NextMatch(t, e + 1, pattern);
      if m.Some? {
        ContentOfHead(t, p, m.value.start);
      }
    }
  }

  lemma EmptyContent()
    ensures Content("") == []
  {
  }

  lemma ContentOfHead(t: string, p: nat, q: nat)
    requires p <= |t| && LineEnd(t, p) < q <= |t|
    ensures var e := LineEnd(t, p);
      Content(t[p..q]) == (if e == p then [] else [t[p..e]]) + Content(t[e + 1..q])
  {
    var e := LineEnd(t, p);
    assert t[p..q] == t[p..e] + "\n" + t[e + 1..q];
    LinesOfConcat(t[p..e], t[e + 1..q]);
    LinesOfLine(t[p..e]);
  }

  ghost predicate AtLineStart(out: string) {
    out == [] || out[|out| - 1] == '\n'
  }

  /** One pass removes exactly what its pattern names, and keeps every other
      non-empty line, in order. */
  lemma {:induction false} HealOnContent(out: string, t: string, cursor: nat, pattern: Pattern)
    requires cursor <= |t| && (cursor == |t| || LineStart(t, cursor))
    requires AtLineStart(out)
    ensures Content(Heal(out, t, cursor, pattern)) == Content(out) + Without(pattern, Content(t[cursor..]))
    decreases |t| - cursor
  {
    hide *;
    NextMatchOnContent(t, cursor, pattern);
    if NextMatch(t, cursor, pattern).None? {
      HealEnd(out, t, cursor, pattern);
      OutAtLineStart(out);
      ContentOfConcat(out, t[cursor..]);
    } else {
      var m := NextMatch(t, cursor, pattern).value;
      HealStep(out, t, cursor, pattern);
      ContentUpTo(out, t, cursor, pattern);
      var kept := out + t[cursor..m.start];
      var after := LeadingNewlines(t[m.end..]);
      SeamOnContent(kept, t, m.end);
      AfterNewlines(t, m.end, after);
      if TrailingNewlines(kept) + after > 2 {
        HealOnContent(TrimEnd(kept) + "\n\n", t, m.end + after, pattern);
      } else {
        HealOnContent(kept, t, m.end, pattern);
      }
    }
  }

  /** One removal: what was copied so far, and where the copy stands. */
  lemma ContentUpTo(out: string, t: string, cursor: nat, pattern: Pattern)
    requires cursor <= |t| && (cursor == |t| || LineStart(t, cursor))
    requires AtLineStart(out) && NextMatch(t, cursor, pattern).Some?
    ensures var m := NextMatch(t, cursor, pattern).value;
      && AtLineStart(out + t[cursor..m.start])
      && (m.end == |t| || LineStart(t, m.end))
      && Content(out) + Without(pattern, Content(t[cursor..]))
         == Content(out + t[cursor..m.start]) + Without(pattern, Content(t[m.end..]))
  {
    hide *;
    if cursor == |t| {
      EndOfText(t, pattern);
    }
    var m := NextMatch(t, cursor, pattern).value;
    NextMatchOnContent(t, cursor, pattern);
    NextMatchStarts(t, cursor, pattern);
    OutAtLineStart(out);
    ContentOfConcat(out, t[cursor..m.start]);
    AssociateLines(Content(out), Content(t[cursor..m.start]), Without(pattern, Content(t[m.end..])));
    KeptAtLineStart(out, t, cursor, m.start);
  }

  lemma AssociateLines(a: seq<string>, b: seq<string>, c: seq<string>)
    ensures a + (b + c) == a + b + c
  {
  }

  lemma OutAtLineStart(out: string)
    requires AtLineStart(out)
    ensures out == [] || out[|out| - 1] == '\n'
  {
  }

  /** Healing a seam moves no content. */
  lemma SeamOnContent(kept: string, t: string, p: nat)
    requires p <= |t|
    ensures var after := LeadingNewlines(t[p..]);
      && Content(TrimEnd(kept) + "\n\n") == Content(kept)
      && Content(t[p + after..]) == Content(t[p..])
      && AtLineStart(TrimEnd(kept) + "\n\n")
  {
    hide Content, TrailingNewlines, LeadingNewlines;
    var after := LeadingNewlines(t[p..]);
    ContentOfTrimEnd(kept, "\n\n");
    ContentOfDropped(t[p..], after);
    assert t[p..][after..] == t[p + after..];
  }

  lemma EndOfText(t: string, pattern: Pattern)
    ensures NextMatch(t, |t|, pattern) == None
    ensures Without(pattern, Content(t[|t|..])) == [] == Content(t[|t|..])
  {
    MarkersNotEmpty();
    assert t[|t|..] == [];
  }

  lemma KeptAtLineStart(out: string, t: string, p: nat, q: nat)
    requires AtLineStart(out) && p <= q && LineStart(t, q)
    ensures AtLineStart(out + t[p..q])
  {
    if p < q {
      assert (out + t[p..q])[|out| + q - p - 1] == t[q - 1];
    } else {
      assert out + t[p..q] == out;
    }
  }

  lemma AfterNewlines(t: string, p: nat, n: nat)
    requires p <= |t| && n == LeadingNewlines(t[p..]) && (p == |t| || LineStart(t, p))
    ensures p + n == |t| || LineStart(t, p + n)
  {
    if n > 0 {
      assert t[p..][n - 1] == t[p + n - 1];
    }
  }

  // ---------- What stripping does to a text ----------

  predicate MarkerLine(l: string) {
    IsBegin(l) || IsEnd(l)
  }

  ghost predicate NoMarkerLines(ls: seq<string>) {
    forall l :: l in ls ==> !MarkerLine(l)
  }

  /** The non-empty lines of the result are those of the text without its blocks and
      without the stray marker lines that remain: nothing else goes. */
  lemma StripKeepsContent(t: string)
    ensures Content(Strip(t)) == WithoutEnds(WithoutBegins(WithoutBlocks(Content(t))))
  {
    hide Content, Heal;
    var a := Heal("", t, 0, WellFormed);
    var b := Heal("", a, 0, OrphanBegin);
    PassOnContent(t, WellFormed);
    PassOnContent(a, OrphanBegin);
    PassOnContent(b, OrphanEnd);
  }

  lemma PassOnContent(t: string, pattern: Pattern)
    ensures Content(Heal("", t, 0, pattern)) == Without(pattern, Content(t))
  {
    hide Content, Heal, Without;
    EmptyContent();
    HealOnContent("", t, 0, pattern);
    assert t[0..] == t;
    assert [] + Without(pattern, Content(t)) == Without(pattern, Content(t));
  }

  lemma {:induction false} WithoutBeginsMembers(ls: seq<string>, l: string)
    ensures l in WithoutBegins(ls) <==> l in ls && !IsBegin(l)
  {
    if ls != [] {
      WithoutBeginsMembers(ls[1..], l);
      assert ls == [ls[0]] + ls[1..];
    }
  }

  lemma {:induction false} WithoutEndsMembers(ls: seq<string>, l: string)
    ensures l in WithoutEnds(ls) <==> l in ls && !IsEnd(l)
  {
    if ls != [] {
      WithoutEndsMembers(ls[1..], l);
      assert ls == [ls[0]] + ls[1..];
    }
  }

  /** No BEGIN line and no END line is left. */
  lemma StripLeavesNoMarkers(t: string)
    ensures NoMarkerLines(Lines(Strip(t)))
  {
    hide Strip, IsBegin, IsEnd, Lines;
    StripKeepsContent(t);
    var c := WithoutBegins(WithoutBlocks(Content(t)));
    forall l | l in Lines(Strip(t))
      ensures !MarkerLine(l)
    {
      MarkersNotEmpty();
      NonEmptyMembers(Lines(Strip(t)), l);
      WithoutEndsMembers(c, l);
      WithoutBeginsMembers(WithoutBlocks(Content(t)), l);
    }
  }

  lemma {:induction false} NoMarkersNoMatch(t: string, p: nat, pattern: Pattern)
    requires p <= |t| && NoMarkerLines(Lines(t[p..]))
    ensures NextMatch(t, p, pattern) == None
    decreases |t| - p
  {
    hide IsBegin, IsEnd, ScanEnd, Lines;
    LinesAt(t, p);
    var e := LineEnd(t, p);
    assert t[p..e] in Lines(t[p..]);
    if e < |t| {
      assert forall l :: l in Lines(t[e + 1..]) ==> l in Lines(t[p..]);
      NoMarkersNoMatch(t, e + 1, pattern);
    }
  }

  /** A text without marker lines comes back byte for byte. */
  lemma StripIdentity(t: string)
    requires NoMarkerLines(Lines(t))
    ensures Strip(t) == t
  {
    hide Lines, NextMatch;
    assert t[0..] == t;
    NoMarkersNoMatch(t, 0, WellFormed);
    NoMarkersNoMatch(t, 0, OrphanBegin);
    NoMarkersNoMatch(t, 0, OrphanEnd);
    assert "" + t[0..] == t;
  }

  lemma StripIdempotent(t: string)
    ensures Strip(Strip(t)) == Strip(t)
  {
    hide Strip, Lines;
    StripLeavesNoMarkers(t);
    StripIdentity(Strip(t));
  }

  // ---------- The loop as gluing: only newlines at a seam ever change ----------

  /** The stretches of text between the matches, verbatim. */
  function Pieces(t: string, cursor: nat, pattern: Pattern): (ps: seq<string>)
    requires cursor <= |t|
    ensures ps != []
    decreases |t| - cursor
  {
    match NextMatch(t, cursor, pattern)
    case None => [t[cursor..]]
    case Some(m) => [t[cursor..m.start]] + Pieces(t, m.end, pattern)
  }

  function GlueAll(out: string, pieces: seq<string>): string
    decreases |pieces|
  {
    if pieces == [] then out else GlueAll(Glue(out, pieces[0]), pieces[1..])
  }

  /** At a seam the newlines on the two sides stay as they are up to two, and more become two. */
  lemma GlueIs(a: string, before: string, after: string, z: string)
    requires a == "" || a[|a| - 1] != '\n'
    requires z == "" || z[0] != '\n'
    requires forall i :: 0 <= i < |before| ==> before[i] == '\n'
    requires forall i :: 0 <= i < |after| ==> after[i] == '\n'
    ensures Glue(a + before, after + z) ==
      a + (if |before| + |after| > 2 then "\n\n" else before + after) + z
  {
    hide TrailingNewlines, LeadingNewlines, TrimEnd;
    TrailingNewlinesOf(a, before);
    LeadingNewlinesOf(after, z);
    assert (after + z)[|after|..] == z;
    assert a + before + (after + z) == a + (before + after) + z;
  }

  lemma LeadingNewlineFirst(t: string, p: nat)
    requires p <= |t| && LeadingNewlines(t[p..]) > 0
    ensures p < |t| && t[p] == '\n'
  {
  }

  lemma NextMatchSkipsNewline(t: string, p: nat, pattern: Pattern)
    requires p < |t| && t[p] == '\n'
    ensures NextMatch(t, p, pattern) == NextMatch(t, p + 1, pattern)
    ensures var m := NextMatch(t, p, pattern); m.Some? ==> p < m.value.start <= |t|
  {
    hide IsBegin, IsEnd, ScanEnd;
    assert LineEnd(t, p) == p && t[p..p] == "";
    MarkersNotEmpty();
  }

  lemma {:induction false} NextMatchSkipsNewlines(t: string, p: nat, n: nat, pattern: Pattern)
    requires p + n <= |t| && n <= LeadingNewlines(t[p..])
    ensures NextMatch(t, p, pattern) == NextMatch(t, p + n, pattern)
    decreases n
  {
    hide *;
    if n > 0 {
      LeadingNewlineFirst(t, p);
      NextMatchSkipsNewline(t, p, pattern);
      NewlinesAfterOne(t, p);
      NextMatchSkipsNewlines(t, p + 1, n - 1, pattern);
    }
  }

  lemma CutSlice(t: string, p: nat, q: nat, end: nat)
    requires p <= q <= end <= |t|
    ensures t[p..end] == t[p..q] + t[q..end]
  {
  }

  lemma PiecesSkipNewlines(t: string, p: nat, n: nat, pattern: Pattern)
    requires p + n <= |t| && n <= LeadingNewlines(t[p..])
    ensures var ps, qs := Pieces(t, p, pattern), Pieces(t, p + n, pattern);
      ps[0] == t[p..p + n] + qs[0] && ps[1..] == qs[1..]
  {
    hide *;
    NextMatchSkipsNewlines(t, p, n, pattern);
    PiecesStep(t, p, pattern);
    PiecesStep(t, p + n, pattern);
    var m := NextMatch(t, p + n, pattern);
    CutSlice(t, p, p + n, if m.Some? then m.value.start else |t|);
  }

  lemma NewlinesAfterOne(t: string, p: nat)
    requires p < |t| && t[p] == '\n'
    ensures LeadingNewlines(t[p..]) == 1 + LeadingNewlines(t[p + 1..])
  {
    assert t[p..][1..] == t[p + 1..];
  }

  lemma {:induction false} LeadingNewlinesOf(newlines: string, rest: string)
    requires forall i :: 0 <= i < |newlines| ==> newlines[i] == '\n'
    requires rest == "" || rest[0] != '\n'
    ensures LeadingNewlines(newlines + rest) == |newlines|
  {
    if newlines == "" {
      assert newlines + rest == rest;
    } else {
      assert (newlines + rest)[1..] == newlines[1..] + rest;
      LeadingNewlinesOf(newlines[1..], rest);
    }
  }

  lemma {:induction false} TrailingNewlinesOf(a: string, newlines: string)
    requires a == "" || a[|a| - 1] != '\n'
    requires forall i :: 0 <= i < |newlines| ==> newlines[i] == '\n'
    ensures TrailingNewlines(a + newlines) == |newlines|
    ensures TrimEnd(a + newlines) == a
    decreases |newlines|
  {
    var t := a + newlines;
    if newlines == "" {
      assert t == a;
    } else {
      assert t[..|t| - 1] == a + newlines[..|newlines| - 1];
      TrailingNewlinesOf(a, newlines[..|newlines| - 1]);
    }
  }

  lemma {:induction false} LeadingNewlinesOfPrefix(a: string, b: string)
    ensures LeadingNewlines(a) <= LeadingNewlines(a + b)
  {
    if a != "" {
      assert (a + b)[1..] == a[1..] + b;
      LeadingNewlinesOfPrefix(a[1..], b);
    }
  }

  lemma FirstPiece(t: string, p: nat, pattern: Pattern)
    requires p <= |t|
    ensures Pieces(t, p, pattern)[0] <= t[p..]
  {
    hide NextMatch;
  }

  /** Healing one seam is gluing the next piece on. */
  lemma SeamIsGlue(kept: string, t: string, p: nat, pattern: Pattern)
    requires p <= |t|
    ensures var after := LeadingNewlines(t[p..]);
      var ps := Pieces(t, p, pattern);
      if TrailingNewlines(kept) + after > 2
      then var qs := Pieces(t, p + after, pattern);
        Glue(kept, ps[0]) == TrimEnd(kept) + "\n\n" + qs[0] && ps[1..] == qs[1..]
      else Glue(kept, ps[0]) == kept + ps[0]
  {
    hide Pieces, LeadingNewlines, TrailingNewlines;
    var after := LeadingNewlines(t[p..]);
    var ps := Pieces(t, p, pattern);
    FirstPiece(t, p, pattern);
    if TrailingNewlines(kept) + after > 2 {
      PiecesSkipNewlines(t, p, after, pattern);
      var qs := Pieces(t, p + after, pattern);
      FirstPiece(t, p + after, pattern);
      if qs[0] != "" {
        assert qs[0][0] == t[p + after..][0] == t[p..][after];
      }
      assert forall i :: 0 <= i < after ==> t[p..p + after][i] == t[p..][i];
      LeadingNewlinesOf(t[p..p + after], qs[0]);
      assert ps[0][after..] == qs[0];
    } else {
      LeadingNewlinesOfPrefix(ps[0], t[p..][|ps[0]|..]);
      assert ps[0] + t[p..][|ps[0]|..] == t[p..];
    }
  }

  lemma PiecesStep(t: string, cursor: nat, pattern: Pattern)
    requires cursor <= |t|
    ensures var ps := Pieces(t, cursor, pattern);
      match NextMatch(t, cursor, pattern)
      case None => ps == [t[cursor..]] && ps[1..] == []
      case Some(m) => ps[0] == t[cursor..m.start] && ps[1..] == Pieces(t, m.end, pattern)
  {
    hide NextMatch;
  }

  lemma GlueAllStep(out: string, pieces: seq<string>)
    requires pieces != []
    ensures GlueAll(out, pieces) == GlueAll(Glue(out, pieces[0]), pieces[1..])
    ensures GlueAll(out, []) == out
  {
    hide Glue;
  }

  /** The loop's result is its pieces glued together from left to right. */
  lemma {:induction false} HealGluesPieces(out: string, t: string, cursor: nat, pattern: Pattern)
    requires cursor <= |t|
    ensures var ps := Pieces(t, cursor, pattern);
      Heal(out, t, cursor, pattern) == GlueAll(out + ps[0], ps[1..])
    decreases |t| - cursor
  {
    hide *;
    PiecesStep(t, cursor, pattern);
    match NextMatch(t, cursor, pattern)
    case None =>
      HealEnd(out, t, cursor, pattern);
      GlueAllStep(out + t[cursor..], [""]);
    case Some(m) =>
      HealStep(out, t, cursor, pattern);
      var kept := out + t[cursor..m.start];
      var after := LeadingNewlines(t[m.end..]);
      SeamIsGlue(kept, t, m.end, pattern);
      GlueAllStep(kept, Pieces(t, m.end, pattern));
      if TrailingNewlines(kept) + after > 2 {
        HealGluesPieces(TrimEnd(kept) + "\n\n", t, m.end + after, pattern);
      } else {
        HealGluesPieces(kept, t, m.end, pattern);
      }
  }

  // ---------- The block, and the file that holds it ----------

  ghost predicate GoodBody(body: seq<string>) {
    forall l :: l in body ==> NewlineFree(l) && !HasBegin(l) && !IsEnd(l)
  }

  /** `buildBlock`: the sentinels around the body's lines. */
  function Block(body: seq<string>): string {
    BEGIN + "\n" + Unlines(body) + END
  }

  /** Text of the user's own: no line is a marker line. */
  ghost predicate UserText(t: string) {
    NoMarkerLines(Lines(t))
  }

  lemma SentinelLines()
    ensures IsBegin(BEGIN) && IsEnd(END) && NewlineFree(BEGIN) && NewlineFree(END)
    ensures !IsEnd(BEGIN) && !IsBegin(END)
  {
    hide *;
    BeginIsBegin();
    EndIsEnd();
    BeginNotEnd();
  }

  lemma BeginIsBegin()
    ensures IsBegin(BEGIN)
  {
    hide IsBegin;
    BeginHasParts();
    BeginShapeIsBegin(BEGIN, "", " v2 ", "");
  }

  lemma BeginHasParts()
    ensures BeginShape(BEGIN, "", " v2 ", "")
  {
    assert "" + BEGIN_PREFIX + " v2 " + "-->" + "" == BEGIN;
  }
  lemma {:induction false} IndexOfIs(s: string, c: char, i: nat)
    requires i < |s| && s[i] == c && c !in s[..i]
    ensures IndexOf(s, c) == i
  {
    if i > 0 {
      assert s[0] == s[..i][0];
      assert s[1..][..i - 1] == s[..i][1..];
      IndexOfIs(s[1..], c, i - 1);
    }
  }

  lemma EndIsEnd()
    ensures IsEnd(END) && NewlineFree(BEGIN) && NewlineFree(END)
  {
    EndUnindented();
    MarkersNewlineFree();
  }

  lemma EndUnindented()
    ensures DropBlanks(END) == END && END <= END && END[|END|..] == ""
  {
  }

  lemma MarkersNewlineFree()
    ensures NewlineFree(BEGIN) && NewlineFree(END)
  {
  }
  lemma BeginNotEnd()
    ensures !IsEnd(BEGIN) && !IsBegin(END)
  {
    assert DropBlanks(BEGIN) == BEGIN && DropBlanks(END) == END;
    assert BEGIN[20] == 'b' && END[20] == 'e' && BEGIN_PREFIX[20] == 'b';
  }

  lemma {:induction false} LineEndIs(t: string, p: nat, e: nat)
    requires p <= e <= |t| && NewlineFree(t[p..e]) && (e == |t| || t[e] == '\n')
    ensures LineEnd(t, p) == e
    decreases e - p
  {
    if p < e {
      assert t[p] == t[p..e][0];
      assert t[p..e][1..] == t[p + 1..e];
      LineEndIs(t, p + 1, e);
    }
  }

  lemma LineSlices(t: string, p: nat, line: string)
    requires p <= |t| && line + "\n" <= t[p..]
    ensures var e := p + |line|;
      e < |t| && t[e] == '\n' && t[p..e] == line && t[e + 1..] == t[p..][|line| + 1..]
  {
    var head := line + "\n";
    assert t[p..][..|head|] == head;
    assert t[p..p + |line|] == head[..|line|] == line;
    assert t[p + |line|] == head[|line|];
  }

  lemma ScanStep(t: string, p: nat, line: string)
    requires p <= |t| && NewlineFree(line) && line + "\n" <= t[p..]
    ensures var e := p + |line|;
      && e < |t| && t[e] == '\n' && t[p..e] == line && LineEnd(t, p) == e
      && t[e + 1..] == t[p..][|line| + 1..]
      && ScanEnd(t, p) == if IsEnd(line) then Some(e) else if HasBegin(line) then None else ScanEnd(t, e + 1)
  {
    hide IsEnd, HasBegin, LineEnd, ScanEnd;
    LineSlices(t, p, line);
    LineEndIs(t, p, p + |line|);
    ScanEndStep(t, p);
  }

  lemma UnlinesStep(body: seq<string>, tail: string)
    ensures body == [] ==> Unlines(body) + tail == tail
    ensures body != [] ==> Unlines(body) + tail == (body[0] + "\n") + (Unlines(body[1..]) + tail)
  {
  }

  lemma GoodBodyStep(body: seq<string>)
    requires GoodBody(body) && body != []
    ensures NewlineFree(body[0]) && !HasBegin(body[0]) && !IsEnd(body[0]) && GoodBody(body[1..])
  {
    hide NewlineFree, HasBegin, IsEnd;
  }

  /** Scanning lines without markers and then an END line finds that line. */
  lemma {:induction false} ScanBlock(t: string, p: nat, body: seq<string>, last: string)
    requires p <= |t| && GoodBody(body)
    requires IsEnd(last) && NewlineFree(last)
    requires t[p..] == Unlines(body) + (last + "\n")
    ensures ScanEnd(t, p) == Some(|t| - 1)
    decreases |body|
  {
    hide *;
    var tail := last + "\n";
    UnlinesStep(body, tail);
    if body == [] {
      assert t[p..] == tail;
      ScanStep(t, p, last);
    } else {
      GoodBodyStep(body);
      var head := body[0] + "\n";
      var rest := Unlines(body[1..]) + tail;
      assert t[p..] == head + rest;
      ScanStep(t, p, body[0]);
      assert t[p..][|head|..] == rest;
      ScanBlock(t, p + |head|, body[1..], last);
    }
  }

  lemma LastNewlineOutside(a: string, p: nat, e: nat)
    requires p < |a| && a[|a| - 1] == '\n' && p <= e <= |a| && NewlineFree(a[p..e])
    ensures e < |a|
  {
    assert forall i :: p <= i < e ==> a[i] == a[p..e][i - p] && a[i] in a[p..e];
  }

  lemma NoMatchAt(t: string, p: nat, pattern: Pattern)
    requires p <= |t| && !MarkerLine(t[p..LineEnd(t, p)])
    ensures MatchAt(t, p, pattern) == None
  {
    hide IsBegin, IsEnd, ScanEnd, LineEnd;
  }

  /** The line at `p` of a text cut after a newline is the line at `p` of the text. */
  lemma LineOfPrefix(t: string, n: nat, p: nat)
    requires p < n <= |t| && t[n - 1] == '\n'
    ensures var e := LineEnd(t, p);
      && p <= e < n && t[e] == '\n'
      && Lines(t[p..n]) == [t[p..e]] + Lines(t[e + 1..n])
  {
    hide Lines;
    var a := t[..n];
    var e := LineEnd(a, p);
    LastNewlineOutside(a, p, e);
    LinesAt(a, p);
    assert t[p..e] == a[p..e] && a[p..] == t[p..n] && a[e + 1..] == t[e + 1..n];
    LineEndIs(t, p, e);
  }

  /** Lines of user text in front are passed over. */
  lemma {:induction false} PassUserText(t: string, n: nat, p: nat)
    requires p <= n <= |t| && (p < n ==> t[n - 1] == '\n')
    requires NoMarkerLines(Lines(t[p..n]))
    ensures NextMatch(t, p, WellFormed) == NextMatch(t, n, WellFormed)
    decreases n - p
  {
    hide Lines, NextMatch, MatchAt, LineEnd, MarkerLine;
    if p < n {
      LineOfPrefix(t, n, p);
      var e := LineEnd(t, p);
      var rest := Lines(t[e + 1..n]);
      assert ([t[p..e]] + rest)[0] == t[p..e];
      NoMatchAt(t, p, WellFormed);
      NextMatchStep(t, p, WellFormed);
      PassUserText(t, n, e + 1);
    }
  }

  /** Removing what was written under `base`, the one match of the text, leaves `base`. */
  lemma HealWritten(base: string, t: string)
    requires base <= t
    requires NextMatch(t, 0, WellFormed) == Some(Span(|base|, |t|))
    requires TrailingNewlines(base) <= 2
    ensures Heal("", t, 0, WellFormed) == base
  {
    hide IsBegin, IsEnd, Lines, MatchAt, ScanEnd, NextMatch, TrailingNewlines, LeadingNewlines, Heal;
    var n := |base|;
    HealStep("", t, 0, WellFormed);
    assert "" + t[0..n] == base;
    assert t[|t|..] == "";
    NoLeadingNewlines();
    EndOfText(t, WellFormed);
    HealEnd(base, t, |t|, WellFormed);
    assert base + t[|t|..] == base;
  }

  /** Removing the block written under `base` leaves exactly `base`. */
  lemma StripWritten(base: string, body: seq<string>)
    requires GoodBody(body) && NoMarkerLines(Lines(base))
    requires base == "" || (EndsWith(base, "\n\n") && TrailingNewlines(base) == 2)
    ensures Strip(base + Block(body) + "\n") == base
  {
    hide IsBegin, IsEnd, Lines, MatchAt, ScanEnd, NextMatch, TrailingNewlines, LeadingNewlines, Heal, Block, GoodBody;
    var t := base + Block(body) + "\n";
    var n := |base|;
    assert t[0..n] == base && base <= t;
    assert t[n..] == Block(body) + "\n";
    PassUserText(t, n, 0);
    MatchWritten(t, n, body);
    NoTrailingNewlines();
    HealWritten(base, t);
    assert base[0..] == base && "" + base == base;
    NoMarkersNoMatch(base, 0, OrphanBegin);
    HealEnd("", base, 0, OrphanBegin);
    NoMarkersNoMatch(base, 0, OrphanEnd);
    HealEnd("", base, 0, OrphanEnd);
  }

  lemma NoLeadingNewlines()
    ensures LeadingNewlines("") == 0
  {
  }

  lemma NoTrailingNewlines()
    ensures TrailingNewlines("") == 0
  {
  }

  lemma MatchBlock(t: string, n: nat, first: string, body: seq<string>, last: string)
    requires n <= |t| && GoodBody(body)
    requires IsBegin(first) && NewlineFree(first) && IsEnd(last) && NewlineFree(last)
    requires t[n..] == (first + "\n") + (Unlines(body) + (last + "\n"))
    ensures NextMatch(t, n, WellFormed) == Some(Span(n, |t|))
  {
    hide *;
    var head := first + "\n";
    ScanStep(t, n, first);
    assert t[n..][|head|..] == Unlines(body) + (last + "\n");
    ScanBlock(t, n + |head|, body, last);
    MatchAtBegin(t, n);
    NextMatchStep(t, n, WellFormed);
  }

  lemma MatchAtBegin(t: string, n: nat)
    requires n <= |t| && LineEnd(t, n) < |t| && IsBegin(t[n..LineEnd(t, n)])
    ensures MatchAt(t, n, WellFormed) == ScanEnd(t, LineEnd(t, n) + 1)
  {
    hide IsBegin, ScanEnd, LineEnd;
  }

  lemma MatchWritten(t: string, n: nat, body: seq<string>)
    requires n <= |t| && GoodBody(body) && t[n..] == Block(body) + "\n"
    ensures NextMatch(t, n, WellFormed) == Some(Span(n, |t|))
  {
    hide IsBegin, IsEnd, NextMatch, GoodBody, Unlines;
    SentinelLines();
    Reassociate(BEGIN, "\n", Unlines(body), END);
    MatchBlock(t, n, BEGIN, body, END);
  }

  lemma Reassociate(a: string, newline: string, b: string, c: string)
    ensures a + newline + b + c + newline == (a + newline) + (b + (c + newline))
  {
  }

  /** A line of a text, by position. */
  lemma LineMember(t: string, p: nat)
    requires LineStart(t, p)
    ensures t[p..LineEnd(t, p)] in Lines(t)
  {
    hide Lines;
    LinesAt(t, p);
    if p == 0 {
      assert t[0..] == t;
    } else {
      assert t == t[..p - 1] + "\n" + t[p..];
      LinesOfConcat(t[..p - 1], t[p..]);
    }
  }

  lemma LineAround(t: string, i: nat) returns (p: nat)
    requires i <= |t|
    ensures p <= i && LineStart(t, p) && NewlineFree(t[p..i])
  {
    p := i;
    while p > 0 && t[p - 1] != '\n'
      invariant p <= i && NewlineFree(t[p..i])
    {
      assert t[p - 1..i] == [t[p - 1]] + t[p..i];
      p := p - 1;
    }
  }

  /** Where a block occurs: its first line, and the text right after. */
  lemma BlockOccurs(t: string, body: seq<string>, i: nat)
    requires OccursAt(t, Block(body), i)
    ensures var e := i + |BEGIN|;
      && e < |t| && t[i..e] == BEGIN && t[e] == '\n'
      && Inner(body, "") <= t[e + 1..]
  {
    hide Unlines;
    var inner := Unlines(body) + END;
    var block := Block(body);
    assert block == BEGIN + "\n" + inner;
    var e := i + |BEGIN|;
    var u := t[i..i + |block|];
    assert t[i..e] == u[..|BEGIN|] == BEGIN;
    assert t[e] == u[|BEGIN|];
    assert t[e + 1..i + |block|] == u[|BEGIN| + 1..] == inner;
    assert t[e + 1..][..|inner|] == t[e + 1..i + |block|];
    assert inner + "" == inner;
  }

  lemma BlockFound(t: string, body: seq<string>) returns (i: nat)
    requires Contains(t, Block(body))
    ensures OccursAt(t, Block(body), i)
  {
    hide Block;
    i :| 0 <= i <= |t| && OccursAt(t, Block(body), i);
  }

  // ---------- adopt, unadopt, isAdopted ----------

  /** What `trim()` takes for white space. */
  predicate IsSpace(c: char) {
    c in "\t\n\U{000B}\U{000C}\r \U{00A0}\U{1680}\U{2028}\U{2029}\U{202F}\U{205F}\U{3000}\U{FEFF}"
    || '\U{2000}' <= c <= '\U{200A}'
  }

  /** White space and line terminators of ECMAScript, by code point. */
  lemma SpaceCodes(c: char)
    ensures IsSpace(c) <==>
      || c as int in {32, 160, 5760, 8232, 8233, 8239, 8287, 12288, 65279}
      || 9 <= c as int <= 13
      || 8192 <= c as int <= 8202
  {
  }

  predicate AllSpace(t: string) {
    forall i :: 0 <= i < |t| ==> IsSpace(t[i])
  }

  function Written(base: string, block: string): string {
    (if base == "" then "" else base + "\n\n") + block + "\n"
  }

  /** The project's CLAUDE.md after `adopt`. */
  function Adopted(file: Option<string>, block: string): Option<string> {
    var current := if file.Some? then file.value else "";
    if Contains(current, block) then file else Some(Written(TrimEnd(Strip(current)), block))
  }

  /** ... and after `unadopt`; a link is never removed. */
  function Unadopted(file: Option<string>, isLink: bool): Option<string> {
    if file.None? then None else
      var after := Strip(file.value);
      if after == file.value then file
      else if AllSpace(after) && !isLink then None
      else Some(after)
  }

  /** The marker half of `isAdopted`. */
  predicate ShowsMarkers(t: string) {
    (exists l :: l in Lines(t) && IsBegin(l)) && (exists l :: l in Lines(t) && IsEnd(l))
  }

  class Project {
    const isLink: bool
    var claudeMd: Option<string>

    constructor (claudeMd: Option<string>, isLink: bool)
      ensures this.claudeMd == claudeMd && this.isLink == isLink
    {
      this.claudeMd, this.isLink := claudeMd, isLink;
    }

    method Adopt(block: string)
      modifies this
      ensures claudeMd == Adopted(old(claudeMd), block)
    {
      var current := "";
      if claudeMd.Some? {
        current := claudeMd.value;
      }
      if Contains(current, block) {
        return;
      }
      var cleaned := "";
      if claudeMd.Some? {
        cleaned := StripSentinelBlock(current);
      } else {
        StripEmpty();
      }
      var base := TrimEnd(cleaned);
      var prefix := if base != "" then base + "\n\n" else "";
      claudeMd := Some(prefix + block + "\n");
    }

    method Unadopt()
      modifies this
      ensures claudeMd == Unadopted(old(claudeMd), isLink)
    {
      if claudeMd.Some? {
        var before := claudeMd.value;
        var after := StripSentinelBlock(before);
        if after != before {
          if AllSpace(after) && !isLink {
            claudeMd := None;
          } else {
            claudeMd := Some(after);
          }
        }
      }
    }
  }

  lemma StripEmpty()
    ensures Strip("") == ""
  {
    MarkersNotEmpty();
    StripIdentity("");
  }

  // ---------- The BEGIN predicate is the source's regular expression ----------

  ghost predicate SpacesOrTabs(s: string) {
    forall c :: c in s ==> c == ' ' || c == '\t'
  }

  lemma BlanksAre(s: string)
    ensures AllBlank(s) <==> SpacesOrTabs(s)
  {
    if SpacesOrTabs(s) {
      assert forall i :: 0 <= i < |s| ==> s[i] in s;
    }
  }

  /** A BEGIN marker of any version, with `a` in front and `z` behind. */
  ghost predicate MarkerShape(line: string, a: string, m: string, z: string) {
    line == a + "<!-- code-graph-mcp:begin" + m + "-->" + z && '>' !in m
  }

  ghost predicate BeginShape(line: string, a: string, m: string, z: string) {
    MarkerShape(line, a, m, z) && SpacesOrTabs(a) && SpacesOrTabs(z)
  }

  ghost predicate EndShape(line: string, a: string, z: string) {
    line == a + "<!-- code-graph-mcp:end -->" + z && SpacesOrTabs(a) && SpacesOrTabs(z)
  }

  lemma {:induction false} DropBlanksOf(a: string, s: string)
    requires AllBlank(a) && (s == "" || !IsBlankChar(s[0]))
    ensures DropBlanks(a + s) == s
  {
    if a == "" {
      assert a + s == s;
    } else {
      assert (a + s)[1..] == a[1..] + s;
      DropBlanksOf(a[1..], s);
    }
  }

  lemma BeginShapeIsBegin(line: string, a: string, m: string, z: string)
    requires BeginShape(line, a, m, z)
    ensures IsBegin(line)
  {
    hide DropBlanks, BeginMarkerLength, AllBlank, SpacesOrTabs;
    BlanksAre(a);
    BlanksAre(z);
    var s := BEGIN_PREFIX + (m + "-->" + z);
    assert line == a + s;
    assert s[0] == '<';
    DropBlanksOf(a, s);
    MarkerLength(m, z);
  }

  lemma MarkerLength(m: string, z: string)
    requires '>' !in m
    ensures var s, n := BEGIN_PREFIX + (m + "-->" + z), |BEGIN_PREFIX| + |m| + 3;
      BeginMarkerLength(s) == n && s[n..] == z
  {
    hide IndexOf;
    var tail := m + "-->" + z;
    var s := BEGIN_PREFIX + tail;
    assert s[|BEGIN_PREFIX|..] == tail;
    var j := |m| + 2;
    assert tail[..j] == m + "--";
    IndexOfIs(tail, '>', j);
    assert tail[j - 2..j] == "--";
    assert s[|BEGIN_PREFIX| + j + 1..] == z;
  }

  lemma ArrowSplit(tail: string, j: nat)
    requires 2 <= j < |tail| && tail[j - 2..j] == "--" && tail[j] == '>'
    ensures tail == tail[..j - 2] + "-->" + tail[j + 1..]
  {
    assert tail[j - 2..j + 1] == tail[j - 2..j] + [tail[j]];
  }

  lemma BeginParts(s: string) returns (m: string, z: string)
    requires BeginMarkerLength(s) > 0
    ensures s == BEGIN_PREFIX + (m + "-->" + z) && '>' !in m && z == s[BeginMarkerLength(s)..]
  {
    hide IndexOf;
    var tail := s[|BEGIN_PREFIX|..];
    var j := IndexOf(tail, '>');
    FoundIndex(tail, '>');
    ArrowSplit(tail, j);
    m, z := tail[..j - 2], tail[j + 1..];
    assert forall c :: c in m ==> c in tail[..j];
    assert s == s[..|BEGIN_PREFIX|] + tail;
    assert s[|BEGIN_PREFIX| + j + 1..] == z;
  }

  lemma BeginHasShape(line: string)
    requires IsBegin(line)
    ensures exists a, m, z :: BeginShape(line, a, m, z)
  {
    hide BeginMarkerLength, DropBlanks, AllBlank, SpacesOrTabs;
    var k := DropBlanksSuffix(line);
    var m, z := BeginParts(line[k..]);
    ShapeParts(line, k, m, z);
    BlanksAre(line[..k]);
    BlanksAre(z);
    assert BeginShape(line, line[..k], m, z);
  }

  lemma ShapeParts(line: string, k: nat, m: string, z: string)
    requires k <= |line| && line[k..] == BEGIN_PREFIX + (m + "-->" + z)
    ensures line == line[..k] + BEGIN_PREFIX + m + "-->" + z
  {
    assert line == line[..k] + line[k..];
  }

  lemma FoundIndex(s: string, c: char)
    ensures var j := IndexOf(s, c); j <= |s| && c !in s[..j] && (j < |s| ==> s[j] == c)
  {
  }

  /** A line is a BEGIN line exactly when it is blanks, the prefix, characters other
      than '>', the closing arrow, and blanks. */
  lemma BeginLineIff(line: string)
    ensures IsBegin(line) <==> exists a, m, z :: BeginShape(line, a, m, z)
  {
    hide IsBegin, BeginShape;
    if IsBegin(line) {
      BeginHasShape(line);
    }
    if a, m, z :| BeginShape(line, a, m, z) {
      BeginShapeIsBegin(line, a, m, z);
    }
  }

  /** A line is an END line exactly when it is blanks, the marker, and blanks: whatever else
      stands on its line keeps it. */
  lemma EndLineIff(line: string)
    ensures IsEnd(line) <==> exists a, z :: EndShape(line, a, z)
  {
    hide DropBlanks, AllBlank, SpacesOrTabs;
    if IsEnd(line) {
      var k := DropBlanksSuffix(line);
      var s := line[k..];
      var z := s[|END|..];
      assert s == END + z && line == line[..k] + s;
      BlanksAre(line[..k]);
      BlanksAre(z);
      assert EndShape(line, line[..k], z);
    }
    if a, z :| EndShape(line, a, z) {
      BlanksAre(a);
      BlanksAre(z);
      assert line == a + (END + z) && (END + z)[0] == '<';
      DropBlanksOf(a, END + z);
      assert (END + z)[|END|..] == z;
    }
  }

  /** A line holds a BEGIN marker, of whatever version and wherever in it, exactly when the
      prefix is followed by characters other than '>' and a closing arrow. */
  lemma HasBeginIff(line: string)
    ensures HasBegin(line) <==> exists a, m, z :: MarkerShape(line, a, m, z)
  {
    hide BeginMarkerLength;
    if HasBegin(line) {
      var i :| 0 <= i < |line| && BeginMarkerLength(line[i..]) > 0;
      var m, z := BeginParts(line[i..]);
      ShapeParts(line, i, m, z);
      assert MarkerShape(line, line[..i], m, z);
    }
    if a, m, z :| MarkerShape(line, a, m, z) {
      MarkerLength(m, z);
      var s := BEGIN_PREFIX + (m + "-->" + z);
      assert line == a + s;
      assert line[|a|..] == s;
    }
  }

  lemma MarkersExclusive(line: string)
    ensures IsBegin(line) ==> HasBegin(line) && !IsEnd(line)
  {
    hide IsBegin, HasBegin, IsEnd, SpacesOrTabs;
    BeginLineIff(line);
    HasBeginIff(line);
    if IsBegin(line) {
      var a, m, z :| BeginShape(line, a, m, z);
      assert MarkerShape(line, a, m, z);
      BeginNotEndLine(line);
    }
  }

  lemma BeginNotEndLine(line: string)
    requires IsBegin(line)
    ensures !IsEnd(line)
  {
    hide AllBlank, IndexOf;
    TwentiethChar(DropBlanks(line));
  }

  lemma TwentiethChar(s: string)
    ensures BEGIN_PREFIX <= s ==> |s| > 20 && s[20] == 'b'
    ensures END <= s ==> |s| > 20 && s[20] == 'e'
  {
    if BEGIN_PREFIX <= s {
      assert s[..|BEGIN_PREFIX|][20] == BEGIN_PREFIX[20];
    }
    if END <= s {
      assert s[..|END|][20] == END[20];
    }
  }

  // ---------- Exactly which lines a strip keeps ----------

  /** The first END line at or after line `k`, with no BEGIN marker on a line before it. */
  ghost predicate FirstEnd(ls: seq<string>, k: nat, e: nat) {
    k <= e < |ls| && IsEnd(ls[e]) && forall m :: k <= m < e ==> !IsEnd(ls[m]) && !HasBegin(ls[m])
  }

  /** Lines `b` to `e` are a block. */
  ghost predicate BlockAt(ls: seq<string>, b: nat, e: nat) {
    b < |ls| && IsBegin(ls[b]) && FirstEnd(ls, b + 1, e)
  }

  /** Line `k` is no marker line and in no block. */
  ghost predicate Stays(ls: seq<string>, k: nat) {
    && k < |ls| && !IsBegin(ls[k]) && !IsEnd(ls[k])
    && forall b: nat, e: nat :: BlockAt(ls, b, e) ==> !(b <= k <= e)
  }

  /** Those lines from line `k` on, in order. */
  ghost function Staying(ls: seq<string>, k: nat): seq<string>
    requires k <= |ls|
    decreases |ls| - k
  {
    if k == |ls| then [] else (if Stays(ls, k) then [ls[k]] else []) + Staying(ls, k + 1)
  }

  lemma {:induction false} AfterEndIs(ls: seq<string>, k: nat) returns (e: nat)
    requires k <= |ls|
    ensures AfterEnd(ls[k..]).Some? ==> FirstEnd(ls, k, e) && AfterEnd(ls[k..]).value == ls[e + 1..]
    ensures AfterEnd(ls[k..]).None? ==> forall f: nat :: !FirstEnd(ls, k, f)
    decreases |ls| - k
  {
    hide IsEnd, HasBegin, AfterEnd;
    e := k;
    if k == |ls| {
      AfterEndOfNothing();
    } else {
      assert ls[k..] == [ls[k]] + ls[k + 1..];
      AfterEndStep(ls[k], ls[k + 1..]);
      if !IsEnd(ls[k]) && !HasBegin(ls[k]) {
        e := AfterEndIs(ls, k + 1);
        if AfterEnd(ls[k + 1..]).None? {
          forall f: nat
            ensures !FirstEnd(ls, k, f)
          {
            assert !FirstEnd(ls, k + 1, f);
          }
        }
      }
    }
  }

  lemma {:induction false} StayingSkips(ls: seq<string>, b: nat, k: nat, e: nat)
    requires BlockAt(ls, b, e) && b <= k <= e + 1
    ensures Staying(ls, k) == Staying(ls, e + 1)
    decreases e + 1 - k
  {
    hide IsBegin, IsEnd, HasBegin;
    if k <= e {
      StayingSkips(ls, b, k + 1, e);
    }
  }

  /** No block lies across the start of line `k`. */
  ghost predicate Clear(ls: seq<string>, k: nat) {
    forall b: nat, e: nat :: BlockAt(ls, b, e) ==> !(b < k <= e)
  }

  /** Behind a block, and behind a line that starts none, it is clear again. */
  lemma ClearBehind(ls: seq<string>, k: nat, e: nat)
    requires Clear(ls, k) && BlockAt(ls, k, e)
    ensures Clear(ls, e + 1)
  {
    hide IsBegin, IsEnd, HasBegin;
    forall b: nat, f: nat | BlockAt(ls, b, f)
      ensures !(b < e + 1 <= f)
    {
      MarkersExclusive(ls[b]);
    }
  }

  lemma ClearNext(ls: seq<string>, k: nat)
    requires k < |ls| && Clear(ls, k) && forall e: nat :: !BlockAt(ls, k, e)
    ensures Clear(ls, k + 1)
    ensures Stays(ls, k) <==> !IsBegin(ls[k]) && !IsEnd(ls[k])
  {
    hide BlockAt, IsBegin, IsEnd;
    forall b: nat, e: nat | BlockAt(ls, b, e)
      ensures !(b < k + 1 <= e) && !(b <= k <= e)
    {
    }
  }

  lemma NotMarkedStays(line: string, rest: seq<string>)
    ensures WithoutEnds(WithoutBegins([line] + rest)) ==
      (if !IsBegin(line) && !IsEnd(line) then [line] else []) + WithoutEnds(WithoutBegins(rest))
  {
    hide IsBegin, IsEnd;
    assert ([line] + rest)[1..] == rest;
    assert ([line] + WithoutBegins(rest))[1..] == WithoutBegins(rest);
    MarkersExclusive(line);
  }

  lemma {:induction false} StayingFrom(ls: seq<string>, k: nat)
    requires k <= |ls| && Clear(ls, k)
    ensures WithoutEnds(WithoutBegins(WithoutBlocks(ls[k..]))) == Staying(ls, k)
    decreases |ls| - k
  {
    hide IsBegin, IsEnd, HasBegin, AfterEnd, WithoutBlocks, WithoutBegins, WithoutEnds, Clear, Stays;
    if k == |ls| {
      NothingWithout();
    } else {
      assert ls[k..] == [ls[k]] + ls[k + 1..];
      WithoutLine(WellFormed, ls[k], ls[k + 1..]);
      WithoutIs(ls[k..]);
      WithoutIs(ls[k + 1..]);
      var e := AfterEndIs(ls, k + 1);
      if IsBegin(ls[k]) && AfterEnd(ls[k + 1..]).Some? {
        assert BlockAt(ls, k, e);
        ClearBehind(ls, k, e);
        StayingSkips(ls, k, k, e);
        StayingFrom(ls, e + 1);
      } else {
        ClearNext(ls, k);
        NotMarkedStays(ls[k], WithoutBlocks(ls[k + 1..]));
        StayingFrom(ls, k + 1);
      }
    }
  }

  lemma WithoutIs(ls: seq<string>)
    ensures Without(WellFormed, ls) == WithoutBlocks(ls)
  {
    hide WithoutBlocks;
  }

  lemma NothingWithout()
    ensures WithoutEnds(WithoutBegins(WithoutBlocks([]))) == []
  {
  }

  /** The non-empty lines of a stripped text are, in order, those that are no marker line
      and stand in no block: between a BEGIN line and the first END line after it, with no
      BEGIN marker on a line in between. */
  lemma StripKeepsExactly(t: string)
    ensures Content(Strip(t)) == Staying(Content(t), 0)
  {
    hide *;
    StripKeepsContent(t);
    NothingBefore(Content(t));
    StayingFrom(Content(t), 0);
    assert Content(t)[0..] == Content(t);
  }

  lemma NothingBefore(ls: seq<string>)
    ensures Clear(ls, 0)
  {
  }

  // ---------- Any sequence of adopts and unadopts ----------

  datatype Op = Adopt(body: seq<string>) | Unadopt

  function Apply(file: Option<string>, op: Op, isLink: bool): Option<string> {
    match op
    case Adopt(body) => Adopted(file, Block(body))
    case Unadopt => Unadopted(file, isLink)
  }

  function Run(file: Option<string>, ops: seq<Op>, isLink: bool): Option<string> {
    if ops == [] then file else Apply(Run(file, ops[..|ops| - 1], isLink), ops[|ops| - 1], isLink)
  }

  ghost predicate GoodOps(ops: seq<Op>) {
    forall i :: 0 <= i < |ops| && ops[i].Adopt? ==> GoodBody(ops[i].body)
  }

  /** The file holds the user's text, up to trailing newlines, and nothing else. */
  ghost predicate UserOnly(file: Option<string>, user: string) {
    file.Some? && TrimEnd(file.value) == TrimEnd(user) && UserText(file.value)
  }

  /** The file holds the user's text, up to trailing newlines, and one managed block. */
  ghost predicate WithBlock(file: Option<string>, user: string, body: seq<string>) {
    file == Some(TrimEnd(user) + "\n\n" + Block(body) + "\n") && GoodBody(body)
  }

  lemma TrimEndPlain(base: string, newlines: string)
    requires base != "" && base[|base| - 1] != '\n'
    requires forall i :: 0 <= i < |newlines| ==> newlines[i] == '\n'
    ensures TrimEnd(base + newlines) == base && TrailingNewlines(base + newlines) == |newlines|
    decreases |newlines|
  {
    var t := base + newlines;
    if newlines == "" {
      assert t == base;
    } else {
      assert t[..|t| - 1] == base + newlines[..|newlines| - 1];
      TrimEndPlain(base, newlines[..|newlines| - 1]);
      assert t[|t| - 1] == newlines[|newlines| - 1];
      assert t[..|base|] == base;
    }
  }

  lemma UserTextTrimmed(t: string, newlines: string)
    requires UserText(t) && forall i :: 0 <= i < |newlines| ==> newlines[i] == '\n'
    ensures UserText(TrimEnd(t) + newlines)
  {
    hide IsBegin, IsEnd, Lines, TrailingNewlines;
    var u := TrimEnd(t) + newlines;
    forall l | l in Lines(u)
      ensures !MarkerLine(l)
    {
      MarkersNotEmpty();
      NonEmptyMembers(Lines(u), l);
      NonEmptyMembers(Lines(t), l);
      ContentOfTrimEnd(t, newlines);
    }
  }

  lemma TrimmedNotEmpty(user: string)
    requires !AllSpace(user)
    ensures TrimEnd(user) != "" && TrimEnd(user)[|TrimEnd(user)| - 1] != '\n'
    ensures forall newlines: string :: !AllSpace(TrimEnd(user) + newlines)
  {
    var b := TrimEnd(user);
    var i :| 0 <= i < |user| && !IsSpace(user[i]);
    assert IsSpace('\n');
    assert i < |b|;
    forall newlines: string
      ensures !AllSpace(b + newlines)
    {
      assert (b + newlines)[i] == user[i];
    }
  }

  lemma ContainsLonger(a: string, b: string, w: string)
    requires Contains(a, w) && a <= b
    ensures Contains(b, w)
  {
    var i :| 0 <= i <= |a| && OccursAt(a, w, i);
    assert b[i..i + |w|] == a[i..i + |w|];
    assert OccursAt(b, w, i);
  }

  /** A block does not end in a newline, so trailing newlines hold no part of it. */
  lemma BlockInTrimmed(t: string, body: seq<string>)
    requires Contains(t, Block(body))
    ensures Contains(TrimEnd(t), Block(body))
  {
    hide TrailingNewlines, Block, TrimEnd;
    var block, b := Block(body), TrimEnd(t);
    var i := BlockFound(t, body);
    BlockEnds(body);
    TrimEndRest(t);
    TrimEndPrefix(t);
    assert t[i + |block| - 1] == t[i..i + |block|][|block| - 1];
    assert b[i..i + |block|] == t[i..i + |block|];
    assert OccursAt(b, block, i);
  }

  lemma BlockEnds(body: seq<string>)
    ensures Block(body) != "" && Block(body)[|Block(body)| - 1] == '>'
  {
    hide Unlines;
  }

  /** The same text up to trailing newlines holds the same blocks. */
  lemma SameBlocks(t: string, user: string, body: seq<string>)
    requires TrimEnd(t) == TrimEnd(user) && Contains(t, Block(body))
    ensures Contains(user, Block(body))
  {
    hide *;
    BlockInTrimmed(t, body);
    TrimEndPrefix(user);
    ContainsLonger(TrimEnd(user), user, Block(body));
  }

  lemma TrimEndPrefix(t: string)
    ensures TrimEnd(t) <= t
  {
    hide TrailingNewlines;
  }

  /** Writing onto text that holds no block. */
  lemma AdoptUserText(file: Option<string>, user: string, body: seq<string>)
    requires !AllSpace(user) && UserOnly(file, user) && GoodBody(body) && !Contains(user, Block(body))
    ensures WithBlock(Adopted(file, Block(body)), user, body)
  {
    hide *;
    UserOnlyFacts(file, user);
    if Contains(file.value, Block(body)) {
      SameBlocks(file.value, user, body);
    }
    StripIdentity(file.value);
    TrimmedNotEmpty(user);
    AdoptWrites(file, user, body);
  }

  lemma UserOnlyFacts(file: Option<string>, user: string)
    requires UserOnly(file, user)
    ensures file.Some? && TrimEnd(file.value) == TrimEnd(user)
    ensures UserText(file.value) && NoMarkerLines(Lines(file.value))
  {
  }

  lemma AdoptWrites(file: Option<string>, user: string, body: seq<string>)
    requires file.Some? && !Contains(file.value, Block(body)) && GoodBody(body)
    requires TrimEnd(Strip(file.value)) == TrimEnd(user) != ""
    ensures WithBlock(Adopted(file, Block(body)), user, body)
  {
    hide Strip, Contains, TrailingNewlines, Unlines;
  }

  /** Removing the block that was written. */
  lemma StripWithBlock(file: Option<string>, user: string, body: seq<string>)
    requires UserText(user) && !AllSpace(user) && WithBlock(file, user, body)
    ensures file.Some? && Strip(file.value) == TrimEnd(user) + "\n\n"
    ensures UserOnly(Some(Strip(file.value)), user)
    ensures Strip(file.value) != file.value
  {
    hide Lines, Strip, TrailingNewlines, IsBegin, IsEnd, Unlines, TrimEnd;
    var base := TrimEnd(user) + "\n\n";
    TrimmedNotEmpty(user);
    TrimEndPlain(TrimEnd(user), "\n\n");
    UserTextTrimmed(user, "\n\n");
    StripWritten(base, body);
    assert |file.value| > |base|;
  }

  lemma AdoptOverBlock(file: Option<string>, user: string, body: seq<string>, body': seq<string>)
    requires UserText(user) && !AllSpace(user) && WithBlock(file, user, body) && GoodBody(body')
    ensures WithBlock(Adopted(file, Block(body')), user, body) || WithBlock(Adopted(file, Block(body')), user, body')
  {
    hide *;
    StripWithBlock(file, user, body);
    AdoptUnfolds(file, body');
    UserOnlyFacts(Some(Strip(file.value)), user);
    TrimmedNotEmpty(user);
    if !Contains(file.value, Block(body')) {
      AdoptWrites(file, user, body');
    }
  }

  lemma AdoptUnfolds(file: Option<string>, body: seq<string>)
    requires file.Some?
    ensures Contains(file.value, Block(body)) ==> Adopted(file, Block(body)) == file
  {
    hide Contains, Strip, Block;
  }

  lemma UnadoptBlock(file: Option<string>, user: string, body: seq<string>, isLink: bool)
    requires UserText(user) && !AllSpace(user) && WithBlock(file, user, body)
    ensures UserOnly(Unadopted(file, isLink), user)
  {
    hide Lines, Strip, TrailingNewlines, IsBegin, IsEnd, Unlines, UserText, Block, IsSpace;
    StripWithBlock(file, user, body);
    TrimmedNotEmpty(user);
  }

  lemma UnadoptUserText(file: Option<string>, user: string, isLink: bool)
    requires UserOnly(file, user)
    ensures Unadopted(file, isLink) == file
  {
    hide Lines, Strip, TrailingNewlines, IsBegin, IsEnd;
    UserOnlyFacts(file, user);
    StripIdentity(file.value);
  }

  /** No block a run adopts stands in the user's text already. */
  ghost predicate Unclaimed(user: string, ops: seq<Op>) {
    forall i :: 0 <= i < |ops| && ops[i].Adopt? ==> !Contains(user, Block(ops[i].body))
  }

  ghost predicate AdoptedIn(file: Option<string>, user: string, ops: seq<Op>, i: nat) {
    i < |ops| && ops[i].Adopt? && WithBlock(file, user, ops[i].body)
  }

  /** The file after a run: managed if the last operation adopted, else the user's alone. */
  ghost predicate HoldsAfter(file: Option<string>, user: string, ops: seq<Op>) {
    if ops != [] && ops[|ops| - 1].Adopt? then exists i: nat :: AdoptedIn(file, user, ops, i)
    else UserOnly(file, user)
  }

  lemma StepHolds(file: Option<string>, user: string, ops: seq<Op>, op: Op, isLink: bool)
    requires UserText(user) && !AllSpace(user) && HoldsAfter(file, user, ops)
    requires op.Adopt? ==> GoodBody(op.body) && !Contains(user, Block(op.body))
    ensures HoldsAfter(Apply(file, op, isLink), user, ops + [op])
  {
    hide UserOnly, WithBlock, UserText, AllSpace, Adopted, Unadopted, Block, GoodBody, Contains;
    var next, all := Apply(file, op, isLink), ops + [op];
    if ops != [] && ops[|ops| - 1].Adopt? {
      var i: nat :| AdoptedIn(file, user, ops, i);
      var body := ops[i].body;
      if op.Adopt? {
        AdoptOverBlock(file, user, body, op.body);
        assert AdoptedIn(next, user, all, i) || AdoptedIn(next, user, all, |ops|);
      } else {
        UnadoptBlock(file, user, body, isLink);
      }
    } else if op.Adopt? {
      AdoptUserText(file, user, op.body);
      assert AdoptedIn(next, user, all, |ops|);
    } else {
      UnadoptUserText(file, user, isLink);
    }
  }

  /** Whatever was run, the file holds the user's text up to trailing newlines: with one
      managed block, adopted in the run, when the last operation adopted, else alone. */
  lemma {:induction false} UserTextSurvives(user: string, ops: seq<Op>, isLink: bool)
    requires UserText(user) && !AllSpace(user) && GoodOps(ops) && Unclaimed(user, ops)
    ensures HoldsAfter(Run(Some(user), ops, isLink), user, ops)
  {
    hide HoldsAfter, UserText, AllSpace, Apply, GoodBody, Contains, Block;
    if ops == [] {
      StartsUserOnly(user);
    } else {
      var before := ops[..|ops| - 1];
      UserTextSurvives(user, before, isLink);
      StepHolds(Run(Some(user), before, isLink), user, before, ops[|ops| - 1], isLink);
      assert before + [ops[|ops| - 1]] == ops;
    }
  }

  lemma StartsUserOnly(user: string)
    requires UserText(user)
    ensures HoldsAfter(Some(user), user, [])
  {
  }

  // ---------- ... and when that block is the one last adopted ----------

  /** The lines of `body'` and then END open a longer `body`. */
  ghost predicate Hides(body: seq<string>, body': seq<string>) {
    exists k :: 0 <= k < |body| && body' == body[..k] && StartsWith(body[k], END)
  }

  lemma MarkerInLine(l: string)
    requires EndsWith(l, BEGIN)
    ensures HasBegin(l) && l != END && l != ""
  {
    hide BeginMarkerLength;
    BeginLength();
    assert l[|l| - |BEGIN|..] == BEGIN;
  }

  lemma BeginLength()
    ensures BeginMarkerLength(BEGIN) > 0
  {
    BeginIsBegin();
    assert DropBlanks(BEGIN) == BEGIN;
  }

  /** END at the head of a text stands within its first line. */
  lemma EndWithinLine(line: string, more: string)
    requires END <= line + "\n" + more
    ensures StartsWith(line, END)
  {
    hide IsBegin, IsEnd;
    SentinelLines();
    var whole := line + "\n" + more;
    assert whole[|line|] == '\n';
    assert END == whole[..|END|];
    forall k | 0 <= k < |END|
      ensures whole[k] != '\n'
    {
      assert whole[k] == END[k] && END[k] in END;
    }
    assert |END| <= |line| && line[..|END|] == whole[..|END|];
  }

  lemma FirstLinesAgree(a: string, more: string, b: string, more': string)
    requires NewlineFree(a) && NewlineFree(b)
    requires b + "\n" + more' <= a + "\n" + more
    ensures a == b && more' <= more
  {
    hide LineEnd;
    var whole, part := a + "\n" + more, b + "\n" + more';
    assert part == whole[..|part|];
    assert whole[0..|a|] == a && whole[|a|] == '\n';
    assert whole[0..|b|] == part[0..|b|] == b && whole[|b|] == part[|b|] == '\n';
    LineEndIs(whole, 0, |a|);
    LineEndIs(whole, 0, |b|);
    assert more' == part[|a| + 1..] && more == whole[|a| + 1..];
  }

  /** The text behind the BEGIN line. */
  function Inner(body: seq<string>, tail: string): string {
    Unlines(body) + END + tail
  }

  lemma BodyStep(body: seq<string>, tail: string)
    ensures body != [] ==> Inner(body, tail) == body[0] + "\n" + Inner(body[1..], tail)
    ensures body == [] ==> Inner(body, tail) == END + tail
  {
  }

  lemma GoodFirst(body: seq<string>)
    requires GoodBody(body) && body != []
    ensures NewlineFree(body[0]) && body[0] != END && body[0] != BEGIN && GoodBody(body[1..])
  {
    hide IsBegin, IsEnd, HasBegin, EndsWith;
    SentinelLines();
    if body[0] == BEGIN {
      WholeSuffix(BEGIN);
      MarkerInLine(BEGIN);
    }
  }

  lemma WholeSuffix(s: string)
    ensures EndsWith(s, s)
  {
  }

  /** Where the inner text of one body opens that of another, the bodies are equal or
      the longer one hides the shorter. */
  lemma {:induction false} BodyPrefix(body: seq<string>, body': seq<string>)
    requires GoodBody(body) && GoodBody(body')
    requires Inner(body', "") <= Inner(body, "\n")
    ensures body == body' || Hides(body, body')
    decreases |body|
  {
    hide GoodBody, Inner, StartsWith, IsBegin, IsEnd;
    SentinelLines();
    BodyStep(body, "\n");
    BodyStep(body', "");
    if body' == [] {
      assert END + "" == END;
      if body != [] {
        EndWithinLine(body[0], Inner(body[1..], "\n"));
        assert body' == body[..0];
      }
    } else {
      GoodFirst(body');
      if body == [] {
        assert END + "\n" + "" == END + "\n";
        FirstLinesAgree(END, "", body'[0], Inner(body'[1..], ""));
      } else {
        GoodFirst(body);
        FirstLinesAgree(body[0], Inner(body[1..], "\n"), body'[0], Inner(body'[1..], ""));
        BodyPrefix(body[1..], body'[1..]);
        SameFirst(body, body');
      }
    }
  }

  lemma SameFirst(body: seq<string>, body': seq<string>)
    requires body != [] && body' != [] && body[0] == body'[0]
    requires body[1..] == body'[1..] || Hides(body[1..], body'[1..])
    ensures body == body' || Hides(body, body')
  {
    hide StartsWith;
    if body[1..] == body'[1..] {
      assert body == [body[0]] + body[1..] == body';
    } else {
      var k :| 0 <= k < |body[1..]| && body'[1..] == body[1..][..k] && StartsWith(body[1..][k], END);
      assert body' == [body'[0]] + body'[1..] == body[..k + 1];
    }
  }

  /** A hidden body's inner text does open the other's, and is shorter. */
  lemma {:induction false} HiddenPrefix(body: seq<string>, body': seq<string>, k: nat)
    requires k < |body| && body' == body[..k] && StartsWith(body[k], END)
    ensures Inner(body', "") <= Inner(body, "\n") && |Inner(body', "")| < |Inner(body, "")|
    decreases k
  {
    hide Inner;
    BodyStep(body, "\n");
    BodyStep(body, "");
    BodyStep(body', "");
    if k > 0 {
      assert body[1..][..k - 1] == body'[1..] && body[1..][k - 1] == body[k];
      HiddenPrefix(body[1..], body'[1..], k - 1);
      PrefixBehind(body[0] + "\n", Inner(body'[1..], ""), Inner(body[1..], "\n"));
    } else {
      assert END + "" == END;
      assert body[0][..|END|] == END;
      BodyStep(body[1..], "\n");
      PrefixOfLonger(END, body[0], "\n" + Inner(body[1..], "\n"));
      assert body[0] + ("\n" + Inner(body[1..], "\n")) == body[0] + "\n" + Inner(body[1..], "\n");
    }
  }

  lemma PrefixBehind(head: string, a: string, b: string)
    requires a <= b
    ensures head + a <= head + b
  {
  }

  lemma PrefixOfLonger(a: string, b: string, c: string)
    requires a <= b
    ensures a <= b + c
  {
  }

  lemma NewlineFreeAt(s: string, more: string)
    requires NewlineFree(s)
    ensures forall q :: 0 <= q < |s| ==> (s + more)[q] != '\n'
  {
    forall q | 0 <= q < |s|
      ensures (s + more)[q] != '\n'
    {
      assert (s + more)[q] == s[q] && s[q] in s;
    }
  }

  /** A newline within the inner text ends a line of the body. */
  lemma {:induction false} InnerFrom(body: seq<string>, k: nat) returns (m: nat)
    requires GoodBody(body) && k <= |Inner(body, "")| && (k == 0 || Inner(body, "")[k - 1] == '\n')
    ensures m <= |body| && Inner(body, "")[k..] == Inner(body[m..], "")
    decreases |body|
  {
    hide Inner, GoodBody, IsBegin, IsEnd;
    m := 0;
    if k == 0 {
      assert Inner(body, "")[0..] == Inner(body, "") && body[0..] == body;
    } else {
      BodyStep(body, "");
      SentinelLines();
      if body == [] {
        NewlineFreeAt(END, "");
      } else {
        GoodFirst(body);
        var n := |body[0]| + 1;
        var rest := Inner(body[1..], "");
        assert Inner(body, "") == body[0] + ("\n" + rest);
        NewlineFreeAt(body[0], "\n" + rest);
        assert forall q :: n <= q < |Inner(body, "")| ==> Inner(body, "")[q] == rest[q - n];
        m := InnerFrom(body[1..], k - n);
        assert Inner(body, "")[k..] == rest[k - n..];
        assert body[1..][m..] == body[m + 1..];
        m := m + 1;
      }
    }
  }

  /** No inner text opens with the BEGIN line. */
  lemma InnerNotBegin(body: seq<string>, rest: string)
    requires GoodBody(body)
    ensures !(Inner(body, "") <= BEGIN + "\n" + rest)
  {
    hide GoodBody, Inner, IsBegin, IsEnd;
    SentinelLines();
    BodyStep(body, "");
    if Inner(body, "") <= BEGIN + "\n" + rest {
      if body == [] {
        assert END + "" == END;
        EndWithinLine(BEGIN, rest);
        BeginUnlikeEnd();
      } else {
        GoodFirst(body);
        FirstLinesAgree(BEGIN, rest, body[0], Inner(body[1..], ""));
      }
    }
  }

  lemma BeginUnlikeEnd()
    ensures !StartsWith(BEGIN, END)
  {
    assert BEGIN[20] == 'b' && END[20] == 'e';
    assert BEGIN[..|END|][20] == BEGIN[20];
  }

  lemma BlockInner(body: seq<string>)
    ensures Block(body) == BEGIN + "\n" + Inner(body, "")
  {
    hide Unlines;
    assert Unlines(body) + END + "" == Unlines(body) + END;
  }

  /** An occurrence of `head`, a newline and `inner` across the end of `base`, itself the
      end of a line, lies across the end of a line of `inner`. */
  lemma Straddles(base: string, more: string, head: string, inner: string, i: nat) returns (k: nat)
    requires NewlineFree(head) && base != "" && base[|base| - 1] == '\n'
    requires i < |base| < i + |head + ("\n" + inner)|
    requires OccursAt(base + more, head + ("\n" + inner), i)
    ensures k <= |inner| && (k == 0 || inner[k - 1] == '\n') && inner[k..] <= more
  {
    var t, u, n := base + more, head + ("\n" + inner), |base|;
    assert t[i..i + |u|] == u;
    assert u[n - 1 - i] == t[n - 1] == '\n';
    NewlineFreeAt(head, "\n" + inner);
    k := n - i - |head| - 1;
    InnerCut(head, inner, k);
    assert u[n - i..] == t[n..i + |u|] == more[..i + |u| - n];
  }

  lemma InnerCut(head: string, inner: string, k: nat)
    requires k <= |inner|
    ensures var u := head + ("\n" + inner);
      u[|head| + 1 + k..] == inner[k..] && (k > 0 ==> u[|head| + k] == inner[k - 1])
  {
  }

  /** A block that begins before the BEGIN line of another ends before it too. */
  lemma NoStraddle(base: string, rest: string, body: seq<string>, i: nat)
    requires GoodBody(body) && EndsWith(base, "\n\n") && i < |base|
    requires OccursAt(base + (BEGIN + "\n" + rest), Block(body), i)
    ensures OccursAt(base, Block(body), i)
  {
    hide *;
    if i + |Block(body)| > |base| {
      SentinelLines();
      NewlineLast(base);
      BlockInner(body);
      Regroup(BEGIN, "\n", Inner(body, ""));
      var k := Straddles(base, BEGIN + "\n" + rest, BEGIN, Inner(body, ""), i);
      var m := InnerFrom(body, k);
      GoodTail(body, m);
      InnerNotBegin(body[m..], rest);
    } else {
      OccursInFront(base, BEGIN + "\n" + rest, Block(body), i);
    }
  }

  lemma OccursInFront(base: string, more: string, w: string, i: nat)
    requires OccursAt(base + more, w, i) && i + |w| <= |base|
    ensures OccursAt(base, w, i)
  {
    assert base[i..i + |w|] == (base + more)[i..i + |w|];
  }

  lemma GoodTail(body: seq<string>, m: nat)
    requires GoodBody(body) && m <= |body|
    ensures GoodBody(body[m..])
  {
    hide IsEnd, HasBegin, NewlineFree;
  }

  /** A block occurs in a managed file, but not in front, only where that file's block does. */
  lemma BlockBehind(base: string, body: seq<string>, body': seq<string>, i: nat)
    requires GoodBody(body) && i >= |base|
    requires var t := base + (BEGIN + "\n" + Inner(body, "\n"));
      i + |BEGIN| < |t| && t[i..i + |BEGIN|] == BEGIN && t[i + |BEGIN|] == '\n'
    requires base != "" && base[|base| - 1] == '\n'
    ensures i == |base|
  {
    hide GoodBody, Inner, LineEnd, IsBegin, IsEnd, Lines, HasBegin;
    SentinelLines();
    var first, tail := BEGIN + "\n", Inner(body, "\n");
    var t, n, e := base + (first + tail), |base|, i + |BEGIN|;
    var p := LineAround(t, i);
    assert t[p..e] == t[p..i] + BEGIN;
    LineEndIs(t, p, e);
    assert t[n - 1] == '\n';
    forall q | p <= q < i
      ensures t[q] != '\n'
    {
      assert t[q] == t[p..i][q - p] && t[p..i][q - p] in t[p..i];
    }
    assert p >= n;
    if p == n {
      LineEndAfter(base, BEGIN, tail);
    } else {
      InsideBegin(base, tail, p);
      assert t == base + first + tail;
      LineAfterBegin(base + first, body, p);
    }
  }

  lemma {:induction false} LinesOfBody(body: seq<string>)
    requires GoodBody(body)
    ensures Lines(Inner(body, "\n")) == body + [END, ""]
  {
    hide Lines, GoodBody, Inner, IsBegin, IsEnd;
    BodyStep(body, "\n");
    SentinelLines();
    if body == [] {
      assert END + "\n" == END + "\n" + "";
      LinesOfConcat(END, "");
      LinesOfLine(END);
      LinesOfLine("");
    } else {
      GoodFirst(body);
      LinesOfConcat(body[0], Inner(body[1..], "\n"));
      LinesOfLine(body[0]);
      LinesOfBody(body[1..]);
    }
  }

  /** No line of the body or behind it ends in the BEGIN marker. */
  lemma LineAfterBegin(head: string, body: seq<string>, p: nat)
    requires GoodBody(body) && |head| <= p <= |head + Inner(body, "\n")|
    requires p == |head| || LineStart(head + Inner(body, "\n"), p)
    ensures var t := head + Inner(body, "\n"); !EndsWith(t[p..LineEnd(t, p)], BEGIN)
  {
    hide Lines, LineEnd, Inner, HasBegin, EndsWith;
    var u := Inner(body, "\n");
    var l := SuffixLine(head, u, p);
    LinesOfBody(body);
    assert l in body || l == END || l == "";
    if EndsWith(l, BEGIN) {
      MarkerInLine(l);
    }
  }

  /** The line at `p`, behind `head`, is a line of the text behind it. */
  lemma SuffixLine(head: string, u: string, p: nat) returns (l: string)
    requires |head| <= p <= |head + u| && (p == |head| || LineStart(head + u, p))
    ensures l == (head + u)[p..LineEnd(head + u, p)] && l in Lines(u)
  {
    hide Lines, LineEnd;
    var t, q := head + u, p - |head|;
    var e := LineEnd(t, p);
    LineEndBounds(t, p);
    l := t[p..e];
    assert u[q..e - |head|] == l;
    assert e < |t| ==> u[e - |head|] == t[e];
    LineEndIs(u, q, e - |head|);
    assert LineStart(u, q) by { assert q > 0 ==> u[q - 1] == t[p - 1]; }
    LineMember(u, q);
  }

  lemma LineEndBounds(t: string, p: nat)
    requires p <= |t|
    ensures var e := LineEnd(t, p); p <= e <= |t| && NewlineFree(t[p..e]) && (e < |t| ==> t[e] == '\n')
  {
  }

  /** No line starts inside the BEGIN line. */
  lemma InsideBegin(base: string, tail: string, p: nat)
    requires p > |base| && LineStart(base + (BEGIN + "\n" + tail), p)
    ensures p >= |base + (BEGIN + "\n")|
  {
    hide IsBegin, IsEnd;
    SentinelLines();
    var t := base + (BEGIN + "\n" + tail);
    forall k | |base| <= k < |base| + |BEGIN|
      ensures t[k] != '\n'
    {
      assert t[k] == BEGIN[k - |base|] && BEGIN[k - |base|] in BEGIN;
    }
  }

  lemma LineEndAfter(base: string, line: string, tail: string)
    requires NewlineFree(line)
    ensures LineEnd(base + (line + "\n" + tail), |base|) == |base| + |line|
  {
    hide LineEnd;
    var t, e := base + (line + "\n" + tail), |base| + |line|;
    assert t[|base|..e] == line && t[e] == '\n';
    LineEndIs(t, |base|, e);
  }

  lemma BlockParts(base: string, body: seq<string>)
    ensures base + Block(body) + "\n" == base + (BEGIN + "\n" + Inner(body, "\n"))
  {
    hide Unlines;
  }

  lemma AfterPrefix(base: string, first: string, tail: string)
    ensures (base + (first + "\n" + tail))[|base| + |first| + 1..] == tail
  {
  }

  lemma NewlineLast(base: string)
    requires EndsWith(base, "\n\n")
    ensures base != "" && base[|base| - 1] == '\n'
  {
    assert base[|base| - 2..][1] == '\n';
  }

  /** A file written with one block holds another exactly when the first hides it or the
      text in front holds it. */
  lemma OnlyOwnBlock(base: string, body: seq<string>, body': seq<string>)
    requires EndsWith(base, "\n\n") && GoodBody(body) && GoodBody(body')
    ensures Contains(base + Block(body) + "\n", Block(body')) <==>
      Contains(base, Block(body')) || body' == body || Hides(body, body')
  {
    hide *;
    var t := base + Block(body) + "\n";
    if Contains(t, Block(body')) {
      BlockParts(base, body);
      NewlineLast(base);
      var i := BlockFound(t, body');
      if i < |base| {
        NoStraddle(base, Inner(body, "\n"), body', i);
        OccursContained(base, Block(body'), i);
      } else {
        BlockOccurs(t, body', i);
        BlockBehind(base, body, body', i);
        AfterPrefix(base, BEGIN, Inner(body, "\n"));
        BodyPrefix(body, body');
      }
    }
    if Contains(base, Block(body')) {
      PrefixOfLonger(base, base, Block(body) + "\n");
      Regroup(base, Block(body), "\n");
      ContainsLonger(base, t, Block(body'));
    }
    if body' == body || Hides(body, body') {
      OwnOrHidden(base, body, body');
    }
  }

  lemma Regroup(a: string, b: string, c: string)
    ensures a + (b + c) == a + b + c && a <= a
  {
  }

  lemma OccursContained(t: string, w: string, i: nat)
    requires OccursAt(t, w, i)
    ensures Contains(t, w)
  {
  }

  lemma OwnOrHidden(base: string, body: seq<string>, body': seq<string>)
    requires body' == body || Hides(body, body')
    ensures Contains(base + Block(body) + "\n", Block(body'))
  {
    hide Inner, Block, StartsWith, Contains;
    var t := base + Block(body) + "\n";
    BlockParts(base, body);
    BlockInner(body');
    InnerOpens(body, body');
    PrefixBehind(BEGIN + "\n", Inner(body', ""), Inner(body, "\n"));
    OccursBehind(base, BEGIN + "\n" + Inner(body, "\n"), Block(body'));
    OccursContained(t, Block(body'), |base|);
  }

  lemma InnerOpens(body: seq<string>, body': seq<string>)
    requires body' == body || Hides(body, body')
    ensures Inner(body', "") <= Inner(body, "\n")
  {
    hide Unlines, StartsWith;
    if body' != body {
      var k :| 0 <= k < |body| && body' == body[..k] && StartsWith(body[k], END);
      HiddenPrefix(body, body', k);
    }
  }

  lemma OccursBehind(base: string, u: string, w: string)
    requires w <= u
    ensures OccursAt(base + u, w, |base|)
  {
    assert (base + u)[|base|..|base| + |w|] == u[..|w|];
  }

  /** Adopting over a stale block replaces it exactly when the stale one does not hide the
      new; a hidden one leaves the file as it is. */
  lemma AdoptReplacesIff(file: Option<string>, user: string, body: seq<string>, body': seq<string>)
    requires UserText(user) && !AllSpace(user) && WithBlock(file, user, body)
    requires GoodBody(body') && !Contains(user, Block(body'))
    ensures WithBlock(Adopted(file, Block(body')), user, body') <==> !Hides(body, body')
    ensures Hides(body, body') ==> Adopted(file, Block(body')) == file
  {
    hide *;
    var base := TrimEnd(user) + "\n\n";
    WithBlockText(file, user, body);
    StripWithBlock(file, user, body);
    AdoptUnfolds(file, body');
    UserOnlyFacts(Some(Strip(file.value)), user);
    TrimmedNotEmpty(user);
    TrimEndPlain(TrimEnd(user), "\n\n");
    if Contains(base, Block(body')) {
      SameBlocks(base, user, body');
    }
    OnlyOwnBlock(base, body, body');
    if Hides(body, body') {
      HiddenDiffers(file, user, body, body');
    } else if !Contains(file.value, Block(body')) {
      AdoptWrites(file, user, body');
    }
  }

  lemma HiddenDiffers(file: Option<string>, user: string, body: seq<string>, body': seq<string>)
    requires WithBlock(file, user, body) && Hides(body, body')
    ensures !WithBlock(file, user, body')
  {
    hide *;
    HiddenShorter(body, body');
    WithBlockText(file, user, body);
    if WithBlock(file, user, body') {
      WithBlockText(file, user, body');
      FrameLength(TrimEnd(user), Block(body));
      FrameLength(TrimEnd(user), Block(body'));
    }
  }

  lemma FrameLength(base: string, block: string)
    ensures |base + "\n\n" + block + "\n"| == |base| + |block| + 3
  {
  }

  lemma HiddenShorter(body: seq<string>, body': seq<string>)
    requires Hides(body, body')
    ensures |Block(body')| < |Block(body)|
  {
    hide StartsWith, Inner, Block;
    var k :| 0 <= k < |body| && body' == body[..k] && StartsWith(body[k], END);
    HiddenPrefix(body, body', k);
    BlockInner(body);
    BlockInner(body');
  }

  lemma WithBlockText(file: Option<string>, user: string, body: seq<string>)
    requires WithBlock(file, user, body)
    ensures file.Some? && file.value == TrimEnd(user) + "\n\n" + Block(body) + "\n" && GoodBody(body)
    ensures EndsWith(TrimEnd(user) + "\n\n", "\n\n")
    ensures forall i :: 0 <= i < |"\n\n"| ==> "\n\n"[i] == '\n'
  {
    hide TrailingNewlines, Unlines;
  }

  /** After a run that ends in an adopt, the one block in the file is the block just
      adopted, unless a body adopted earlier hides it. */
  lemma LastAdoptedBlock(user: string, ops: seq<Op>, isLink: bool)
    requires UserText(user) && !AllSpace(user) && GoodOps(ops) && Unclaimed(user, ops)
    requires ops != [] && ops[|ops| - 1].Adopt?
    requires forall i :: 0 <= i < |ops| && ops[i].Adopt? ==> !Hides(ops[i].body, ops[|ops| - 1].body)
    ensures WithBlock(Run(Some(user), ops, isLink), user, ops[|ops| - 1].body)
  {
    hide UserOnly, WithBlock, UserText, AllSpace, Adopted, Unadopted, Block, GoodBody, Hides, Contains;
    var before := ops[..|ops| - 1];
    var file, body := Run(Some(user), before, isLink), ops[|ops| - 1].body;
    UserTextSurvives(user, before, isLink);
    if before != [] && before[|before| - 1].Adopt? {
      var i: nat :| AdoptedIn(file, user, before, i);
      AdoptReplacesIff(file, user, before[i].body, body);
    } else {
      AdoptUserText(file, user, body);
    }
  }

  lemma WrittenContains(base: string, block: string)
    ensures Contains(Written(base, block), block)
  {
    var head := if base == "" then "" else base + "\n\n";
    var t := Written(base, block);
    assert t == head + block + "\n";
    assert OccursAt(t, block, |head|);
  }

  /** Adopting twice is adopting once, whatever the file held. */
  lemma AdoptIdempotent(file: Option<string>, body: seq<string>)
    ensures var once := Adopted(file, Block(body));
      Adopted(once, Block(body)) == once
  {
    hide Strip, TrailingNewlines, Unlines, Block, Written, Contains;
    var current := if file.Some? then file.value else "";
    WrittenContains(TrimEnd(Strip(current)), Block(body));
  }

  // ---------- isAdopted's marker test ----------

  lemma LinesOfFrame(base: string, first: string, inner: string)
    requires NewlineFree(first)
    ensures Lines(base + "\n" + ("" + "\n" + (first + "\n" + (inner + "\n" + ""))))
         == Lines(base) + ([""] + ([first] + (Lines(inner) + [""])))
  {
    hide Lines;
    LinesOfLine("");
    LinesOfLine(first);
    LinesOfConcat(inner, "");
    LinesOfConcat(first, inner + "\n" + "");
    LinesOfConcat("", first + "\n" + (inner + "\n" + ""));
    LinesOfConcat(base, "" + "\n" + (first + "\n" + (inner + "\n" + "")));
  }

  lemma FrameText(base: string, first: string, lines: string, last: string)
    ensures base + "\n\n" + (first + "\n" + lines + last) + "\n"
         == base + "\n" + ("" + "\n" + (first + "\n" + (lines + last + "\n" + "")))
  {
  }

  lemma LinesOfBlock(base: string, body: seq<string>)
    ensures Lines(base + "\n\n" + Block(body) + "\n")
         == Lines(base) + ([""] + ([BEGIN] + (Lines(Unlines(body) + END) + [""])))
  {
    hide Unlines, Lines, IsBegin, IsEnd;
    SentinelLines();
    FrameText(base, BEGIN, Unlines(body), END);
    LinesOfFrame(base, BEGIN, Unlines(body) + END);
  }

  lemma {:induction false} EndInBlock(body: seq<string>)
    ensures END in Lines(Unlines(body) + END)
  {
    hide IsEnd;
    if body == [] {
      SentinelLines();
      assert Unlines(body) + END == END;
      LinesOfLine(END);
    } else {
      EndInBlock(body[1..]);
      var rest := Unlines(body[1..]) + END;
      assert Unlines(body) + END == body[0] + "\n" + rest;
      LinesOfConcat(body[0], rest);
    }
  }

  lemma ShowsMarkersIff(t: string)
    ensures ShowsMarkers(t) <==>
      && (exists l, a, m, z :: l in Lines(t) && BeginShape(l, a, m, z))
      && (exists l, a, z :: l in Lines(t) && EndShape(l, a, z))
  {
    hide Lines, IsBegin, IsEnd, BeginShape, EndShape;
    forall l | l in Lines(t)
      ensures IsBegin(l) <==> exists a, m, z :: BeginShape(l, a, m, z)
      ensures IsEnd(l) <==> exists a, z :: EndShape(l, a, z)
    {
      BeginLineIff(l);
      EndLineIff(l);
    }
  }

  /** The test is true of a file with the block and false of user text. */
  lemma MarkerTest(file: Option<string>, user: string)
    requires file.Some?
    ensures ShowsMarkers(file.value) <==>
      && (exists l, a, m, z :: l in Lines(file.value) && BeginShape(l, a, m, z))
      && (exists l, a, z :: l in Lines(file.value) && EndShape(l, a, z))
    ensures UserOnly(file, user) ==> !ShowsMarkers(file.value)
    ensures forall body :: WithBlock(file, user, body) ==> ShowsMarkers(file.value)
  {
    hide Lines, IsBegin, IsEnd, TrailingNewlines, Unlines, Block, TrimEnd, AllSpace;
    ShowsMarkersIff(file.value);
    if UserOnly(file, user) {
      UserOnlyFacts(file, user);
    }
    forall body | WithBlock(file, user, body)
      ensures ShowsMarkers(file.value)
    {
      SentinelLines();
      LinesOfBlock(TrimEnd(user), body);
      EndInBlock(body);
      assert BEGIN in Lines(file.value) && END in Lines(file.value);
    }
  }

  // ---------- White space alone: exactly when the file goes ----------

  /** What stripping the block just written under any stripped text leaves. */
  lemma StripOfWritten(clean: string, body: seq<string>)
    requires NoMarkerLines(Lines(clean)) && GoodBody(body)
    ensures Strip(Written(TrimEnd(clean), Block(body))) == if TrimEnd(clean) == "" then "" else TrimEnd(clean) + "\n\n"
    ensures Strip(Written(TrimEnd(clean), Block(body))) != Written(TrimEnd(clean), Block(body))
  {
    hide Lines, Strip, TrailingNewlines, IsBegin, IsEnd, Unlines;
    var b := TrimEnd(clean);
    var base := if b == "" then "" else b + "\n\n";
    if b != "" {
      TrimEndPlain(b, "\n\n");
      UserTextTrimmed(clean, "\n\n");
    } else {
      UserTextTrimmed(clean, "");
      assert b + "" == "";
    }
    StripWritten(base, body);
  }

  lemma BlockNotSpace(t: string, body: seq<string>)
    requires Contains(t, Block(body))
    ensures !AllSpace(t)
  {
    hide IsSpace;
    var block := Block(body);
    var i :| 0 <= i <= |t| && OccursAt(t, block, i);
    assert t[i] == t[i..i + |block|][0] == '<';
    assert !IsSpace('<') by { AngleNotSpace(); }
  }

  lemma AngleNotSpace()
    ensures !IsSpace('<')
  {
  }

  /** Whatever CLAUDE.md held, adopting and then unadopting removes it exactly when it is
      no link and nothing but white space is left of it without its marker lines and
      blocks; for a text with no marker line, when the text itself is white space. */
  lemma RoundTripRemovesIff(file: Option<string>, body: seq<string>, isLink: bool)
    requires GoodBody(body)
    ensures var current := if file.Some? then file.value else "";
      && (Unadopted(Adopted(file, Block(body)), isLink) == None <==> AllSpace(Strip(current)) && !isLink)
      && (NoMarkerLines(Lines(current)) ==> Strip(current) == current)
  {
    hide Strip, Block, TrailingNewlines, IsSpace, Contains, Written, Lines, AllSpace, GoodBody;
    var current := if file.Some? then file.value else "";
    if Contains(current, Block(body)) {
      BlockNotSpace(current, body);
      BlockNotEmpty(current, body);
    } else {
      StripLeavesNoMarkers(current);
      StripOfWritten(Strip(current), body);
      SpaceUpToNewlines(Strip(current));
    }
    if NoMarkerLines(Lines(current)) {
      StripIdentity(current);
    }
  }

  lemma BlockNotEmpty(t: string, body: seq<string>)
    requires Contains(t, Block(body))
    ensures t != ""
  {
    BlockNotSpace(t, body);
  }

  lemma SpaceUpToNewlines(user: string)
    ensures var after := if TrimEnd(user) == "" then "" else TrimEnd(user) + "\n\n";
      AllSpace(after) <==> AllSpace(user)
  {
    hide TrailingNewlines;
    assert IsSpace('\n');
    var b := TrimEnd(user);
    assert forall i :: 0 <= i < |b| ==> user[i] == b[i];
    TrimEndRest(user);
    if b != "" {
      assert forall i :: 0 <= i < |b| ==> (b + "\n\n")[i] == b[i];
    }
  }

  lemma TrimEndRest(t: string)
    ensures forall i :: |TrimEnd(t)| <= i < |t| ==> t[i] == '\n'
  {
  }
}
