/** Strings, and the lines of a text whose only line terminator is '\n'. */
module Text {

  // ---------- Strings ----------

  predicate StartsWith(s: string, w: string) {
    |w| <= |s| && s[..|w|] == w
  }

  predicate EndsWith(s: string, w: string) {
    |w| <= |s| && s[|s| - |w|..] == w
  }

  predicate OccursAt(s: string, w: string, i: nat) {
    i + |w| <= |s| && s[i..i + |w|] == w
  }

  predicate Contains(s: string, w: string) {
    exists i :: 0 <= i <= |s| && OccursAt(s, w, i)
  }

  function Join(parts: seq<string>, sep: string): string {
    if parts == [] then "" else if |parts| == 1 then parts[0] else parts[0] + sep + Join(parts[1..], sep)
  }

  /** Rust's `char::is_whitespace`. */
  predicate IsWhitespace(c: char) {
    c in {'\t', '\n', '\U{000B}', '\U{000C}', '\r', ' ', '\U{0085}', '\U{00A0}', '\U{1680}', '\U{2028}', '\U{2029}',
          '\U{202F}', '\U{205F}', '\U{3000}'}
    || '\U{2000}' <= c <= '\U{200A}'
  }

  /** The Unicode White_Space property, by code point. */
  lemma WhitespaceCodes(c: char)
    ensures IsWhitespace(c) <==>
      || c as int in {32, 133, 160, 5760, 8232, 8233, 8239, 8287, 12288}
      || 9 <= c as int <= 13
      || 8192 <= c as int <= 8202
  {
  }

  // ---------- Lines ----------

  /** One more character in front of a text whose lines are `ls`. */
  function ConsLine(c: char, ls: seq<string>): (r: seq<string>)
    requires ls != []
    ensures r != []
  {
    if c == '\n' then [[]] + ls else [[c] + ls[0]] + ls[1..]
  }

  /** `split("\n")`: always at least one line. */
  function Lines(t: string): (ls: seq<string>)
    ensures ls != []
  {
    if t == [] then [[]] else ConsLine(t[0], Lines(t[1..]))
  }

  /** `"\n".join(ls)`. */
  function JoinLines(ls: seq<string>): string {
    Join(ls, "\n")
  }

  /** Every line followed by its terminator. */
  function Unlines(ls: seq<string>): string {
    if ls == [] then [] else ls[0] + "\n" + Unlines(ls[1..])
  }

  predicate NewlineFree(s: string) {
    '\n' !in s
  }

  /** Index of the end of the line that starts at `p`. */
  function LineEnd(t: string, p: nat): (e: nat)
    requires p <= |t|
    ensures p <= e <= |t| && NewlineFree(t[p..e]) && (e < |t| ==> t[e] == '\n')
    decreases |t| - p
  {
    if p == |t| || t[p] == '\n' then p
    else
      var e := LineEnd(t, p + 1);
      assert t[p..e] == [t[p]] + t[p + 1..e];
      e
  }

  lemma {:induction false} LinesNewlineFree(t: string)
    ensures forall l :: l in Lines(t) ==> NewlineFree(l)
  {
    if t != [] {
      LinesNewlineFree(t[1..]);
      var rest := Lines(t[1..]);
      assert NewlineFree(rest[0]);
      assert t[0] != '\n' ==> NewlineFree([t[0]] + rest[0]);
      assert forall l :: l in rest[1..] ==> l in rest;
    }
  }

  lemma ConsLineConcat(c: char, x: seq<string>, y: seq<string>)
    requires x != []
    ensures ConsLine(c, x + y) == ConsLine(c, x) + y
  {
    var z := x + y;
    assert z[0] == x[0] && z[1..] == x[1..] + y;
  }

  /** A newline separates the lines on its two sides. */
  lemma {:induction false} LinesOfConcat(a: string, b: string)
    ensures Lines(a + "\n" + b) == Lines(a) + Lines(b)
  {
    hide ConsLine;
    var t := a + "\n" + b;
    if a == [] {
      assert t[0] == '\n' && t[1..] == b;
      NewlineFirst(b);
    } else {
      assert t[0] == a[0] && t[1..] == a[1..] + "\n" + b;
      LinesOfConcat(a[1..], b);
      ConsLineConcat(a[0], Lines(a[1..]), Lines(b));
    }
  }

  lemma NewlineFirst(b: string)
    ensures ConsLine('\n', Lines(b)) == Lines("") + Lines(b)
  {
  }

  lemma {:induction false} LinesOfLine(l: string)
    requires NewlineFree(l)
    ensures Lines(l) == [l]
  {
    if l != [] {
      LinesOfLine(l[1..]);
      assert l[0] in l;
      assert [l[0]] + l[1..] == l;
    }
  }

  lemma {:induction false} LinesOfJoin(ls: seq<string>)
    requires ls != [] && forall l :: l in ls ==> NewlineFree(l)
    ensures Lines(JoinLines(ls)) == ls
  {
    LinesOfLine(ls[0]);
    if |ls| == 1 {
      assert ls == [ls[0]];
    } else {
      LinesOfJoin(ls[1..]);
      LinesOfConcat(ls[0], JoinLines(ls[1..]));
    }
  }

  lemma {:induction false} JoinOfLines(t: string)
    ensures JoinLines(Lines(t)) == t
  {
    if t != [] {
      JoinOfLines(t[1..]);
      var rest := Lines(t[1..]);
      if t[0] == '\n' {
        assert ([[]] + rest)[1..] == rest;
      } else if |rest| > 1 {
        assert Lines(t)[1..] == rest[1..];
      }
    }
  }

  /** The first line and the rest. */
  lemma LinesAt(t: string, p: nat)
    requires p <= |t|
    ensures var e := LineEnd(t, p);
      Lines(t[p..]) == [t[p..e]] + if e < |t| then Lines(t[e + 1..]) else []
  {
    var e := LineEnd(t, p);
    LinesOfLine(t[p..e]);
    if e < |t| {
      assert t[p..] == t[p..e] + "\n" + t[e + 1..];
      LinesOfConcat(t[p..e], t[e + 1..]);
    } else {
      assert t[p..] == t[p..e];
    }
  }

  /** The lines that hold any character, in order. */
  function NonEmpty(ls: seq<string>): seq<string> {
    if ls == [] then []
    else if ls[0] == [] then NonEmpty(ls[1..])
    else [ls[0]] + NonEmpty(ls[1..])
  }

  lemma {:induction false} NonEmptyConcat(a: seq<string>, b: seq<string>)
    ensures NonEmpty(a + b) == NonEmpty(a) + NonEmpty(b)
  {
    if a == [] {
      assert a + b == b;
    } else {
      assert (a + b)[1..] == a[1..] + b;
      NonEmptyConcat(a[1..], b);
    }
  }

  function Content(t: string): seq<string> {
    NonEmpty(Lines(t))
  }

  /** Text cut where a line starts: its non-empty lines are those of the two parts. */
  lemma ContentOfConcat(a: string, b: string)
    requires a == [] || a[|a| - 1] == '\n'
    ensures Content(a + b) == Content(a) + Content(b)
  {
    if a == [] {
      assert a + b == b;
    } else {
      var c := a[..|a| - 1];
      assert a + b == c + "\n" + b;
      assert a == c + "\n" + "";
      LinesOfConcat(c, b);
      LinesOfConcat(c, "");
      NonEmptyConcat(Lines(c), Lines(b));
      NonEmptyConcat(Lines(c), Lines(""));
    }
  }

  lemma {:induction false} NonEmptyMembers(ls: seq<string>, l: string)
    ensures l in NonEmpty(ls) <==> l in ls && l != []
  {
    if ls != [] {
      NonEmptyMembers(ls[1..], l);
      assert ls == [ls[0]] + ls[1..];
    }
  }

  // ---------- Newlines at the edges ----------

  function LeadingNewlines(t: string): (n: nat)
    ensures n <= |t| && (forall i :: 0 <= i < n ==> t[i] == '\n') && (n < |t| ==> t[n] != '\n')
  {
    if t == [] || t[0] != '\n' then 0 else 1 + LeadingNewlines(t[1..])
  }

  function TrailingNewlines(t: string): (n: nat)
    ensures n <= |t| && (forall i :: |t| - n <= i < |t| ==> t[i] == '\n') && (n < |t| ==> t[|t| - n - 1] != '\n')
  {
    if t == [] || t[|t| - 1] != '\n' then 0 else 1 + TrailingNewlines(t[..|t| - 1])
  }

  function TrimEnd(t: string): string {
    t[..|t| - TrailingNewlines(t)]
  }

  lemma {:induction false} ContentOfNewlines(t: string)
    requires forall i :: 0 <= i < |t| ==> t[i] == '\n'
    ensures Content(t) == []
  {
    if t != [] {
      ContentOfNewlines(t[1..]);
    }
  }

  /** Newlines added or dropped at the start or the end do not touch the content. */
  lemma ContentOfTrimEnd(t: string, newlines: string)
    requires forall i :: 0 <= i < |newlines| ==> newlines[i] == '\n'
    ensures Content(TrimEnd(t) + newlines) == Content(t)
  {
    ContentOfAppended(TrimEnd(t), newlines);
    ContentOfAppended(TrimEnd(t), t[|TrimEnd(t)|..]);
    assert TrimEnd(t) + t[|TrimEnd(t)|..] == t;
  }

  lemma {:induction false} ContentOfAppended(a: string, newlines: string)
    requires forall i :: 0 <= i < |newlines| ==> newlines[i] == '\n'
    ensures Content(a + newlines) == Content(a)
  {
    if newlines == [] {
      assert a + newlines == a;
    } else {
      assert a + newlines == a + "\n" + newlines[1..];
      LinesOfConcat(a, newlines[1..]);
      NonEmptyConcat(Lines(a), Lines(newlines[1..]));
      ContentOfNewlines(newlines[1..]);
    }
  }

  lemma {:induction false} ContentOfDropped(t: string, n: nat)
    requires n <= LeadingNewlines(t)
    ensures Content(t[n..]) == Content(t)
  {
    if n > 0 {
      ContentOfDropped(t, n - 1);
      var u := t[n - 1..];
      assert u[0] == '\n' && u[1..] == t[n..];
    } else {
      assert t[0..] == t;
    }
  }
}
