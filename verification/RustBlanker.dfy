/**
 Blanking of comments and literals in Rust text (scripts/audit-metrics.py): a
 hand-written lexer whose callers rely on every line keeping its place.
 */
module RustBlanker {
  import opened Options
  import opened Text

  // ---------- Where a token that starts at `i` ends ----------

  lemma OccursTwo(t: string, i: nat, s: string)
    requires |s| == 2
    ensures OccursAt(t, s, i) <==> i + 2 <= |t| && t[i] == s[0] && t[i + 1] == s[1]
  {
    if i + 2 <= |t| {
      assert t[i..i + 2] == [t[i], t[i + 1]];
      assert s == [s[0], s[1]];
    }
  }

  lemma CommentStarts(t: string, i: nat)
    ensures OccursAt(t, "//", i) <==> i + 2 <= |t| && t[i] == '/' && t[i + 1] == '/'
    ensures OccursAt(t, "/*", i) <==> i + 2 <= |t| && t[i] == '/' && t[i + 1] == '*'
    ensures OccursAt(t, "*/", i) <==> i + 2 <= |t| && t[i] == '*' && t[i + 1] == '/'
  {
    hide OccursAt;
    OccursTwo(t, i, "//");
    OccursTwo(t, i, "/*");
    OccursTwo(t, i, "*/");
  }

  /** `t.find(s, i)`, with the length of `t` for "not found". */
  function Find(t: string, s: string, i: nat): (j: nat)
    requires i <= |t|
    ensures i <= j <= |t| && (forall k :: i <= k < j ==> !OccursAt(t, s, k)) && (j < |t| ==> OccursAt(t, s, j))
    decreases |t| - i
  {
    if i == |t| || OccursAt(t, s, i) then i else Find(t, s, i + 1)
  }

  /** Scanning a block comment from `j` at nesting `depth`. */
  function BlockEnd(t: string, j: nat, depth: nat): (e: nat)
    requires j <= |t|
    ensures j <= e <= |t|
    decreases |t| - j
  {
    if j == |t| || depth == 0 then j
    else if OccursAt(t, "/*", j) then BlockEnd(t, j + 2, depth + 1)
    else if OccursAt(t, "*/", j) then BlockEnd(t, j + 2, depth - 1)
    else BlockEnd(t, j + 1, depth)
  }

  /** Scanning a string body from `j`: the closing quote, or past the end. */
  function StringQuote(t: string, j: nat): (q: nat)
    requires j <= |t| + 1
    ensures j <= q <= |t| + 1 && (q < |t| ==> t[q] == '"')
    decreases |t| + 1 - j
  {
    if j >= |t| || t[j] == '"' then j
    else if t[j] == '\\' then StringQuote(t, j + 2)
    else StringQuote(t, j + 1)
  }

  /** Number of '#' from `i` on. */
  function Hashes(t: string, i: nat): (n: nat)
    requires i <= |t|
    ensures i + n <= |t| && (forall k :: i <= k < i + n ==> t[k] == '#') && (i + n < |t| ==> t[i + n] != '#')
    decreases |t| - i
  {
    if i < |t| && t[i] == '#' then 1 + Hashes(t, i + 1) else 0
  }

  function Repeat(c: char, n: nat): (s: string)
    ensures |s| == n && forall k :: 0 <= k < n ==> s[k] == c
  {
    seq(n, _ => c)
  }

  predicate OpensRaw(t: string, i: nat)
    requires i < |t|
  {
    t[i] == 'r' && var h := Hashes(t, i + 1); i + 1 + h < |t| && t[i + 1 + h] == '"'
  }

  predicate OpensChar(t: string, i: nat)
    requires i < |t|
  {
    t[i] == '\'' && i + 2 < |t| && t[i + 2] == '\'' && t[i + 1] != '\\'
  }

  /** A comment or literal starts at `i`. */
  predicate Opens(t: string, i: nat)
    requires i < |t|
  {
    OccursAt(t, "//", i) || OccursAt(t, "/*", i) || OpensRaw(t, i) || t[i] == '"' || OpensChar(t, i)
  }

  function AtMost(j: nat, n: nat): nat {
    if j < n then j else n
  }

  /** The end of a raw string whose body starts at `i` behind `h` '#'. */
  function RawEnd(t: string, i: nat, h: nat): (e: nat)
    requires i <= |t|
    ensures i <= e <= |t|
  {
    var close := "\"" + Repeat('#', h);
    var j := Find(t, close, i);
    if j == |t| then |t| else j + |close|
  }

  /** The end of the token that starts at `i`. */
  function TokenEnd(t: string, i: nat): (e: nat)
    requires i < |t| && Opens(t, i)
    ensures i < e <= |t|
  {
    if OccursAt(t, "//", i) then Find(t, "\n", i + 1)
    else if OccursAt(t, "/*", i) then BlockEnd(t, i + 2, 1)
    else if OpensRaw(t, i) then RawEnd(t, i + 2 + Hashes(t, i + 1), Hashes(t, i + 1))
    else if t[i] == '"' then AtMost(StringQuote(t, i + 1) + 1, |t|)
    else i + 3
  }

  // ---------- Blanking ----------

  /** Every character but a newline becomes a space. */
  function Mask(s: string): (r: string)
    ensures |r| == |s|
  {
    seq(|s|, i requires 0 <= i < |s| => if s[i] == '\n' then '\n' else ' ')
  }

  /** The output for the text from `i` on. */
  function Blanked(t: string, i: nat): string
    requires i <= |t|
    decreases |t| - i
  {
    if i == |t| then ""
    else if Opens(t, i) then Mask(t[i..TokenEnd(t, i)]) + Blanked(t, TokenEnd(t, i))
    else [t[i]] + Blanked(t, i + 1)
  }

  function Blank(t: string): string {
    Blanked(t, 0)
  }

  lemma BlockEndStep(t: string, j: nat, depth: nat)
    requires j < |t| && depth > 0
    ensures OccursAt(t, "/*", j) || OccursAt(t, "*/", j) ==> j + 2 <= |t|
    ensures BlockEnd(t, j, depth) ==
      if OccursAt(t, "/*", j) then BlockEnd(t, j + 2, depth + 1)
      else if OccursAt(t, "*/", j) then BlockEnd(t, j + 2, depth - 1)
      else BlockEnd(t, j + 1, depth)
  {
  }

  lemma BlockEndAtEnd(t: string, depth: nat)
    ensures BlockEnd(t, |t|, depth) == |t|
  {
  }

  lemma BlockEndAtZero(t: string, j: nat)
    requires j <= |t|
    ensures BlockEnd(t, j, 0) == j
  {
  }

  method BlockCommentEnd(t: string, i: nat) returns (j: nat)
    requires i + 2 <= |t|
    ensures j == BlockEnd(t, i + 2, 1)
  {
    hide BlockEnd, OccursAt;
    var depth: nat := 1;
    j := i + 2;
    while j < |t| && depth != 0
      invariant j <= |t|
      invariant BlockEnd(t, j, depth) == BlockEnd(t, i + 2, 1)
      decreases |t| - j
    {
      BlockEndStep(t, j, depth);
      if OccursAt(t, "/*", j) {
        depth := depth + 1;
        j := j + 2;
      } else if OccursAt(t, "*/", j) {
        depth := depth - 1;
        j := j + 2;
      } else {
        j := j + 1;
      }
    }
    if depth == 0 {
      BlockEndAtZero(t, j);
    } else {
      BlockEndAtEnd(t, depth);
    }
  }

  method StringLiteralQuote(t: string, i: nat) returns (j: nat)
    requires i < |t|
    ensures j == StringQuote(t, i + 1)
  {
    j := i + 1;
    while j < |t| && t[j] != '"'
      invariant j <= |t| + 1
      invariant StringQuote(t, j) == StringQuote(t, i + 1)
      decreases |t| + 1 - j
    {
      j := j + if t[j] == '\\' then 2 else 1;
    }
  }

  method StripRustCommentsAndStrings(text: string) returns (out: string)
    ensures out == Blank(text)
  {
    hide Blanked, Find, BlockEnd, StringQuote, Hashes, OccursAt, Repeat, Mask;
    out := "";
    var i: nat := 0;
    var n := |text|;
    EmptyFirst(Blanked(text, 0));
    while i < n
      invariant i <= n
      invariant out + Blanked(text, i) == Blanked(text, 0)
      decreases n - i
    {
      ghost var before := out;
      BlankedStep(text, i);
      var c := text[i];
      var j := i;
      if OccursAt(text, "//", i) {
        j := Find(text, "\n", i + 1);
      } else if OccursAt(text, "/*", i) {
        j := BlockCommentEnd(text, i);
      } else if OpensRaw(text, i) {
        var h := Hashes(text, i + 1);
        var close := "\"" + Repeat('#', h);
        j := Find(text, close, i + 2 + h);
        j := if j == n then n else j + |close|;
      } else if c == '"' {
        j := StringLiteralQuote(text, i);
        j := AtMost(j + 1, n);
      } else if OpensChar(text, i) {
        j := i + 3;
      }
      if j > i {
        Associate(out, Mask(text[i..j]), Blanked(text, j));
        out := out + Mask(text[i..j]);
        i := j;
      } else {
        Associate(out, [c], Blanked(text, i + 1));
        out := out + [c];
        i := i + 1;
      }
    }
    BlankedEnd(out, text);
  }

  lemma EmptyFirst(s: string)
    ensures "" + s == s
  {
  }

  lemma BlankedEnd(out: string, t: string)
    ensures out + Blanked(t, |t|) == out
  {
  }

  lemma BlankedDone(t: string)
    ensures Blanked(t, |t|) == ""
  {
  }

  lemma BlankedStep(t: string, i: nat)
    requires i < |t|
    ensures Opens(t, i) ==> Blanked(t, i) == Mask(t[i..TokenEnd(t, i)]) + Blanked(t, TokenEnd(t, i))
    ensures !Opens(t, i) ==> Blanked(t, i) == [t[i]] + Blanked(t, i + 1)
  {
    hide TokenEnd, Opens;
  }

  lemma Associate(a: string, b: string, c: string)
    ensures a + (b + c) == a + b + c
  {
  }

  // ---------- Nothing moves ----------

  /** Each output character is the input's, or a space for one that is not a newline;
      no quotation mark is left. */
  ghost predicate InPlace(t: string, out: string) {
    && |out| == |t|
    && (forall k :: 0 <= k < |t| ==> out[k] == t[k] || (out[k] == ' ' && t[k] != '\n'))
    && '"' !in out
  }

  lemma {:induction false} BlankedInPlace(t: string, i: nat)
    requires i <= |t|
    ensures InPlace(t[i..], Blanked(t, i))
    decreases |t| - i
  {
    hide Opens, TokenEnd, Blanked;
    if i == |t| {
      BlankedDone(t);
    } else {
      BlankedStep(t, i);
      if Opens(t, i) {
        BlankedInPlace(t, TokenEnd(t, i));
      } else {
        NotQuote(t, i);
        BlankedInPlace(t, i + 1);
      }
    }
  }

  lemma NotQuote(t: string, i: nat)
    requires i < |t| && !Opens(t, i)
    ensures t[i] != '"'
  {
  }

  // ---------- No opener is left, so blanking again changes nothing ----------

  ghost predicate NoOpeners(t: string) {
    forall i :: 0 <= i < |t| ==> !Opens(t, i)
  }

  lemma {:induction false} HashesOfSuffix(t: string, p: nat, i: nat)
    requires p <= i <= |t|
    ensures Hashes(t[p..], i - p) == Hashes(t, i)
    decreases |t| - i
  {
    if i < |t| {
      HashesOfSuffix(t, p, i + 1);
    }
  }

  /** Whether a token opens depends only on the text from there on. */
  lemma OpensOfSuffix(t: string, p: nat, i: nat)
    requires p <= i < |t|
    ensures Opens(t[p..], i - p) == Opens(t, i)
  {
    hide Hashes, OccursAt;
    HashesOfSuffix(t, p, i + 1);
    var u := t[p..];
    CommentStarts(t, i);
    CommentStarts(u, i - p);
  }

  /** Prepending to a text without openers: only the new head can open. */
  lemma NoOpenersPrepend(head: string, rest: string)
    requires NoOpeners(rest)
    requires forall i :: 0 <= i < |head| ==> !Opens(head + rest, i)
    ensures NoOpeners(head + rest)
  {
    hide Opens;
    var t := head + rest;
    assert t[|head|..] == rest;
    forall i | 0 <= i < |t|
      ensures !Opens(t, i)
    {
      if i >= |head| {
        OpensOfSuffix(t, |head|, i);
      }
    }
  }

  lemma MaskOpensNothing(s: string, rest: string)
    ensures forall i :: 0 <= i < |s| ==> !Opens(Mask(s) + rest, i)
  {
    hide Hashes;
    var t := Mask(s) + rest;
    forall i | 0 <= i < |s|
      ensures !Opens(t, i)
    {
      assert t[i] == ' ' || t[i] == '\n';
      CommentStarts(t, i);
    }
  }

  /** A copied character opens nothing in the output either. */
  lemma CopiedOpensNothing(t: string, i: nat, rest: string)
    requires i < |t| && !Opens(t, i)
    requires InPlace(t[i + 1..], rest)
    requires i + 1 < |t| && t[i + 1] == '\\' ==> rest[0] == '\\'
    ensures !Opens([t[i]] + rest, 0)
  {
    hide Hashes, OccursAt;
    var u := [t[i]] + rest;
    var v := t[i + 1..];
    CommentStarts(t, i);
    CommentStarts(u, 0);
    assert |rest| > 0 ==> rest[0] == v[0] || rest[0] == ' ';
    assert |rest| > 1 ==> rest[1] == v[1] || rest[1] == ' ';
    assert OccursAt(u, "//", 0) ==> OccursAt(t, "//", i);
    assert OccursAt(u, "/*", 0) ==> OccursAt(t, "/*", i);
    assert !OpensRaw(u, 0) by {
      var h := Hashes(u, 1);
      assert 1 + h < |u| ==> u[1 + h] == rest[h] && rest[h] in rest;
    }
  }

  lemma BackslashCopied(t: string, i: nat)
    requires i < |t| && t[i] == '\\'
    ensures |Blanked(t, i)| > 0 && Blanked(t, i)[0] == '\\'
  {
    hide Hashes, TokenEnd, OccursAt;
    CommentStarts(t, i);
    assert !Opens(t, i);
  }

  lemma NoOpenersInNothing()
    ensures NoOpeners("")
  {
  }

  lemma {:induction false} BlankedNoOpeners(t: string, i: nat)
    requires i <= |t|
    ensures NoOpeners(Blanked(t, i))
    decreases |t| - i
  {
    hide *;
    if i == |t| {
      BlankedDone(t);
      NoOpenersInNothing();
    } else {
      BlankedStep(t, i);
      if Opens(t, i) {
        var e := TokenEnd(t, i);
        BlankedNoOpeners(t, e);
        MaskOpensNothing(t[i..e], Blanked(t, e));
        NoOpenersPrepend(Mask(t[i..e]), Blanked(t, e));
      } else {
        BlankedNoOpeners(t, i + 1);
        BlankedInPlace(t, i + 1);
        if i + 1 < |t| && t[i + 1] == '\\' {
          BackslashCopied(t, i + 1);
        }
        CopiedOpensNothing(t, i, Blanked(t, i + 1));
        NoOpenersPrepend([t[i]], Blanked(t, i + 1));
      }
    }
  }

  lemma {:induction false} NoOpenersUnchanged(t: string, i: nat)
    requires i <= |t| && NoOpeners(t)
    ensures Blanked(t, i) == t[i..]
    decreases |t| - i
  {
    hide Opens, TokenEnd;
    if i < |t| {
      NoOpenersUnchanged(t, i + 1);
    }
  }

  /** The main result: same length, same newlines, every character kept or blanked,
      nothing left that opens a comment or literal, and blanking again is a no-op. */
  lemma BlankIsSafe(t: string)
    ensures InPlace(t, Blank(t))
    ensures NoOpeners(Blank(t))
    ensures Blank(Blank(t)) == Blank(t)
    ensures NoOpeners(t) ==> Blank(t) == t
  {
    hide Blanked, Opens, NoOpeners, InPlace;
    assert t[0..] == t;
    BlankedInPlace(t, 0);
    BlankedNoOpeners(t, 0);
    var b := Blank(t);
    NoOpenersUnchanged(b, 0);
    assert b[0..] == b;
    if NoOpeners(t) {
      NoOpenersUnchanged(t, 0);
    }
  }

  // ---------- Exactly what is blanked ----------

  lemma OccursOfSuffix(t: string, s: string, p: nat, i: nat)
    requires p <= i <= |t|
    ensures OccursAt(t[p..], s, i - p) <==> OccursAt(t, s, i)
  {
    if i + |s| <= |t| {
      assert t[p..][i - p..i - p + |s|] == t[i..i + |s|];
    }
  }

  lemma FindStep(t: string, s: string, i: nat)
    requires i <= |t|
    ensures Find(t, s, i) == if i == |t| || OccursAt(t, s, i) then i else Find(t, s, i + 1)
  {
    hide OccursAt;
  }

  lemma {:induction false} FindOfSuffix(t: string, s: string, p: nat, i: nat)
    requires p <= i <= |t|
    ensures Find(t[p..], s, i - p) + p == Find(t, s, i)
    decreases |t| - i
  {
    hide OccursAt, Find;
    var u := t[p..];
    FindStep(t, s, i);
    FindStep(u, s, i - p);
    OccursOfSuffix(t, s, p, i);
    if i < |t| {
      FindOfSuffix(t, s, p, i + 1);
    }
  }

  lemma {:induction false} BlockEndOfSuffix(t: string, p: nat, j: nat, depth: nat)
    requires p <= j <= |t|
    ensures BlockEnd(t[p..], j - p, depth) + p == BlockEnd(t, j, depth)
    decreases |t| - j
  {
    hide OccursAt;
    var u := t[p..];
    CommentStarts(t, j);
    CommentStarts(u, j - p);
    if j < |t| && depth != 0 {
      if OccursAt(t, "/*", j) {
        BlockEndOfSuffix(t, p, j + 2, depth + 1);
      } else if OccursAt(t, "*/", j) {
        BlockEndOfSuffix(t, p, j + 2, depth - 1);
      } else {
        BlockEndOfSuffix(t, p, j + 1, depth);
      }
    }
  }

  lemma {:induction false} StringQuoteOfSuffix(t: string, p: nat, j: nat)
    requires p <= j <= |t| + 1 && p <= |t|
    ensures StringQuote(t[p..], j - p) + p == StringQuote(t, j)
    decreases |t| + 1 - j
  {
    if j < |t| && t[j] != '"' {
      StringQuoteOfSuffix(t, p, if t[j] == '\\' then j + 2 else j + 1);
    }
  }

  lemma RawOfSuffix(t: string, p: nat, i: nat)
    requires p <= i < |t|
    ensures var u := t[p..];
      && OpensRaw(u, i - p) == OpensRaw(t, i)
      && Hashes(u, i - p + 1) == Hashes(t, i + 1)
      && (OpensRaw(t, i) ==>
           var h := Hashes(t, i + 1);
           t[i] != '"' && RawEnd(u, i - p + 2 + h, h) + p == RawEnd(t, i + 2 + h, h))
  {
    hide Find, Hashes, Repeat;
    HashesOfSuffix(t, p, i + 1);
    if OpensRaw(t, i) {
      var h := Hashes(t, i + 1);
      FindOfSuffix(t, "\"" + Repeat('#', h), p, i + 2 + h);
    }
  }

  /** Where a token ends depends only on the text from its start on. */
  lemma TokenEndOfSuffix(t: string, p: nat, i: nat)
    requires p <= i < |t| && Opens(t, i)
    ensures Opens(t[p..], i - p) && TokenEnd(t[p..], i - p) + p == TokenEnd(t, i)
  {
    hide Find, BlockEnd, StringQuote, Hashes, OccursAt, Opens, OpensRaw, RawEnd, OpensChar;
    OpensOfSuffix(t, p, i);
    RawOfSuffix(t, p, i);
    var u := t[p..];
    CommentStarts(t, i);
    CommentStarts(u, i - p);
    if OccursAt(t, "//", i) {
      FindOfSuffix(t, "\n", p, i + 1);
    } else if OccursAt(t, "/*", i) {
      BlockEndOfSuffix(t, p, i + 2, 1);
    } else if t[i] == '"' {
      StringQuoteOfSuffix(t, p, i + 1);
    }
  }

  lemma {:induction false} BlankedOfSuffix(t: string, p: nat, i: nat)
    requires p <= i <= |t|
    ensures Blanked(t[p..], i - p) == Blanked(t, i)
    decreases |t| - i
  {
    hide Opens, TokenEnd, Blanked;
    if i == |t| {
      BlankedDone(t);
      BlankedDone(t[p..]);
    } else {
      BlankedStep(t, i);
      BlankedStep(t[p..], i - p);
      OpensOfSuffix(t, p, i);
      if Opens(t, i) {
        TokenEndOfSuffix(t, p, i);
        var e := TokenEnd(t, i);
        BlankedOfSuffix(t, p, e);
        assert t[p..][i - p..e - p] == t[i..e];
      } else {
        BlankedOfSuffix(t, p, i + 1);
      }
    }
  }

  lemma {:induction false} BlankedUpTo(t: string, i: nat, p: nat)
    requires i <= p <= |t|
    requires forall k :: i <= k < p ==> !Opens(t, k)
    ensures Blanked(t, i) == t[i..p] + Blanked(t, p)
    decreases p - i
  {
    hide Opens, TokenEnd, Blanked;
    if i < p {
      BlankedStep(t, i);
      BlankedUpTo(t, i + 1, p);
      assert t[i..p] == [t[i]] + t[i + 1..p];
    } else {
      assert t[i..p] == "";
    }
  }

  /** The first token of a text becomes spaces and newlines, the text before it is
      untouched, and the text behind it is blanked as a text of its own. */
  lemma BlankedPiecewise(t: string, i: nat)
    requires i < |t| && Opens(t, i)
    requires forall k :: 0 <= k < i ==> !Opens(t, k)
    ensures var e := TokenEnd(t, i);
      && i < e <= |t| == |Blank(t)|
      && Blank(t)[..i] == t[..i]
      && (forall k :: i <= k < e ==> Blank(t)[k] == if t[k] == '\n' then '\n' else ' ')
      && Blank(t)[e..] == Blank(t[e..])
  {
    hide Opens, TokenEnd, Blanked, Mask;
    var e := TokenEnd(t, i);
    BlankedUpTo(t, 0, i);
    BlankedStep(t, i);
    BlankedOfSuffix(t, e, e);
    assert t[0..i] == t[..i];
    Associate(t[..i], Mask(t[i..e]), Blanked(t, e));
    MaskIs(t[i..e]);
    BlankLength(t[e..]);
    ThreeParts(t, i, e, Mask(t[i..e]), Blank(t[e..]));
  }

  lemma MaskIs(s: string)
    ensures forall k :: 0 <= k < |s| ==> Mask(s)[k] == if s[k] == '\n' then '\n' else ' '
  {
  }

  lemma BlankLength(t: string)
    ensures |Blank(t)| == |t|
  {
    hide Blanked;
    assert t[0..] == t;
    BlankedInPlace(t, 0);
  }

  lemma ThreeParts(t: string, i: nat, e: nat, mask: string, rest: string)
    requires i <= e <= |t| && |mask| == e - i && |rest| == |t| - e
    requires forall k :: 0 <= k < |mask| ==> mask[k] == if t[i..e][k] == '\n' then '\n' else ' '
    ensures var out := t[..i] + mask + rest;
      && |out| == |t| && out[..i] == t[..i] && out[e..] == rest
      && forall k :: i <= k < e ==> out[k] == if t[k] == '\n' then '\n' else ' '
  {
    var out := t[..i] + mask + rest;
    forall k | i <= k < e
      ensures out[k] == if t[k] == '\n' then '\n' else ' '
    {
      assert out[k] == mask[k - i] && t[i..e][k - i] == t[k];
    }
  }

  // ---------- What opens a comment or literal, and where the plain ones end ----------

  /** `r`, `h` '#' and a quotation mark stand at `i`. */
  ghost predicate RawOpenerAt(t: string, i: nat, h: nat) {
    i + 1 + h < |t| && t[i] == 'r' && (forall k :: i < k <= i + h ==> t[k] == '#') && t[i + 1 + h] == '"'
  }

  /** A quotation mark and `h` '#' stand at `k`. */
  ghost predicate RawCloserAt(t: string, k: nat, h: nat) {
    k + h < |t| && t[k] == '"' && forall m :: k < m <= k + h ==> t[m] == '#'
  }

  lemma HashesAre(t: string, i: nat, h: nat)
    requires RawOpenerAt(t, i, h)
    ensures Hashes(t, i + 1) == h && OpensRaw(t, i)
  {
    hide Hashes;
  }

  /** A comment or literal opens exactly at "//", at "/" and "*", at a quotation mark, at a
      raw string's opener, and at a quoted character that is no backslash. */
  lemma OpensIff(t: string, i: nat)
    requires i < |t|
    ensures Opens(t, i) <==>
      || (i + 1 < |t| && t[i] == '/' && (t[i + 1] == '/' || t[i + 1] == '*'))
      || t[i] == '"'
      || (exists h: nat :: RawOpenerAt(t, i, h))
      || (i + 2 < |t| && t[i] == '\'' && t[i + 1] != '\\' && t[i + 2] == '\'')
  {
    hide Hashes, OccursAt;
    CommentStarts(t, i);
    if OpensRaw(t, i) {
      assert RawOpenerAt(t, i, Hashes(t, i + 1));
    }
    if h: nat :| RawOpenerAt(t, i, h) {
      HashesAre(t, i, h);
    }
  }

  /** A line comment's token ends right before the next newline, or with the text. */
  lemma LineCommentToken(t: string, i: nat)
    requires i + 1 < |t| && t[i] == '/' && t[i + 1] == '/'
    ensures Opens(t, i)
    ensures var e := TokenEnd(t, i);
      i < e <= |t| && NewlineFree(t[i..e]) && (e < |t| ==> t[e] == '\n')
  {
    hide Find, OccursAt;
    CommentStarts(t, i);
    var e := TokenEnd(t, i);
    NewlineFound(t, i + 1, e);
    assert t[i..e] == [t[i]] + t[i + 1..e];
  }

  lemma NewlineFound(t: string, i: nat, e: nat)
    requires i <= |t| && e == Find(t, "\n", i)
    ensures i <= e <= |t| && NewlineFree(t[i..e]) && (e < |t| ==> t[e] == '\n')
  {
    hide Find;
    forall k | i <= k < e
      ensures t[k] != '\n'
    {
      assert !OccursAt(t, "\n", k);
      assert t[k..k + 1] == [t[k]];
    }
    if e < |t| {
      assert OccursAt(t, "\n", e);
    }
  }

  /** A raw string's token ends with the first quotation mark followed by as many '#' as
      opened it, or with the text when there is none. */
  lemma RawStringToken(t: string, i: nat, h: nat)
    requires RawOpenerAt(t, i, h)
    ensures Opens(t, i)
    ensures var e, body := TokenEnd(t, i), i + 2 + h;
      if exists k :: body <= k < |t| && RawCloserAt(t, k, h)
      then
        && e - 1 - h >= body && RawCloserAt(t, e - 1 - h, h)
        && forall k :: body <= k < e - 1 - h ==> !RawCloserAt(t, k, h)
      else e == |t|
  {
    hide Find, OccursAt, Hashes, Repeat;
    CommentStarts(t, i);
    HashesAre(t, i, h);
    var body, close := i + 2 + h, "\"" + Repeat('#', h);
    var j := Find(t, close, body);
    forall k | body <= k < |t|
      ensures OccursAt(t, close, k) <==> RawCloserAt(t, k, h)
    {
      CloserOccurs(t, k, h);
    }
  }

  lemma CloserOccurs(t: string, k: nat, h: nat)
    ensures OccursAt(t, "\"" + Repeat('#', h), k) <==> RawCloserAt(t, k, h)
  {
    hide Repeat;
    var close := "\"" + Repeat('#', h);
    if OccursAt(t, close, k) {
      forall m | k < m <= k + h
        ensures t[m] == '#'
      {
        assert t[m] == t[k..k + |close|][m - k] == Repeat('#', h)[m - k - 1];
      }
      assert t[k] == t[k..k + |close|][0];
    }
    if RawCloserAt(t, k, h) {
      forall m | 0 <= m < |close|
        ensures t[k..k + |close|][m] == close[m]
      {
        if m > 0 {
          assert close[m] == Repeat('#', h)[m - 1];
        }
      }
      assert t[k..k + |close|] == close;
    }
  }

  /** A character literal's token is its three characters. */
  lemma CharToken(t: string, i: nat)
    requires i + 2 < |t| && t[i] == '\'' && t[i + 1] != '\\' && t[i + 2] == '\''
    ensures Opens(t, i) && TokenEnd(t, i) == i + 3
  {
    hide OccursAt, Hashes;
    CommentStarts(t, i);
  }

  // ---------- A string ends at its first unescaped quote ----------

  /** Length of the run of backslashes that ends just before `k`, from `from` on. */
  function BackslashesBefore(t: string, from: nat, k: nat): nat
    requires from <= k <= |t|
    decreases k - from
  {
    if from < k && t[k - 1] == '\\' then 1 + BackslashesBefore(t, from, k - 1) else 0
  }

  predicate Escaped(t: string, from: nat, k: nat)
    requires from <= k <= |t|
  {
    BackslashesBefore(t, from, k) % 2 == 1
  }

  lemma {:induction false} StringQuoteIsFirstUnescaped(t: string, from: nat, j: nat)
    requires from <= j <= |t| + 1
    requires j <= |t| ==> !Escaped(t, from, j)
    ensures var q := StringQuote(t, j);
      && (forall k :: j <= k < q && k < |t| && t[k] == '"' ==> Escaped(t, from, k))
      && (q < |t| ==> t[q] == '"' && !Escaped(t, from, q))
    decreases |t| + 1 - j
  {
    if j < |t| && t[j] != '"' {
      assert BackslashesBefore(t, from, j + 1) == if t[j] == '\\' then 1 + BackslashesBefore(t, from, j) else 0;
      StringQuoteIsFirstUnescaped(t, from, if t[j] == '\\' then j + 2 else j + 1);
    }
  }

  /** A string literal's token runs to its first quote behind an even run of
      backslashes, or to the end of the text when there is none. */
  lemma StringToken(t: string, i: nat)
    requires i < |t| && t[i] == '"'
    ensures Opens(t, i)
    ensures var e := TokenEnd(t, i);
      && (forall k :: i < k < e - 1 && t[k] == '"' ==> Escaped(t, i + 1, k))
      && (e < |t| ==> t[e - 1] == '"' && e - 1 > i && !Escaped(t, i + 1, e - 1))
  {
    hide StringQuote, OccursAt;
    CommentStarts(t, i);
    StringQuoteIsFirstUnescaped(t, i + 1, i + 1);
    StringQuoteBounds(t, i + 1);
  }

  lemma StringQuoteBounds(t: string, j: nat)
    requires j <= |t| + 1
    ensures j <= StringQuote(t, j) <= |t| + 1
  {
  }

  // ---------- A block comment ends where its own nesting closes ----------

  /** Comment bodies with comments nested to any depth; each is followed by a closing mark. */
  datatype Body = Empty | Char(c: char, rest: Body) | Nested(inner: Body, rest: Body)

  function Show(b: Body): string {
    match b
    case Empty => ""
    case Char(c, rest) => [c] + Show(rest)
    case Nested(inner, rest) => "/*" + Show(inner) + "*/" + Show(rest)
  }

  /** The first character of the body and its closing mark. */
  function First(b: Body): char {
    match b
    case Empty => '*'
    case Char(c, _) => c
    case Nested(_, _) => '/'
  }

  predicate IsMark(c: char, d: char) {
    (c == '/' && d == '*') || (c == '*' && d == '/')
  }

  /** No character forms an opening or closing mark with the one after it. */
  predicate Plain(b: Body) {
    match b
    case Empty => true
    case Char(c, rest) => !IsMark(c, First(rest)) && Plain(rest)
    case Nested(inner, rest) => Plain(inner) && Plain(rest)
  }

  lemma FirstShown(b: Body)
    ensures (Show(b) + "*/")[0] == First(b)
  {
  }

  lemma BlockEndSteps(t: string, j: nat, depth: nat)
    requires j < |t| && depth > 0
    ensures j + 2 <= |t| && t[j] == '/' && t[j + 1] == '*' ==> BlockEnd(t, j, depth) == BlockEnd(t, j + 2, depth + 1)
    ensures j + 2 <= |t| && t[j] == '*' && t[j + 1] == '/' ==> BlockEnd(t, j, depth) == BlockEnd(t, j + 2, depth - 1)
    ensures j + 1 == |t| || !IsMark(t[j], t[j + 1]) ==> BlockEnd(t, j, depth) == BlockEnd(t, j + 1, depth)
  {
    hide OccursAt;
    CommentStarts(t, j);
  }

  lemma ShowParts(b: Body)
    ensures match b
      case Empty => Show(b) == ""
      case Char(c, rest) => Show(b) == [c] + Show(rest) && |Show(b)| == 1 + |Show(rest)|
      case Nested(inner, rest) =>
        Show(b) == "/*" + Show(inner) + "*/" + Show(rest) && |Show(b)| == 4 + |Show(inner)| + |Show(rest)|
  {
  }

  /** Scanning a body up to its closing mark comes back to the depth it started at. */
  lemma {:induction false} BodyScanned(t: string, j: nat, depth: nat, b: Body, rest: string)
    requires j <= |t| && t[j..] == Show(b) + ("*/" + rest) && Plain(b) && depth > 0
    ensures BlockEnd(t, j, depth) == BlockEnd(t, j + |Show(b)|, depth)
    decreases b
  {
    hide BlockEnd, Show, First;
    ShowParts(b);
    match b
    case Empty =>
    case Char(c, more) =>
      CharSlices(t, j, c, more, rest);
      BlockEndSteps(t, j, depth);
      BodyScanned(t, j + 1, depth, more, rest);
    case Nested(inner, more) =>
      var k := j + 2 + |Show(inner)|;
      var after := Show(more) + ("*/" + rest);
      Reassociate(Show(inner), Show(more), "*/" + rest);
      NestedSlices(t, j, Show(inner), after);
      BlockEndSteps(t, j, depth);
      BodyScanned(t, j + 2, depth + 1, inner, after);
      BlockEndSteps(t, k, depth + 1);
      BodyScanned(t, k + 2, depth, more, rest);
  }

  lemma CharSlices(t: string, j: nat, c: char, more: Body, rest: string)
    requires j <= |t| && t[j..] == [c] + Show(more) + ("*/" + rest)
    ensures j + 1 < |t| && t[j] == c && t[j + 1] == First(more)
    ensures t[j + 1..] == Show(more) + ("*/" + rest)
  {
    hide Show, First;
    assert t[j] == t[j..][0];
    assert t[j + 1..] == t[j..][1..] == Show(more) + ("*/" + rest);
    FirstShown(more);
    assert t[j + 1] == t[j + 1..][0] == (Show(more) + "*/")[0];
  }

  lemma Reassociate(inner: string, more: string, rest: string)
    ensures "/*" + inner + "*/" + more + rest == "/*" + (inner + ("*/" + (more + rest)))
  {
  }

  lemma NestedSlices(t: string, j: nat, inner: string, after: string)
    requires j <= |t| && t[j..] == "/*" + (inner + ("*/" + after))
    ensures var k := j + 2 + |inner|;
      && k + 2 <= |t|
      && t[j] == '/' && t[j + 1] == '*' && t[k] == '*' && t[k + 1] == '/'
      && t[j + 2..] == inner + ("*/" + after)
      && t[k + 2..] == after
  {
    var k := j + 2 + |inner|;
    assert t[j] == t[j..][0] && t[j + 1] == t[j..][1];
    assert t[j + 2..] == t[j..][2..];
    assert t[k..] == t[j + 2..][|inner|..];
    assert t[k] == t[k..][0] && t[k + 1] == t[k..][1];
    assert t[k + 2..] == t[k..][2..];
  }

  /** A comment with a plain body is one token, whatever follows. */
  lemma NestedCommentToken(t: string, i: nat, b: Body)
    requires i < |t| && Closes(t, i, b)
    ensures Opens(t, i) && TokenEnd(t, i) == i + |Show(b)| + 4
  {
    hide BlockEnd, OccursAt, Show, Plain;
    var n := |Show(b)|;
    var rest := t[i..][n + 4..];
    assert t[i..] == "/*" + (Show(b) + ("*/" + rest));
    NestedSlices(t, i, Show(b), rest);
    CommentStarts(t, i);
    BodyScanned(t, i + 2, 1, b, rest);
    BlockEndSteps(t, i + 2 + n, 1);
    BlockEndAtZero(t, i + n + 4);
  }

  /** A balanced comment with body `b` stands at `i`. */
  ghost predicate Closes(t: string, i: nat, b: Body)
    requires i <= |t|
  {
    Plain(b) && "/*" + Show(b) + "*/" <= t[i..]
  }

  datatype Parsed = Parsed(body: Body, end: nat)

  /** The body from `j` up to and with its closing mark; None when it is never closed. */
  function ParseBody(t: string, j: nat): (r: Option<Parsed>)
    requires j <= |t|
    ensures r.Some? ==> j + 2 <= r.value.end <= |t|
    decreases |t| - j
  {
    if j == |t| then None
    else if j + 2 <= |t| && t[j] == '*' && t[j + 1] == '/' then Some(Parsed(Empty, j + 2))
    else if j + 2 <= |t| && t[j] == '/' && t[j + 1] == '*' then
      match ParseBody(t, j + 2)
      case None => None
      case Some(inner) =>
        match ParseBody(t, inner.end)
        case None => None
        case Some(rest) => Some(Parsed(Nested(inner.body, rest.body), rest.end))
    else
      match ParseBody(t, j + 1)
      case None => None
      case Some(rest) => Some(Parsed(Char(t[j], rest.body), rest.end))
  }

  lemma {:induction false} ParseScanned(t: string, j: nat, depth: nat)
    requires j <= |t|
    ensures match ParseBody(t, j)
      case Some(p) => BlockEnd(t, j, depth + 1) == BlockEnd(t, p.end, depth)
      case None => BlockEnd(t, j, depth + 1) == |t|
    decreases |t| - j
  {
    hide BlockEnd;
    if j == |t| {
      BlockEndAtEnd(t, depth + 1);
    } else {
      BlockEndSteps(t, j, depth + 1);
      if j + 2 <= |t| && t[j] == '*' && t[j + 1] == '/' {
      } else if j + 2 <= |t| && t[j] == '/' && t[j + 1] == '*' {
        ParseScanned(t, j + 2, depth + 1);
        var inner := ParseBody(t, j + 2);
        if inner.Some? {
          ParseScanned(t, inner.value.end, depth);
        }
      } else {
        ParseScanned(t, j + 1, depth);
      }
    }
  }

  lemma EmptyShown()
    ensures Plain(Empty) && Show(Empty) == "" && Show(Empty) + "*/" == "*/"
  {
  }

  lemma NestedShown(inner: Body, rest: Body)
    ensures Show(Nested(inner, rest)) == "/*" + Show(inner) + "*/" + Show(rest)
    ensures Plain(inner) && Plain(rest) ==> Plain(Nested(inner, rest))
  {
  }

  lemma CharShown(t: string, j: nat, end: nat, rest: Body)
    requires j + 1 < end <= |t| && t[j + 1..end] == Show(rest) + "*/" && Plain(rest)
    requires !IsMark(t[j], t[j + 1])
    ensures Plain(Char(t[j], rest)) && t[j..end] == Show(Char(t[j], rest)) + "*/"
  {
    FirstShown(rest);
    assert t[j + 1] == t[j + 1..end][0];
    assert t[j..end] == [t[j]] + t[j + 1..end];
  }

  lemma {:induction false} ParseShown(t: string, j: nat)
    requires j <= |t| && ParseBody(t, j).Some?
    ensures var p := ParseBody(t, j).value; Plain(p.body) && t[j..p.end] == Show(p.body) + "*/"
    decreases |t| - j
  {
    hide Plain, Show, First;
    var p := ParseBody(t, j).value;
    if j + 2 <= |t| && t[j] == '*' && t[j + 1] == '/' {
      EmptyShown();
      assert t[j..j + 2] == "*/";
    } else if j + 2 <= |t| && t[j] == '/' && t[j + 1] == '*' {
      var inner := ParseBody(t, j + 2).value;
      ParseShown(t, j + 2);
      ParseShown(t, inner.end);
      var rest := ParseBody(t, inner.end).value.body;
      NestedShown(inner.body, rest);
      JoinSlices(t, j, inner.end, p.end, Show(inner.body), Show(rest));
    } else {
      ParseShown(t, j + 1);
      CharShown(t, j, p.end, ParseBody(t, j + 1).value.body);
    }
  }

  lemma JoinSlices(t: string, j: nat, k: nat, end: nat, inner: string, rest: string)
    requires j + 2 <= k <= end <= |t| && t[j] == '/' && t[j + 1] == '*'
    requires t[j + 2..k] == inner + "*/" && t[k..end] == rest + "*/"
    ensures t[j..end] == "/*" + inner + "*/" + rest + "*/"
  {
    assert t[j..end] == "/*" + t[j + 2..k] + t[k..end];
  }

  /** On every text: a block comment ends where it is balanced, and runs to the end of
      the text when no balanced comment stands there. */
  lemma BlockCommentToken(t: string, i: nat)
    requires i + 2 <= |t| && t[i] == '/' && t[i + 1] == '*'
    ensures Opens(t, i)
    ensures forall b :: Closes(t, i, b) ==> TokenEnd(t, i) == i + |Show(b)| + 4
    ensures (forall b :: !Closes(t, i, b)) ==> TokenEnd(t, i) == |t|
  {
    hide BlockEnd, OccursAt, Show, Plain, ParseBody;
    CommentStarts(t, i);
    forall b | Closes(t, i, b)
      ensures TokenEnd(t, i) == i + |Show(b)| + 4
    {
      NestedCommentToken(t, i, b);
    }
    ParseScanned(t, i + 2, 0);
    var p := ParseBody(t, i + 2);
    if p.Some? {
      ParseShown(t, i + 2);
      assert t[i..p.value.end] == "/*" + t[i + 2..p.value.end];
      assert t[i..p.value.end] <= t[i..];
      assert "/*" + (Show(p.value.body) + "*/") == "/*" + Show(p.value.body) + "*/";
      assert Closes(t, i, p.value.body);
    }
  }

  // ---------- Lines keep their place ----------

  /** Line by line the same length, and the same characters up to blanking. */
  ghost predicate Alike(ls: seq<string>, ms: seq<string>) {
    && |ls| == |ms|
    && forall i :: 0 <= i < |ls| ==>
      |ms[i]| == |ls[i]| && forall k :: 0 <= k < |ls[i]| ==> ms[i][k] == ls[i][k] || ms[i][k] == ' '
  }

  lemma AlikeCons(c: char, d: char, ls: seq<string>, ms: seq<string>)
    requires ls != [] && ms != [] && Alike(ls, ms)
    requires (c == '\n' <==> d == '\n') && (d == c || d == ' ')
    ensures Alike(ConsLine(c, ls), ConsLine(d, ms))
  {
  }

  lemma {:induction false} SameBreaksSameLines(a: string, b: string)
    requires |a| == |b| && forall k :: 0 <= k < |a| ==> (a[k] == '\n' <==> b[k] == '\n')
    requires forall k :: 0 <= k < |a| ==> b[k] == a[k] || b[k] == ' '
    ensures Alike(Lines(a), Lines(b))
  {
    if a != "" {
      hide ConsLine, Alike;
      SameBreaksSameLines(a[1..], b[1..]);
      AlikeCons(a[0], b[0], Lines(a[1..]), Lines(b[1..]));
    }
  }

  /** The caller's assertion, line for line: on a non-empty list of lines each output
      line has its input line's place, length and unblanked characters. */
  lemma LinesKeepPlace(lines: seq<string>)
    requires forall l :: l in lines ==> NewlineFree(l)
    ensures var stripped := Lines(Blank(JoinLines(lines)));
      && (|stripped| == |lines| <==> lines != [])
      && (lines != [] ==> forall i :: 0 <= i < |lines| ==>
            |stripped[i]| == |lines[i]|
            && forall k :: 0 <= k < |lines[i]| ==> stripped[i][k] == lines[i][k] || stripped[i][k] == ' ')
  {
    hide Blank, NoOpeners, Opens, JoinLines;
    var t := JoinLines(lines);
    BlankIsSafe(t);
    SameBreaksSameLines(t, Blank(t));
    if lines != [] {
      LinesOfJoin(lines);
    }
  }
}
