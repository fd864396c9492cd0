/**
 The one spelling under which a typed symbol is looked up (src/resolve.rs).  The
 index is two abstract sets of names: those stored at all, and those some
 definition outside the pseudo-file `<external>` has as its qualified name.
 */
module Spelling {
  import opened Text

  type Names = string -> bool

  predicate HasColons(s: string) {
    |s| >= 2 && ((s[0] == ':' && s[1] == ':') || HasColons(s[1..]))
  }

  predicate StartsWithColons(s: string) {
    |s| >= 2 && s[0] == ':' && s[1] == ':'
  }

  /** `split("::")`, the first part continuing `current`. */
  function SplitColonsFrom(current: string, s: string): (parts: seq<string>)
    ensures parts != []
    decreases |s|
  {
    if |s| < 2 then [current + s]
    else if StartsWithColons(s) then [current] + SplitColonsFrom("", s[2..])
    else SplitColonsFrom(current + [s[0]], s[1..])
  }

  /** `split('.')`, the first part continuing `current`. */
  function SplitDotsFrom(current: string, s: string): (parts: seq<string>)
    ensures parts != []
    decreases |s|
  {
    if s == "" then [current]
    else if s[0] == '.' then [current] + SplitDotsFrom("", s[1..])
    else SplitDotsFrom(current + [s[0]], s[1..])
  }

  /** A segment with a visible character and no '.' or ':'. */
  predicate PlainSegment(seg: string) {
    (exists i :: 0 <= i < |seg| && !IsWhitespace(seg[i])) && '.' !in seg && ':' !in seg
  }

  predicate AllPlain(segs: seq<string>) {
    forall i :: 0 <= i < |segs| ==> PlainSegment(segs[i])
  }

  function PathOf(symbol: string): string {
    if StartsWithColons(symbol) then symbol[2..] else symbol
  }

  /** A `::` path of plain segments that the index does not store as typed is
      rewritten with dots. */
  predicate Rewritten(stored: Names, symbol: string) {
    HasColons(symbol) && AllPlain(SplitColonsFrom("", PathOf(symbol))) && !stored(symbol)
  }

  function Dotted(symbol: string): string {
    if HasColons(symbol) then Join(SplitColonsFrom("", PathOf(symbol)), ".") else symbol
  }

  /** The two `::` spellings tried for a dotted name: the member's, then the type's. */
  function MemberSpelling(segs: seq<string>): string
    requires segs != []
  {
    Join(segs[..|segs| - 1], "::") + "." + segs[|segs| - 1]
  }

  /** Search for the `::` spelling of a dotted name nothing is called. */
  function Nested(stored: Names, qualified: Names, dotted: string): string {
    var segs := SplitDotsFrom("", dotted);
    var member, whole := MemberSpelling(segs), Join(segs, "::");
    if |segs| == 1 || stored(dotted) then dotted
    else if member != dotted && qualified(member) then member
    else if whole != dotted && qualified(whole) then whole
    else dotted
  }

  function Canonical(stored: Names, qualified: Names, symbol: string): string {
    if HasColons(symbol) then
      if !Rewritten(stored, symbol) then symbol
      else Nested(stored, qualified, Join(SplitColonsFrom("", PathOf(symbol)), "."))
    else Nested(stored, qualified, symbol)
  }

  // ---------- Splitting and joining ----------

  lemma {:induction false} ColonsInside(a: string, b: string)
    ensures HasColons(a + "::" + b)
  {
    var s := a + "::" + b;
    if a == "" {
      assert s[0] == ':' && s[1] == ':';
    } else {
      assert s[1..] == a[1..] + "::" + b;
      ColonsInside(a[1..], b);
    }
  }

  lemma {:induction false} NoColons(s: string)
    requires ':' !in s
    ensures !HasColons(s)
  {
    if |s| >= 2 {
      assert s[0] in s;
      NoColons(s[1..]);
    }
  }

  /** A ':'-free piece in front of a separator is split off whole. */
  lemma {:induction false} SplitColonsPiece(current: string, a: string, b: string)
    requires ':' !in a
    ensures SplitColonsFrom(current, a + "::" + b) == [current + a] + SplitColonsFrom("", b)
    decreases |a|
  {
    var s := a + "::" + b;
    if a == "" {
      assert s[2..] == b && current + a == current;
    } else {
      assert s[0] == a[0] && a[0] in a;
      assert s[1..] == a[1..] + "::" + b;
      SplitColonsPiece(current + [a[0]], a[1..], b);
      assert current + [a[0]] + a[1..] == current + a;
    }
  }

  lemma {:induction false} SplitColonsLast(current: string, a: string)
    requires ':' !in a
    ensures SplitColonsFrom(current, a) == [current + a]
    decreases |a|
  {
    if |a| >= 2 {
      assert a[0] in a;
      SplitColonsLast(current + [a[0]], a[1..]);
      assert current + [a[0]] + a[1..] == current + a;
    }
  }

  lemma {:induction false} SplitColonsOfJoin(segs: seq<string>)
    requires segs != [] && forall i :: 0 <= i < |segs| ==> ':' !in segs[i]
    ensures SplitColonsFrom("", Join(segs, "::")) == segs
    decreases |segs|
  {
    assert "" + segs[0] == segs[0];
    if |segs| == 1 {
      SplitColonsLast("", segs[0]);
    } else {
      SplitColonsPiece("", segs[0], Join(segs[1..], "::"));
      SplitColonsOfJoin(segs[1..]);
    }
  }

  lemma {:induction false} SplitDotsPiece(current: string, a: string, b: string)
    requires '.' !in a
    ensures SplitDotsFrom(current, a + "." + b) == [current + a] + SplitDotsFrom("", b)
    ensures SplitDotsFrom(current, a) == [current + a]
    decreases |a|
  {
    var s := a + "." + b;
    if a == "" {
      assert s[1..] == b && current + a == current;
    } else {
      assert s[0] == a[0] && a[0] in a;
      assert s[1..] == a[1..] + "." + b;
      SplitDotsPiece(current + [a[0]], a[1..], b);
      assert current + [a[0]] + a[1..] == current + a;
    }
  }

  lemma {:induction false} SplitDotsOfJoin(segs: seq<string>)
    requires segs != [] && forall i :: 0 <= i < |segs| ==> '.' !in segs[i]
    ensures SplitDotsFrom("", Join(segs, ".")) == segs
    decreases |segs|
  {
    assert "" + segs[0] == segs[0];
    if |segs| == 1 {
      SplitDotsPiece("", segs[0], "");
    } else {
      SplitDotsPiece("", segs[0], Join(segs[1..], "."));
      SplitDotsOfJoin(segs[1..]);
    }
  }

  lemma {:induction false} JoinOfSplitDots(current: string, s: string)
    ensures Join(SplitDotsFrom(current, s), ".") == current + s
    decreases |s|
  {
    if s == "" {
      assert current + s == current;
    } else if s[0] == '.' {
      JoinOfSplitDots("", s[1..]);
      var rest := SplitDotsFrom("", s[1..]);
      assert ([current] + rest)[1..] == rest;
      assert current + "." + s[1..] == current + s;
    } else {
      JoinOfSplitDots(current + [s[0]], s[1..]);
      assert current + [s[0]] + s[1..] == current + s;
    }
  }

  lemma {:induction false} JoinWithoutColons(segs: seq<string>)
    requires forall i :: 0 <= i < |segs| ==> ':' !in segs[i]
    ensures ':' !in Join(segs, ".")
    decreases |segs|
  {
    if |segs| > 1 {
      JoinWithoutColons(segs[1..]);
    }
  }

  lemma JoinHasColons(segs: seq<string>, tail: string)
    requires |segs| >= 2
    ensures HasColons(Join(segs, "::") + tail)
  {
    var rest := Join(segs[1..], "::");
    ColonsInside(segs[0], rest + tail);
    assert segs[0] + "::" + rest + tail == segs[0] + "::" + (rest + tail);
  }

  // ---------- The normal form ----------

  /** A definition found by its qualified name is stored. */
  ghost predicate Indexed(stored: Names, qualified: Names) {
    forall s: string :: qualified(s) ==> stored(s)
  }

  /** What the search returns: the dotted name, or a `::` name of some definition. */
  lemma NestedResult(stored: Names, qualified: Names, dotted: string)
    ensures var r := Nested(stored, qualified, dotted);
      r == dotted || (qualified(r) && HasColons(r))
  {
    hide HasColons, SplitDotsFrom;
    var segs := SplitDotsFrom("", dotted);
    JoinOfSplitDots("", dotted);
    assert "" + dotted == dotted;
    if |segs| == 2 {
      MemberOfTwo(segs);
      JoinHasColons(segs, "");
      assert Join(segs, "::") + "" == Join(segs, "::");
    } else if |segs| > 2 {
      MemberHasColons(segs);
      JoinHasColons(segs, "");
      assert Join(segs, "::") + "" == Join(segs, "::");
    }
  }

  /** With one dot the member's `::` spelling is the dotted name itself. */
  lemma MemberOfTwo(segs: seq<string>)
    requires |segs| == 2
    ensures MemberSpelling(segs) == Join(segs, ".")
  {
    assert segs[..1] == [segs[0]] && segs[1..] == [segs[1]];
  }

  /** Looking up a canonical spelling gives it back. */
  lemma CanonicalIdempotent(stored: Names, qualified: Names, symbol: string)
    requires Indexed(stored, qualified)
    ensures var r := Canonical(stored, qualified, symbol);
      Canonical(stored, qualified, r) == r
  {
    hide HasColons, Nested, AllPlain;
    var r := Canonical(stored, qualified, symbol);
    if HasColons(symbol) {
      if Rewritten(stored, symbol) {
        var segs := SplitColonsFrom("", PathOf(symbol));
        var dotted := Join(segs, ".");
        NestedResult(stored, qualified, dotted);
        PlainJoin(segs);
        NoColons(dotted);
      }
    } else {
      NestedResult(stored, qualified, symbol);
    }
  }

  lemma PlainJoin(segs: seq<string>)
    requires AllPlain(segs)
    ensures ':' !in Join(segs, ".")
    ensures forall i :: 0 <= i < |segs| ==> ':' !in segs[i] && '.' !in segs[i] && segs[i] != ""
  {
    hide IsWhitespace;
    JoinWithoutColons(segs);
  }

  /** The result is the typed name, its dotted form, or the qualified name of a definition. */
  lemma CanonicalForms(stored: Names, qualified: Names, symbol: string)
    ensures var r := Canonical(stored, qualified, symbol);
      r == symbol || r == Dotted(symbol) || qualified(r)
  {
    hide HasColons, Nested, AllPlain;
    NestedResult(stored, qualified, symbol);
    NestedResult(stored, qualified, Dotted(symbol));
  }

  /** A name with a visible character and neither '.' nor ':'. */
  ghost predicate VisibleName(seg: string) {
    '.' !in seg && ':' !in seg && exists k :: 0 <= k < |seg| && !IsWhitespace(seg[k])
  }

  ghost predicate VisibleNames(segs: seq<string>) {
    segs != [] && forall i :: 0 <= i < |segs| ==> VisibleName(segs[i])
  }

  /** `A::b::c`, `::A::b::c` and `A.b.c`, of segments with a visible character and neither
      '.' nor ':', have one canonical spelling; a `::` form the index stores is kept. */
  lemma SpellingsAgree(stored: Names, qualified: Names, segs: seq<string>)
    requires VisibleNames(segs)
    ensures var path, r := Join(segs, "::"), Canonical(stored, qualified, Join(segs, "."));
      && Canonical(stored, qualified, path) == (if |segs| > 1 && stored(path) then path else r)
      && Canonical(stored, qualified, "::" + path) == (if stored("::" + path) then "::" + path else r)
  {
    hide Nested, AllPlain, HasColons, VisibleNames;
    PlainIs(segs);
    PlainJoin(segs);
    NoColons(Join(segs, "."));
    SplitColonsOfJoin(segs);
    var path := Join(segs, "::");
    var rooted := "::" + path;
    assert rooted[2..] == path;
    ColonsInside("", path);
    assert "" + "::" + path == rooted;
    if |segs| > 1 {
      JoinHasColons(segs, "");
      assert path + "" == path;
      assert path[0] == segs[0][0] && segs[0][0] in segs[0];
    } else {
      NoColons(path);
    }
  }

  lemma PlainIs(segs: seq<string>)
    ensures VisibleNames(segs) <==> segs != [] && AllPlain(segs)
  {
    hide PlainSegment, VisibleName;
    forall i | 0 <= i < |segs|
      ensures PlainSegment(segs[i]) <==> VisibleName(segs[i])
    {
      PlainSegmentIs(segs[i]);
    }
  }

  lemma PlainSegmentIs(seg: string)
    ensures PlainSegment(seg) <==> VisibleName(seg)
  {
    hide IsWhitespace;
    if PlainSegment(seg) {
      var i :| 0 <= i < |seg| && !IsWhitespace(seg[i]);
      assert VisibleName(seg);
    }
    if VisibleName(seg) {
      var k :| 0 <= k < |seg| && !IsWhitespace(seg[k]);
      assert PlainSegment(seg);
    }
  }

  lemma {:induction false} JoinOfSplitColons(current: string, s: string)
    ensures Join(SplitColonsFrom(current, s), "::") == current + s
    decreases |s|
  {
    if |s| >= 2 {
      if StartsWithColons(s) {
        JoinOfSplitColons("", s[2..]);
        var rest := SplitColonsFrom("", s[2..]);
        assert ([current] + rest)[1..] == rest;
        assert s == "::" + s[2..];
        assert current + "::" + ("" + s[2..]) == current + s;
      } else {
        JoinOfSplitColons(current + [s[0]], s[1..]);
        assert current + [s[0]] + s[1..] == current + s;
      }
    }
  }

  lemma {:induction false} HasColonsIff(s: string)
    ensures HasColons(s) <==> Contains(s, "::")
  {
    hide OccursAt;
    if |s| >= 2 {
      HasColonsIff(s[1..]);
      ColonsAt(s, 0);
      if i :| 0 <= i <= |s[1..]| && OccursAt(s[1..], "::", i) {
        ColonsBehind(s, i);
      }
      if i :| 0 < i <= |s| && OccursAt(s, "::", i) {
        ColonsBehind(s, i - 1);
      }
    } else {
      forall i: nat
        ensures !OccursAt(s, "::", i)
      {
        ColonsAt(s, i);
      }
    }
  }

  lemma ColonsBehind(s: string, i: nat)
    requires s != ""
    ensures OccursAt(s[1..], "::", i) <==> OccursAt(s, "::", i + 1)
  {
    hide OccursAt;
    ColonsAt(s[1..], i);
    ColonsAt(s, i + 1);
  }

  lemma ColonsAt(s: string, i: nat)
    ensures OccursAt(s, "::", i) <==> i + 2 <= |s| && s[i] == ':' && s[i + 1] == ':'
  {
    if i + 2 <= |s| {
      assert s[i..i + 2] == [s[i], s[i + 1]];
      assert "::" == [':', ':'];
    }
  }

  /** A symbol is such a `::` form: two or more segments with a visible character and neither
      '.' nor ':', or any number of them rooted at `::`. */
  ghost predicate ColonPath(symbol: string, segs: seq<string>) {
    VisibleNames(segs)
    && (symbol == "::" + Join(segs, "::") || (|segs| > 1 && symbol == Join(segs, "::")))
  }

  /** Any other name with `::` in it is looked up as typed. */
  lemma OtherColonsKept(stored: Names, qualified: Names, symbol: string)
    requires Contains(symbol, "::") && forall segs :: !ColonPath(symbol, segs)
    ensures Canonical(stored, qualified, symbol) == symbol
  {
    hide Nested, AllPlain, HasColons, Contains, ColonPath;
    HasColonsIff(symbol);
    if AllPlain(SplitColonsFrom("", PathOf(symbol))) {
      ColonPathOf(symbol);
    }
  }

  lemma ColonPathOf(symbol: string)
    requires HasColons(symbol) && AllPlain(SplitColonsFrom("", PathOf(symbol)))
    ensures ColonPath(symbol, SplitColonsFrom("", PathOf(symbol)))
  {
    hide HasColons, AllPlain, VisibleNames;
    var path := PathOf(symbol);
    var segs := SplitColonsFrom("", path);
    PlainIs(segs);
    JoinOfSplitColons("", path);
    assert "" + path == path;
    PlainJoin(segs);
    if |segs| == 1 {
      NoColons(path);
    }
    assert path == symbol || symbol == "::" + path;
  }

  /** A name without `::`, cut at its dots, is looked up as typed when it has no dot or is
      stored; else it becomes the member's `::` spelling when it has three pieces or more
      and a definition has that, else the type's when one has that, else it stays. */
  lemma NestedFound(stored: Names, qualified: Names, segs: seq<string>)
    requires segs != [] && forall i :: 0 <= i < |segs| ==> '.' !in segs[i]
    requires !Contains(Join(segs, "."), "::")
    ensures var n, typed := |segs|, Join(segs, ".");
      var member, whole := Join(segs[..n - 1], "::") + "." + segs[n - 1], Join(segs, "::");
      Canonical(stored, qualified, typed) ==
        if n == 1 || stored(typed) then typed
        else if n > 2 && qualified(member) then member
        else if qualified(whole) then whole
        else typed
  {
    hide HasColons, SplitDotsFrom, Contains;
    HasColonsIff(Join(segs, "."));
    SplitDotsOfJoin(segs);
    if |segs| >= 2 {
      JoinHasColons(segs, "");
      assert Join(segs, "::") + "" == Join(segs, "::");
    }
    if |segs| == 2 {
      MemberOfTwo(segs);
    } else if |segs| > 2 {
      MemberHasColons(segs);
    }
  }

  lemma MemberHasColons(segs: seq<string>)
    requires |segs| > 2
    ensures HasColons(MemberSpelling(segs))
  {
    hide HasColons;
    JoinHasColons(segs[..|segs| - 1], "." + segs[|segs| - 1]);
    assert Join(segs[..|segs| - 1], "::") + ("." + segs[|segs| - 1]) == MemberSpelling(segs);
  }
}
