/**
 Which files and nodes are tests (src/domain.rs): one predicate, written once as
 Rust string tests and once as a generated SQL disjunction of LIKE and GLOB.
 */
module TestPaths {
  import opened Text

  // ---------- Strings ----------

  /** ASCII lower-casing of one character, and of a string. */
  function Lower(c: char): char {
    if 'A' <= c <= 'Z' then ((c as int) + 32) as char else c
  }

  function LowerAll(s: string): (r: string)
    ensures |r| == |s|
  {
    seq(|s|, i requires 0 <= i < |s| => Lower(s[i]))
  }

  // ---------- The constants both sides read ----------

  const PASCAL_TEST_EXTS: seq<string> := ["cs", "vb", "fs", "java", "kt", "scala", "swift", "php"]
  const SPEC_TEST_EXTS: seq<string> := ["scala", "kt"]
  const PASCAL_TEST_STEM_EXTS: seq<(string, seq<string>)> :=
    [("Test", PASCAL_TEST_EXTS), ("Tests", PASCAL_TEST_EXTS), ("Spec", SPEC_TEST_EXTS)]
  const INFIX_TEST_EXTS: seq<string> := ["go", "rs", "py", "dart"]

  // ---------- The Rust side ----------

  predicate EndsWithExt(path: string, stem: string, exts: seq<string>) {
    exists k :: 0 <= k < |exts| && EndsWith(path, stem + "." + exts[k])
  }

  predicate EndsWithStem(path: string, stems: seq<(string, seq<string>)>) {
    exists i :: 0 <= i < |stems| && EndsWithExt(path, stems[i].0, stems[i].1)
  }

  predicate IsTestPath(path: string) {
    var lower := LowerAll(path);
    if StartsWith(lower, "tests/") || StartsWith(lower, "test/")
      || Contains(lower, "/tests/") || Contains(lower, "/test/") then true
    else if EndsWithStem(path, PASCAL_TEST_STEM_EXTS) then true
    else if EndsWithExt(path, "_test", INFIX_TEST_EXTS) then true
    else if EndsWith(path, ".py")
      && (StartsWith(path, "test_") || Contains(path, "/test_") || EndsWith(path, "conftest.py")) then true
    else
      || StartsWith(path, "benches/")
      || StartsWith(path, "bench/")
      || Contains(path, "__tests__/")
      || EndsWith(path, "/tests.rs")
      || EndsWith(path, ".test.ts")
      || EndsWith(path, ".test.js")
      || EndsWith(path, ".test.tsx")
      || EndsWith(path, ".test.jsx")
      || EndsWith(path, ".spec.ts")
      || EndsWith(path, ".spec.js")
      || EndsWith(path, ".spec.tsx")
      || EndsWith(path, ".spec.jsx")
  }

  predicate IsTestSymbol(name: string, path: string) {
    StartsWith(name, "test_") || EndsWith(name, "Test") || EndsWith(name, "Tests") || IsTestPath(path)
  }

  predicate IsTestNode(isTest: bool, name: string, path: string) {
    isTest || IsTestSymbol(name, path)
  }

  // ---------- LIKE and GLOB ----------

  datatype Elem = Any | One | Lit(c: char)

  function GlobElem(c: char): Elem {
    if c == '*' then Any else if c == '?' then One else Lit(c)
  }

  function LikeElem(c: char): Elem {
    if c == '%' then Any else if c == '_' then One else Lit(c)
  }

  /** SQLite compares GLOB literals as they are and LIKE literals without ASCII case. */
  predicate SameChar(fold: bool, a: char, b: char) {
    if fold then Lower(a) == Lower(b) else a == b
  }

  predicate Matches(fold: bool, es: seq<Elem>, s: string)
    decreases |es| + |s|
  {
    if es == [] then s == ""
    else match es[0]
      case Any => Matches(fold, es[1..], s) || (s != "" && Matches(fold, es, s[1..]))
      case One => s != "" && Matches(fold, es[1..], s[1..])
      case Lit(c) => s != "" && SameChar(fold, c, s[0]) && Matches(fold, es[1..], s[1..])
  }

  function GlobElems(p: string): (es: seq<Elem>)
    ensures |es| == |p|
  {
    seq(|p|, i requires 0 <= i < |p| => GlobElem(p[i]))
  }

  function LikeElems(p: string): (es: seq<Elem>)
    ensures |es| == |p|
  {
    seq(|p|, i requires 0 <= i < |p| => LikeElem(p[i]))
  }

  /** One leg of the disjunction.  No generated GLOB pattern holds a character class. */
  datatype Leg = Glob(pattern: string) | Like(pattern: string)

  predicate LegMatches(leg: Leg, s: string) {
    match leg
    case Glob(p) => Matches(false, GlobElems(p), s)
    case Like(p) => Matches(true, LikeElems(p), s)
  }

  ghost predicate AnyLeg(legs: seq<Leg>, s: string) {
    exists leg :: leg in legs && LegMatches(leg, s)
  }

  // ---------- The SQL side ----------

  function ExtLegs(stem: string, exts: seq<string>): (legs: seq<Leg>)
    ensures |legs| == |exts|
    ensures forall k :: 0 <= k < |exts| ==> legs[k] == Glob("*" + (stem + "." + exts[k]))
  {
    if exts == [] then [] else [Glob("*" + (stem + "." + exts[0]))] + ExtLegs(stem, exts[1..])
  }

  function StemLegs(stems: seq<(string, seq<string>)>): seq<Leg> {
    if stems == [] then [] else ExtLegs(stems[0].0, stems[0].1) + StemLegs(stems[1..])
  }

  const DIRECTORY_LEGS: seq<Leg> := [Like("tests/%"), Like("test/%"), Like("%/tests/%"), Like("%/test/%")]
  const PYTEST_LEGS: seq<Leg> := [Glob("test_*.py"), Glob("*/test_*.py"), Glob("*conftest.py")]
  const BENCH_LEGS: seq<Leg> := [Glob("benches/*"), Glob("bench/*"), Glob("*__tests__/*")]
  const SUFFIX_LEGS: seq<Leg> := [
    Glob("*/tests.rs"), Glob("*.test.ts"), Glob("*.test.js"), Glob("*.test.tsx"), Glob("*.test.jsx"),
    Glob("*.spec.ts"), Glob("*.spec.js"), Glob("*.spec.tsx"), Glob("*.spec.jsx")]

  /** The legs of `test_path_legs_sql`, in order. */
  function TestPathLegs(): seq<Leg> {
    StemLegs(PASCAL_TEST_STEM_EXTS) + ExtLegs("_test", INFIX_TEST_EXTS)
      + DIRECTORY_LEGS + PYTEST_LEGS + BENCH_LEGS + SUFFIX_LEGS
  }

  /** The predicate `is_test_node_sql` writes. */
  ghost predicate IsTestNodeSql(isTest: bool, name: string, path: string) {
    || isTest
    || LegMatches(Glob("test_*"), name)
    || LegMatches(Glob("*Test"), name)
    || LegMatches(Glob("*Tests"), name)
    || AnyLeg(TestPathLegs(), path)
  }

  // ---------- What the patterns used here mean ----------

  function Lits(w: string): (es: seq<Elem>)
    ensures |es| == |w|
  {
    seq(|w|, i requires 0 <= i < |w| => Lit(w[i]))
  }

  predicate SameText(fold: bool, w: string, s: string) {
    |w| == |s| && forall i :: 0 <= i < |w| ==> SameChar(fold, w[i], s[i])
  }

  /** Literals first: the head must agree, and the rest of the pattern match the rest. */
  lemma {:induction false} MatchLits(fold: bool, w: string, rest: seq<Elem>, s: string)
    ensures Matches(fold, Lits(w) + rest, s) <==>
      |w| <= |s| && SameText(fold, w, s[..|w|]) && Matches(fold, rest, s[|w|..])
    decreases |w|
  {
    var es := Lits(w) + rest;
    if w == "" {
      assert es == rest && s[0..] == s;
    } else {
      assert es[0] == Lit(w[0]) && es[1..] == Lits(w[1..]) + rest;
      if s != "" {
        MatchLits(fold, w[1..], rest, s[1..]);
        if |w| <= |s| {
          assert s[1..][..|w| - 1] == s[..|w|][1..] && s[1..][|w| - 1..] == s[|w|..];
          assert SameText(fold, w, s[..|w|]) <==> SameChar(fold, w[0], s[0]) && SameText(fold, w[1..], s[..|w|][1..]);
        }
      }
    }
  }

  /** A wildcard first: the rest of the pattern matches some suffix. */
  lemma {:induction false} MatchAny(fold: bool, rest: seq<Elem>, s: string)
    ensures Matches(fold, [Any] + rest, s) <==> exists i :: 0 <= i <= |s| && Matches(fold, rest, s[i..])
    decreases |s|
  {
    var es := [Any] + rest;
    assert es[1..] == rest;
    assert s[0..] == s;
    if s != "" {
      MatchAny(fold, rest, s[1..]);
      if i :| 0 <= i <= |s[1..]| && Matches(fold, rest, s[1..][i..]) {
        assert s[1..][i..] == s[i + 1..];
      }
      if i :| 0 <= i <= |s| && Matches(fold, rest, s[i..]) {
        assert i > 0 ==> s[1..][i - 1..] == s[i..];
      }
    }
  }

  lemma MatchAnything(fold: bool, s: string)
    ensures Matches(fold, [Any], s)
  {
    MatchAny(fold, [], s);
    assert s[|s|..] == "";
    assert [Any] + [] == [Any];
  }

  lemma MatchExact(fold: bool, w: string, s: string)
    ensures Matches(fold, Lits(w), s) <==> SameText(fold, w, s)
  {
    MatchLits(fold, w, [], s);
    assert Lits(w) + [] == Lits(w);
    if |w| == |s| {
      assert s[..|w|] == s;
    }
  }

  lemma MatchPrefix(fold: bool, w: string, s: string)
    ensures Matches(fold, Lits(w) + [Any], s) <==> |w| <= |s| && SameText(fold, w, s[..|w|])
  {
    MatchLits(fold, w, [Any], s);
    if |w| <= |s| {
      MatchAnything(fold, s[|w|..]);
    }
  }

  lemma MatchSuffix(fold: bool, w: string, s: string)
    ensures Matches(fold, [Any] + Lits(w), s) <==> |w| <= |s| && SameText(fold, w, s[|s| - |w|..])
  {
    MatchAny(fold, Lits(w), s);
    forall i | 0 <= i <= |s|
      ensures Matches(fold, Lits(w), s[i..]) <==> SameText(fold, w, s[i..])
    {
      MatchExact(fold, w, s[i..]);
    }
    if i :| 0 <= i <= |s| && SameText(fold, w, s[i..]) {
      assert i == |s| - |w|;
    }
  }

  predicate FitsAt(fold: bool, w: string, s: string, i: nat) {
    i + |w| <= |s| && SameText(fold, w, s[i..i + |w|])
  }

  lemma MatchInfix(fold: bool, w: string, s: string)
    ensures Matches(fold, [Any] + (Lits(w) + [Any]), s) <==> exists i :: 0 <= i <= |s| && FitsAt(fold, w, s, i)
  {
    var rest := Lits(w) + [Any];
    MatchAny(fold, rest, s);
    forall i | 0 <= i <= |s|
      ensures Matches(fold, rest, s[i..]) <==> FitsAt(fold, w, s, i)
    {
      MatchPrefix(fold, w, s[i..]);
      if i + |w| <= |s| {
        assert s[i..][..|w|] == s[i..i + |w|];
      }
    }
  }

  // ---------- GLOB as the Rust string tests ----------

  predicate GlobPlain(w: string) {
    forall i :: 0 <= i < |w| ==> w[i] != '*' && w[i] != '?' && w[i] != '['
  }

  lemma SameTextExact(w: string, s: string)
    ensures SameText(false, w, s) <==> w == s
  {
  }

  lemma GlobConcat(a: string, b: string)
    ensures GlobElems(a + b) == GlobElems(a) + GlobElems(b)
    ensures GlobPlain(a) ==> GlobElems(a) == Lits(a)
    ensures GlobElems("*") == [Any]
  {
  }

  lemma GlobEndsWith(w: string, s: string)
    requires GlobPlain(w)
    ensures LegMatches(Glob("*" + w), s) <==> EndsWith(s, w)
  {
    hide Matches;
    GlobConcat("*", w);
    GlobConcat(w, "");
    MatchSuffix(false, w, s);
    if |w| <= |s| {
      SameTextExact(w, s[|s| - |w|..]);
    }
  }

  lemma GlobStartsWith(w: string, s: string)
    requires GlobPlain(w)
    ensures LegMatches(Glob(w + "*"), s) <==> StartsWith(s, w)
  {
    hide Matches;
    GlobConcat(w, "*");
    MatchPrefix(false, w, s);
    if |w| <= |s| {
      SameTextExact(w, s[..|w|]);
    }
  }

  lemma GlobContains(w: string, s: string)
    requires GlobPlain(w)
    ensures LegMatches(Glob("*" + (w + "*")), s) <==> Contains(s, w)
  {
    hide Matches;
    GlobConcat("*", w + "*");
    GlobConcat(w, "*");
    MatchInfix(false, w, s);
    forall i | 0 <= i <= |s|
      ensures FitsAt(false, w, s, i) <==> OccursAt(s, w, i)
    {
      if i + |w| <= |s| {
        SameTextExact(w, s[i..i + |w|]);
      }
    }
  }

  /** A prefix, anything, a suffix: both must fit without overlapping. */
  lemma GlobBetween(a: string, b: string, s: string)
    requires GlobPlain(a) && GlobPlain(b)
    ensures LegMatches(Glob(a + ("*" + b)), s) <==> |a| + |b| <= |s| && StartsWith(s, a) && EndsWith(s, b)
  {
    hide Matches;
    GlobConcat(a, "*" + b);
    GlobConcat("*", b);
    GlobConcat(b, "");
    MatchLits(false, a, [Any] + Lits(b), s);
    if |a| <= |s| {
      SameTextExact(a, s[..|a|]);
      var t := s[|a|..];
      MatchSuffix(false, b, t);
      if |b| <= |t| {
        assert t[|t| - |b|..] == s[|s| - |b|..];
        SameTextExact(b, t[|t| - |b|..]);
      }
    }
  }

  lemma GlobAnyBetween(a: string, b: string, s: string)
    requires GlobPlain(a) && GlobPlain(b)
    ensures LegMatches(Glob("*" + (a + ("*" + b))), s) <==>
      exists i :: 0 <= i <= |s| && OccursAt(s, a, i) && i + |a| + |b| <= |s| && EndsWith(s, b)
  {
    hide Matches;
    var p := a + ("*" + b);
    GlobConcat("*", p);
    MatchAny(false, GlobElems(p), s);
    forall i | 0 <= i <= |s|
      ensures Matches(false, GlobElems(p), s[i..]) <==>
        OccursAt(s, a, i) && i + |a| + |b| <= |s| && EndsWith(s, b)
    {
      var t := s[i..];
      GlobBetween(a, b, t);
      if |a| + |b| <= |t| {
        assert t[..|a|] == s[i..i + |a|];
        assert t[|t| - |b|..] == s[|s| - |b|..];
      }
    }
  }

  // ---------- LIKE as the tests on the lower-cased path ----------

  predicate LikePlain(w: string) {
    forall i :: 0 <= i < |w| ==> w[i] != '%' && w[i] != '_' && Lower(w[i]) == w[i]
  }

  lemma SameTextFolded(w: string, s: string)
    requires LikePlain(w)
    ensures SameText(true, w, s) <==> LowerAll(s) == w
  {
    if |w| == |s| {
      assert forall i :: 0 <= i < |w| ==> (SameChar(true, w[i], s[i]) <==> LowerAll(s)[i] == w[i]);
    }
  }

  lemma LikeConcat(a: string, b: string)
    ensures LikeElems(a + b) == LikeElems(a) + LikeElems(b)
    ensures LikePlain(a) ==> LikeElems(a) == Lits(a)
    ensures LikeElems("%") == [Any]
  {
  }

  lemma LowerSlice(s: string, i: nat, j: nat)
    requires i <= j <= |s|
    ensures LowerAll(s)[i..j] == LowerAll(s[i..j])
  {
  }

  lemma LikeStartsWith(w: string, s: string)
    requires LikePlain(w)
    ensures LegMatches(Like(w + "%"), s) <==> StartsWith(LowerAll(s), w)
  {
    hide Matches;
    LikeConcat(w, "%");
    MatchPrefix(true, w, s);
    if |w| <= |s| {
      SameTextFolded(w, s[..|w|]);
      LowerSlice(s, 0, |w|);
      assert s[0..|w|] == s[..|w|] && LowerAll(s)[0..|w|] == LowerAll(s)[..|w|];
    }
  }

  lemma LikeContains(w: string, s: string)
    requires LikePlain(w)
    ensures LegMatches(Like("%" + (w + "%")), s) <==> Contains(LowerAll(s), w)
  {
    hide Matches;
    LikeConcat("%", w + "%");
    LikeConcat(w, "%");
    MatchInfix(true, w, s);
    forall i | 0 <= i <= |s|
      ensures FitsAt(true, w, s, i) <==> OccursAt(LowerAll(s), w, i)
    {
      if i + |w| <= |s| {
        SameTextFolded(w, s[i..i + |w|]);
        LowerSlice(s, i, i + |w|);
      }
    }
  }

  // ---------- The legs, group by group ----------

  lemma AnyLegConcat(a: seq<Leg>, b: seq<Leg>, s: string)
    ensures AnyLeg(a + b, s) <==> AnyLeg(a, s) || AnyLeg(b, s)
  {
    hide LegMatches;
    if leg :| leg in a && LegMatches(leg, s) {
      assert leg in a + b;
    }
    if leg :| leg in b && LegMatches(leg, s) {
      assert leg in a + b;
    }
  }

  lemma ExtLegsMatch(path: string, stem: string, exts: seq<string>)
    requires GlobPlain(stem) && forall k :: 0 <= k < |exts| ==> GlobPlain(exts[k])
    ensures AnyLeg(ExtLegs(stem, exts), path) <==> EndsWithExt(path, stem, exts)
  {
    hide LegMatches, EndsWith;
    var legs := ExtLegs(stem, exts);
    forall k | 0 <= k < |exts|
      ensures LegMatches(legs[k], path) <==> EndsWith(path, stem + "." + exts[k])
    {
      GlobEndsWith(stem + "." + exts[k], path);
    }
    if leg :| leg in legs && LegMatches(leg, path) {
      var k :| 0 <= k < |legs| && legs[k] == leg;
      assert EndsWith(path, stem + "." + exts[k]);
    }
    if k :| 0 <= k < |exts| && EndsWith(path, stem + "." + exts[k]) {
      assert legs[k] in legs;
    }
  }

  lemma {:induction false} StemLegsMatch(path: string, stems: seq<(string, seq<string>)>)
    requires forall i :: 0 <= i < |stems| ==>
      GlobPlain(stems[i].0) && forall k :: 0 <= k < |stems[i].1| ==> GlobPlain(stems[i].1[k])
    ensures AnyLeg(StemLegs(stems), path) <==> EndsWithStem(path, stems)
    decreases |stems|
  {
    hide LegMatches, EndsWithExt, GlobPlain;
    if stems != [] {
      ExtLegsMatch(path, stems[0].0, stems[0].1);
      AnyLegConcat(ExtLegs(stems[0].0, stems[0].1), StemLegs(stems[1..]), path);
      StemLegsMatch(path, stems[1..]);
      assert forall i :: 0 < i < |stems| ==> stems[i] == stems[1..][i - 1];
    }
  }

  lemma DirectoryLegsMatch(path: string)
    ensures AnyLeg(DIRECTORY_LEGS, path) <==> var lower := LowerAll(path);
      StartsWith(lower, "tests/") || StartsWith(lower, "test/")
      || Contains(lower, "/tests/") || Contains(lower, "/test/")
  {
    hide LegMatches, StartsWith, Contains;
    LikeStartsWith("tests/", path);
    LikeStartsWith("test/", path);
    LikeContains("/tests/", path);
    LikeContains("/test/", path);
    assert "tests/" + "%" == "tests/%" && "test/" + "%" == "test/%";
    assert "%" + ("/tests/" + "%") == "%/tests/%" && "%" + ("/test/" + "%") == "%/test/%";
    assert DIRECTORY_LEGS[0] in DIRECTORY_LEGS && DIRECTORY_LEGS[1] in DIRECTORY_LEGS;
    assert DIRECTORY_LEGS[2] in DIRECTORY_LEGS && DIRECTORY_LEGS[3] in DIRECTORY_LEGS;
  }

  /** The pytest legs need no overlap: no suffix ".py" can begin inside "test_". */
  lemma PytestNoOverlap(path: string, w: string, i: nat)
    requires w == "test_" || w == "/test_"
    requires OccursAt(path, w, i) && EndsWith(path, ".py")
    ensures i + |w| + 3 <= |path|
  {
    var n := |path|;
    assert path[n - 3] == path[n - 3..][0] == '.';
    assert n >= i + |w|;
    assert forall k :: i <= k < i + |w| ==> path[k] == path[i..i + |w|][k - i] == w[k - i];
    assert '.' !in w;
    assert path[n - 1] == path[n - 3..][2] == 'y' && path[n - 2] == path[n - 3..][1] == 'p';
    assert 'y' !in w && 'p' !in w;
  }

  lemma PytestLegsMatch(path: string)
    ensures AnyLeg(PYTEST_LEGS, path) <==>
      EndsWith(path, ".py")
      && (StartsWith(path, "test_") || Contains(path, "/test_") || EndsWith(path, "conftest.py"))
  {
    hide LegMatches;
    GlobBetween("test_", ".py", path);
    GlobAnyBetween("/test_", ".py", path);
    GlobEndsWith("conftest.py", path);
    assert "test_" + ("*" + ".py") == "test_*.py" && "*" + ("/test_" + ("*" + ".py")) == "*/test_*.py";
    assert "*" + "conftest.py" == "*conftest.py";
    assert PYTEST_LEGS[0] in PYTEST_LEGS && PYTEST_LEGS[1] in PYTEST_LEGS && PYTEST_LEGS[2] in PYTEST_LEGS;
    if StartsWith(path, "test_") && EndsWith(path, ".py") {
      assert path[0..5] == path[..5];
      PytestNoOverlap(path, "test_", 0);
    }
    if EndsWith(path, ".py") {
      if i :| 0 <= i <= |path| && OccursAt(path, "/test_", i) {
        PytestNoOverlap(path, "/test_", i);
      }
    }
    ConftestEndsInPy(path);
  }

  lemma ConftestEndsInPy(path: string)
    ensures EndsWith(path, "conftest.py") ==> EndsWith(path, ".py")
  {
    if EndsWith(path, "conftest.py") {
      assert path[|path| - 3..] == path[|path| - 11..][8..] == "conftest.py"[8..];
    }
  }

  lemma BenchLegsMatch(path: string)
    ensures AnyLeg(BENCH_LEGS, path) <==>
      StartsWith(path, "benches/") || StartsWith(path, "bench/") || Contains(path, "__tests__/")
  {
    hide LegMatches, StartsWith, Contains;
    GlobStartsWith("benches/", path);
    GlobStartsWith("bench/", path);
    GlobContains("__tests__/", path);
    assert "benches/" + "*" == "benches/*" && "bench/" + "*" == "bench/*";
    assert "*" + ("__tests__/" + "*") == "*__tests__/*";
    assert BENCH_LEGS[0] in BENCH_LEGS && BENCH_LEGS[1] in BENCH_LEGS && BENCH_LEGS[2] in BENCH_LEGS;
  }

  const SUFFIXES: seq<string> := ["/tests.rs", ".test.ts", ".test.js", ".test.tsx", ".test.jsx",
    ".spec.ts", ".spec.js", ".spec.tsx", ".spec.jsx"]

  lemma SuffixLegAt(k: nat)
    requires k < 9
    ensures |SUFFIX_LEGS| == |SUFFIXES| == 9
    ensures SUFFIX_LEGS[k] == Glob("*" + SUFFIXES[k]) && GlobPlain(SUFFIXES[k])
  {
    var p := "*" + SUFFIXES[k];
    assert k == 0 ==> p == "*/tests.rs";
    assert k == 1 ==> p == "*.test.ts";
    assert k == 2 ==> p == "*.test.js";
    assert k == 3 ==> p == "*.test.tsx";
    assert k == 4 ==> p == "*.test.jsx";
    assert k == 5 ==> p == "*.spec.ts";
    assert k == 6 ==> p == "*.spec.js";
    assert k == 7 ==> p == "*.spec.tsx";
    assert k == 8 ==> p == "*.spec.jsx";
  }

  lemma SuffixLegsMatch(path: string)
    ensures AnyLeg(SUFFIX_LEGS, path) <==> exists k :: 0 <= k < |SUFFIXES| && EndsWith(path, SUFFIXES[k])
  {
    hide LegMatches, EndsWith;
    forall k | 0 <= k < |SUFFIX_LEGS|
      ensures LegMatches(SUFFIX_LEGS[k], path) <==> EndsWith(path, SUFFIXES[k])
    {
      SuffixLegAt(k);
      GlobEndsWith(SUFFIXES[k], path);
    }
    if leg :| leg in SUFFIX_LEGS && LegMatches(leg, path) {
      var k :| 0 <= k < |SUFFIX_LEGS| && SUFFIX_LEGS[k] == leg;
      assert EndsWith(path, SUFFIXES[k]);
    }
    if k :| 0 <= k < |SUFFIXES| && EndsWith(path, SUFFIXES[k]) {
      assert SUFFIX_LEGS[k] in SUFFIX_LEGS;
    }
  }

  lemma SuffixesListed(path: string)
    ensures (exists k :: 0 <= k < |SUFFIXES| && EndsWith(path, SUFFIXES[k])) <==>
      || EndsWith(path, "/tests.rs")
      || EndsWith(path, ".test.ts")
      || EndsWith(path, ".test.js")
      || EndsWith(path, ".test.tsx")
      || EndsWith(path, ".test.jsx")
      || EndsWith(path, ".spec.ts")
      || EndsWith(path, ".spec.js")
      || EndsWith(path, ".spec.tsx")
      || EndsWith(path, ".spec.jsx")
  {
    hide EndsWith;
    assert SUFFIXES[0] == "/tests.rs" && SUFFIXES[1] == ".test.ts" && SUFFIXES[2] == ".test.js";
    assert SUFFIXES[3] == ".test.tsx" && SUFFIXES[4] == ".test.jsx" && SUFFIXES[5] == ".spec.ts";
    assert SUFFIXES[6] == ".spec.js" && SUFFIXES[7] == ".spec.tsx" && SUFFIXES[8] == ".spec.jsx";
  }

  lemma ConstantsPlain()
    ensures forall i :: 0 <= i < |PASCAL_TEST_STEM_EXTS| ==>
      GlobPlain(PASCAL_TEST_STEM_EXTS[i].0)
      && forall k :: 0 <= k < |PASCAL_TEST_STEM_EXTS[i].1| ==> GlobPlain(PASCAL_TEST_STEM_EXTS[i].1[k])
    ensures GlobPlain("_test") && forall k :: 0 <= k < |INFIX_TEST_EXTS| ==> GlobPlain(INFIX_TEST_EXTS[k])
  {
  }

  // ---------- The two sides agree ----------

  /** Lower-casing maps the 26 capitals in order and keeps every other character. */
  lemma LowerAllIs(s: string, i: nat)
    requires i < |s|
    ensures forall k :: 0 <= k < 26 && s[i] == "ABCDEFGHIJKLMNOPQRSTUVWXYZ"[k] ==>
      LowerAll(s)[i] == "abcdefghijklmnopqrstuvwxyz"[k]
    ensures s[i] !in "ABCDEFGHIJKLMNOPQRSTUVWXYZ" ==> LowerAll(s)[i] == s[i]
  {
    forall k | 0 <= k < 26
      ensures ("ABCDEFGHIJKLMNOPQRSTUVWXYZ"[k] as int) == 65 + k && ("abcdefghijklmnopqrstuvwxyz"[k] as int) == 97 + k
    {
      AlphabetAt(k);
    }
    if 'A' <= s[i] <= 'Z' {
      assert "ABCDEFGHIJKLMNOPQRSTUVWXYZ"[(s[i] as int) - 65] == s[i];
    }
  }

  lemma AlphabetAt(k: nat)
    requires k < 26
    ensures ("ABCDEFGHIJKLMNOPQRSTUVWXYZ"[k] as int) == 65 + k
    ensures ("abcdefghijklmnopqrstuvwxyz"[k] as int) == 97 + k
  {
  }

  /** The file endings that alone make a test, written out. */
  lemma TestEndings(path: string)
    ensures EndsWithStem(path, PASCAL_TEST_STEM_EXTS) <==> exists e ::
      e in ["Test.cs", "Test.vb", "Test.fs", "Test.java", "Test.kt", "Test.scala", "Test.swift", "Test.php",
            "Tests.cs", "Tests.vb", "Tests.fs", "Tests.java", "Tests.kt", "Tests.scala", "Tests.swift", "Tests.php",
            "Spec.scala", "Spec.kt"] && EndsWith(path, e)
    ensures EndsWithExt(path, "_test", INFIX_TEST_EXTS) <==> exists e ::
      e in ["_test.go", "_test.rs", "_test.py", "_test.dart"] && EndsWith(path, e)
  {
    hide EndsWith, EndsWithExt, EndsWithStem, PASCAL_TEST_EXTS, SPEC_TEST_EXTS, INFIX_TEST_EXTS, PASCAL_TEST_STEM_EXTS;
    ClassEndings(path);
    OtherEndings(path);
    StemsAre(path);
  }

  lemma ClassEndings(path: string)
    ensures EndsWithExt(path, "Test", PASCAL_TEST_EXTS) <==> exists e ::
      e in ["Test.cs", "Test.vb", "Test.fs", "Test.java", "Test.kt", "Test.scala", "Test.swift", "Test.php"]
      && EndsWith(path, e)
    ensures EndsWithExt(path, "Tests", PASCAL_TEST_EXTS) <==> exists e ::
      e in ["Tests.cs", "Tests.vb", "Tests.fs", "Tests.java", "Tests.kt", "Tests.scala", "Tests.swift", "Tests.php"]
      && EndsWith(path, e)
  {
    hide EndsWith, EndsWithExt;
    EndingsOf(path, "Test", PASCAL_TEST_EXTS,
      ["Test.cs", "Test.vb", "Test.fs", "Test.java", "Test.kt", "Test.scala", "Test.swift", "Test.php"]);
    EndingsOf(path, "Tests", PASCAL_TEST_EXTS,
      ["Tests.cs", "Tests.vb", "Tests.fs", "Tests.java", "Tests.kt", "Tests.scala", "Tests.swift", "Tests.php"]);
  }

  lemma OtherEndings(path: string)
    ensures EndsWithExt(path, "Spec", SPEC_TEST_EXTS) <==> exists e ::
      e in ["Spec.scala", "Spec.kt"] && EndsWith(path, e)
    ensures EndsWithExt(path, "_test", INFIX_TEST_EXTS) <==> exists e ::
      e in ["_test.go", "_test.rs", "_test.py", "_test.dart"] && EndsWith(path, e)
  {
    hide EndsWith, EndsWithExt;
    EndingsOf(path, "Spec", SPEC_TEST_EXTS, ["Spec.scala", "Spec.kt"]);
    EndingsOf(path, "_test", INFIX_TEST_EXTS, ["_test.go", "_test.rs", "_test.py", "_test.dart"]);
  }

  lemma EndingsOf(path: string, stem: string, exts: seq<string>, endings: seq<string>)
    requires |endings| == |exts| && forall k :: 0 <= k < |exts| ==> endings[k] == stem + "." + exts[k]
    ensures EndsWithExt(path, stem, exts) <==> exists e :: e in endings && EndsWith(path, e)
  {
    hide EndsWith;
    if e :| e in endings && EndsWith(path, e) {
      var k :| 0 <= k < |endings| && endings[k] == e;
      assert EndsWith(path, stem + "." + exts[k]);
    }
    if EndsWithExt(path, stem, exts) {
      var k :| 0 <= k < |exts| && EndsWith(path, stem + "." + exts[k]);
      assert endings[k] in endings;
    }
  }

  lemma StemsAre(path: string)
    ensures EndsWithStem(path, PASCAL_TEST_STEM_EXTS) <==>
      EndsWithExt(path, "Test", PASCAL_TEST_EXTS) || EndsWithExt(path, "Tests", PASCAL_TEST_EXTS)
      || EndsWithExt(path, "Spec", SPEC_TEST_EXTS)
  {
    hide EndsWithExt;
    assert PASCAL_TEST_STEM_EXTS[0] == ("Test", PASCAL_TEST_EXTS);
    assert PASCAL_TEST_STEM_EXTS[1] == ("Tests", PASCAL_TEST_EXTS);
    assert PASCAL_TEST_STEM_EXTS[2] == ("Spec", SPEC_TEST_EXTS);
  }

  /** On every path the SQL disjunction says what the Rust predicate says. */
  lemma TestPathAgrees(path: string)
    ensures AnyLeg(TestPathLegs(), path) <==> IsTestPath(path)
  {
    hide LegMatches, EndsWith, StartsWith, Contains, AnyLeg, EndsWithStem, EndsWithExt, StemLegs, ExtLegs, GlobPlain;
    ConstantsPlain();
    StemLegsMatch(path, PASCAL_TEST_STEM_EXTS);
    ExtLegsMatch(path, "_test", INFIX_TEST_EXTS);
    DirectoryLegsMatch(path);
    PytestLegsMatch(path);
    BenchLegsMatch(path);
    SuffixLegsMatch(path);
    SuffixesListed(path);
    var l0 := StemLegs(PASCAL_TEST_STEM_EXTS);
    var l1 := l0 + ExtLegs("_test", INFIX_TEST_EXTS);
    var l2 := l1 + DIRECTORY_LEGS;
    var l3 := l2 + PYTEST_LEGS;
    var l4 := l3 + BENCH_LEGS;
    AnyLegConcat(l0, ExtLegs("_test", INFIX_TEST_EXTS), path);
    AnyLegConcat(l1, DIRECTORY_LEGS, path);
    AnyLegConcat(l2, PYTEST_LEGS, path);
    AnyLegConcat(l3, BENCH_LEGS, path);
    AnyLegConcat(l4, SUFFIX_LEGS, path);
  }

  /** ... and on every flag, name and path the whole node predicate does. */
  lemma TestNodeAgrees(isTest: bool, name: string, path: string)
    ensures IsTestNodeSql(isTest, name, path) <==> IsTestNode(isTest, name, path)
  {
    hide LegMatches, EndsWith, StartsWith, AnyLeg, IsTestPath, TestPathLegs;
    TestPathAgrees(path);
    GlobStartsWith("test_", name);
    GlobEndsWith("Test", name);
    GlobEndsWith("Tests", name);
    assert "test_" + "*" == "test_*" && "*" + "Test" == "*Test" && "*" + "Tests" == "*Tests";
  }
}
