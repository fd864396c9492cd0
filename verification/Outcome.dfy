/**
 Retrieval-adoption scoring (src/outcome.rs): which file touches of a session are
 credited to which retrieval call.
 */
module Outcome {
  import opened Options
  import opened Text

  // ---------- Path comparison ----------

  predicate IsSeparator(c: char) {
    c == '/' || c == '\\'
  }

  /** The non-empty components of `s`, the first one continuing `current`. */
  function ComponentsFrom(current: string, s: string): (cs: seq<string>)
    ensures forall c :: c in cs ==> c != ""
    decreases |s|
  {
    var done := if current == "" then [] else [current];
    if s == "" then done
    else if IsSeparator(s[0]) then done + ComponentsFrom("", s[1..])
    else ComponentsFrom(current + [s[0]], s[1..])
  }

  function Components(s: string): seq<string> {
    ComponentsFrom("", s)
  }

  predicate PathsMatch(returned: string, touched: string) {
    var r, t := Components(returned), Components(touched);
    if r == [] || t == [] then false else
      var long, short := if |t| >= |r| then t else r, if |t| >= |r| then r else t;
      long[|long| - |short|..] == short
  }

  // ---------- What the components of a path are ----------

  /** The name of a file or directory. */
  predicate IsName(w: string) {
    w != "" && '/' !in w && '\\' !in w
  }

  lemma {:induction false} NameContinues(current: string, w: string, rest: string)
    requires '/' !in w && '\\' !in w
    ensures ComponentsFrom(current, w + rest) == ComponentsFrom(current + w, rest)
    decreases |w|
  {
    if w == "" {
      assert w + rest == rest && current + w == current;
    } else {
      assert (w + rest)[1..] == w[1..] + rest;
      assert current + [w[0]] + w[1..] == current + w;
      NameContinues(current + [w[0]], w[1..], rest);
    }
  }

  lemma {:induction false} SeparatorSplits(current: string, a: string, c: char, b: string)
    requires c == '/' || c == '\\'
    ensures ComponentsFrom(current, a + [c] + b) == ComponentsFrom(current, a) + ComponentsFrom("", b)
    decreases |a|
  {
    if a == "" {
      assert a + [c] + b == [c] + b;
    } else {
      assert (a + [c] + b)[1..] == a[1..] + [c] + b;
      SeparatorSplits(if IsSeparator(a[0]) then "" else current + [a[0]], a[1..], c, b);
    }
  }

  /** A name is its own only component, and either separator, alone or repeated, at an
      edge or inside, splits a path into the components of its two sides. */
  lemma ComponentsAre(w: string, a: string, c: char, b: string)
    requires IsName(w) && (c == '/' || c == '\\')
    ensures Components("") == [] && Components(w) == [w]
    ensures Components(a + [c] + b) == Components(a) + Components(b)
  {
    NameContinues("", w, "");
    assert w + "" == w && "" + w == w;
    SeparatorSplits("", a, c, b);
  }

  ghost predicate AllNames(names: seq<string>) {
    forall i :: 0 <= i < |names| ==> IsName(names[i])
  }

  /** Names joined with either separator. */
  lemma {:induction false} ComponentsOfJoined(names: seq<string>, separator: char)
    requires AllNames(names) && (separator == '/' || separator == '\\')
    ensures Components(Join(names, [separator])) == names
  {
    if names == [] {
      ComponentsAre("a", "", '/', "");
    } else if |names| == 1 {
      ComponentsAre(names[0], "", '/', "");
      assert names == [names[0]];
    } else {
      ComponentsOfJoined(names[1..], separator);
      ComponentsAre(names[0], names[0], separator, Join(names[1..], [separator]));
      assert names == [names[0]] + names[1..];
    }
  }

  lemma MatchIsSuffix(a: string, b: string)
    ensures PathsMatch(a, b) <==>
      && Components(a) != [] && Components(b) != []
      && exists p :: Components(b) == p + Components(a) || Components(a) == p + Components(b)
  {
    hide Components;
    var r, t := Components(a), Components(b);
    if PathsMatch(a, b) {
      if |t| >= |r| {
        assert t == t[..|t| - |r|] + r;
      } else {
        assert r == r[..|r| - |t|] + t;
      }
    }
    if p :| t == p + r || r == p + t {
      if |t| == |r| {
        assert p == [];
      }
    }
    if |r| == |t| {
      assert r[0..] == r && t[0..] == t;
    }
  }

  /** Paths written as names between separators match exactly when both have a name and
      one list of names ends with the other, whichever separator each is written with. */
  lemma PathsMatchIff(xs: seq<string>, ys: seq<string>, c: char, d: char)
    requires AllNames(xs) && AllNames(ys) && c in {'/', '\\'} && d in {'/', '\\'}
    ensures PathsMatch(Join(xs, [c]), Join(ys, [d])) <==>
      xs != [] && ys != [] && exists p :: ys == p + xs || xs == p + ys
  {
    hide PathsMatch, Components, IsName;
    ComponentsOfJoined(xs, c);
    ComponentsOfJoined(ys, d);
    MatchIsSuffix(Join(xs, [c]), Join(ys, [d]));
  }

  /** A path means no more than its components, however its separators are written. */
  lemma PathsMatchSame(a: string, a': string, b: string)
    requires Components(a) == Components(a')
    ensures PathsMatch(a, b) == PathsMatch(a', b) == PathsMatch(b, a)
  {
    hide PathsMatch, Components;
    MatchIsSuffix(a, b);
    MatchIsSuffix(a', b);
    MatchIsSuffix(b, a);
  }

  // ---------- Sessions ----------

  datatype ReturnedItem = ReturnedItem(filePath: string, rank: Option<nat>)

  datatype Event =
    | CgCall(tool: string, query: string, returned: seq<ReturnedItem>, turn: nat)
    | FileTouch(path: string, turn: nat)
    | RawGrep
    | Other

  datatype CallOutcome = CallOutcome(
    tool: string,
    query: string,
    returnedFiles: seq<string>,
    adopted: bool,
    adoptedRank: Option<nat>,
    adoptedFile: Option<string>,
    ranked: bool,
    adoptionDistance: Option<nat>)

  /** No call of another turn stands between call `i` and event `j`. */
  ghost predicate InWindow(events: seq<Event>, i: nat, j: nat)
    requires i < |events| && events[i].CgCall?
  {
    i < j <= |events| && forall k :: i < k < j && events[k].CgCall? ==> events[k].turn == events[i].turn
  }

  /** Touch `j` may be credited to call `i`: inside its window and of another turn. */
  ghost predicate Counted(events: seq<Event>, i: nat, j: nat)
    requires i < |events| && events[i].CgCall?
  {
    j < |events| && InWindow(events, i, j) && events[j].FileTouch? && events[j].turn != events[i].turn
  }

  /** How many touches before event `m` are counted for call `i`. */
  ghost function CountedBefore(events: seq<Event>, i: nat, m: nat): nat
    requires i < |events| && events[i].CgCall? && m <= |events|
  {
    if m == 0 then 0 else CountedBefore(events, i, m - 1) + if Counted(events, i, m - 1) then 1 else 0
  }

  function TouchedBefore(events: seq<Event>, i: nat): set<string>
    requires i <= |events|
  {
    if i == 0 then {} else
      TouchedBefore(events, i - 1) + if events[i - 1].FileTouch? then {events[i - 1].path} else {}
  }

  predicate AlreadyTouched(touched: set<string>, file: string) {
    exists t :: t in touched && PathsMatch(file, t)
  }

  /** Returned items whose file no earlier touch matched, in order. */
  function Fresh(returned: seq<ReturnedItem>, touched: set<string>): seq<ReturnedItem> {
    if returned == [] then []
    else if AlreadyTouched(touched, returned[0].filePath) then Fresh(returned[1..], touched)
    else [returned[0]] + Fresh(returned[1..], touched)
  }

  function Candidates(events: seq<Event>, i: nat): seq<ReturnedItem>
    requires i < |events| && events[i].CgCall?
  {
    Fresh(events[i].returned, TouchedBefore(events, i))
  }

  /** Touch `j` matches candidate `c` of call `i`. */
  ghost predicate Hit(events: seq<Event>, i: nat, cands: seq<ReturnedItem>, j: nat, c: nat)
    requires i < |events| && events[i].CgCall?
  {
    c < |cands| && Counted(events, i, j) && PathsMatch(cands[c].filePath, events[j].path)
  }

  /** Scan order: touches in order, and for one touch the candidates in order. */
  predicate Before(j: nat, c: nat, j': nat, c': nat) {
    j < j' || (j == j' && c < c')
  }

  /** The first hit before (jj, cc). */
  ghost predicate FirstHit(events: seq<Event>, i: nat, cands: seq<ReturnedItem>, j: nat, c: nat)
    requires i < |events| && events[i].CgCall?
  {
    && c < |cands| && Hit(events, i, cands, j, c)
    && forall j': nat, c': nat :: Hit(events, i, cands, j', c') ==> !Before(j', c', j, c)
  }

  /** The hit with the least rank seen before (jj, cc), the first such. */
  ghost predicate BestHit(events: seq<Event>, i: nat, cands: seq<ReturnedItem>, jj: nat, cc: nat, j: nat, c: nat)
    requires i < |events| && events[i].CgCall?
  {
    && c < |cands| && Hit(events, i, cands, j, c) && Before(j, c, jj, cc) && cands[c].rank.Some?
    && forall j': nat, c': nat :: Hit(events, i, cands, j', c') && Before(j', c', jj, cc) && cands[c'].rank.Some? ==>
         && cands[c'].rank.value >= cands[c].rank.value
         && (Before(j', c', j, c) ==> cands[c'].rank.value > cands[c].rank.value)
  }

  /** What the scan's variables hold when everything before (jj, cc) was seen. */
  datatype Scan = Scan(
    bestRanked: Option<(nat, string)>,
    firstMatchFile: Option<string>,
    adopted: bool,
    touchesSeen: nat,
    adoptionDistance: Option<nat>)

  ghost predicate Seen(events: seq<Event>, i: nat, cands: seq<ReturnedItem>, jj: nat, cc: nat, s: Scan)
    requires i < |events| && events[i].CgCall? && jj <= |events|
  {
    SeenFirst(events, i, cands, jj, cc, s) && SeenBest(events, i, cands, jj, cc, s)
  }

  /** `adopted`, `firstMatchFile` and `adoptionDistance` tell of the first hit. */
  ghost predicate SeenFirst(events: seq<Event>, i: nat, cands: seq<ReturnedItem>, jj: nat, cc: nat, s: Scan)
    requires i < |events| && events[i].CgCall? && jj <= |events|
  {
    && (s.adopted <==> exists j: nat, c: nat :: Hit(events, i, cands, j, c) && Before(j, c, jj, cc))
    && (if s.adopted
        then exists j: nat, c: nat ::
               && FirstHit(events, i, cands, j, c) && Before(j, c, jj, cc)
               && s.firstMatchFile == Some(cands[c].filePath)
               && j < |events| && s.adoptionDistance == Some(CountedBefore(events, i, j + 1))
        else s.firstMatchFile == None && s.adoptionDistance == None)
  }

  /** `bestRanked` tells of the hit with the least rank. */
  ghost predicate SeenBest(events: seq<Event>, i: nat, cands: seq<ReturnedItem>, jj: nat, cc: nat, s: Scan)
    requires i < |events| && events[i].CgCall?
  {
    && (s.bestRanked.None? ==>
          forall j: nat, c: nat :: Hit(events, i, cands, j, c) && Before(j, c, jj, cc) ==> cands[c].rank.None?)
    && (s.bestRanked.Some? ==>
          exists j: nat, c: nat ::
            && BestHit(events, i, cands, jj, cc, j, c)
            && s.bestRanked == Some((cands[c].rank.value, cands[c].filePath)))
  }

  // ---------- One candidate, one touch, one call ----------

  function Observe(s: Scan, item: ReturnedItem): Scan {
    Scan(
      if item.rank.Some? && (s.bestRanked.None? || item.rank.value < s.bestRanked.value.0)
        then Some((item.rank.value, item.filePath)) else s.bestRanked,
      if s.firstMatchFile.None? then Some(item.filePath) else s.firstMatchFile,
      true,
      s.touchesSeen,
      if s.firstMatchFile.None? then Some(s.touchesSeen) else s.adoptionDistance)
  }

  /** Nothing new at (jj, cc): what was seen before it is what was seen before the next place. */
  lemma SeenMiss(events: seq<Event>, i: nat, cands: seq<ReturnedItem>, jj: nat, cc: nat, jj': nat, cc': nat, s: Scan)
    requires i < |events| && events[i].CgCall? && jj <= |events| && jj' <= |events|
    requires Seen(events, i, cands, jj, cc, s)
    requires forall j: nat, c: nat :: Hit(events, i, cands, j, c) ==> (Before(j, c, jj, cc) <==> Before(j, c, jj', cc'))
    ensures Seen(events, i, cands, jj', cc', s)
  {
    hide Hit, Before, CountedBefore;
    if s.bestRanked.Some? {
      var j: nat, c: nat :| BestHit(events, i, cands, jj, cc, j, c)
          && s.bestRanked == Some((cands[c].rank.value, cands[c].filePath));
      assert BestHit(events, i, cands, jj', cc', j, c);
    }
  }

  lemma FirstAfterHit(events: seq<Event>, i: nat, cands: seq<ReturnedItem>, jj: nat, cc: nat, s: Scan)
    requires i < |events| && events[i].CgCall? && jj < |events|
    requires cc < |cands| && SeenFirst(events, i, cands, jj, cc, s) && Hit(events, i, cands, jj, cc)
    requires s.touchesSeen == CountedBefore(events, i, jj + 1)
    ensures SeenFirst(events, i, cands, jj, cc + 1, Observe(s, cands[cc]))
  {
    hide Hit, CountedBefore;
    assert Before(jj, cc, jj, cc + 1);
    if s.adopted {
      var j: nat, c: nat :| FirstHit(events, i, cands, j, c) && Before(j, c, jj, cc)
        && s.firstMatchFile == Some(cands[c].filePath)
        && j < |events| && s.adoptionDistance == Some(CountedBefore(events, i, j + 1));
      assert Before(j, c, jj, cc + 1);
    } else {
      assert FirstHit(events, i, cands, jj, cc);
    }
  }

  lemma BestAfterHit(events: seq<Event>, i: nat, cands: seq<ReturnedItem>, jj: nat, cc: nat, s: Scan)
    requires i < |events| && events[i].CgCall? && jj < |events|
    requires cc < |cands| && SeenBest(events, i, cands, jj, cc, s) && Hit(events, i, cands, jj, cc)
    ensures SeenBest(events, i, cands, jj, cc + 1, Observe(s, cands[cc]))
  {
    hide Hit;
    var t := Observe(s, cands[cc]);
    if t.bestRanked != s.bestRanked {
      if s.bestRanked.Some? {
        var j: nat, c: nat :| BestHit(events, i, cands, jj, cc, j, c)
            && s.bestRanked == Some((cands[c].rank.value, cands[c].filePath));
        assert BestHit(events, i, cands, jj, cc + 1, jj, cc);
      } else {
        assert BestHit(events, i, cands, jj, cc + 1, jj, cc);
      }
    } else if s.bestRanked.Some? {
      var j: nat, c: nat :| BestHit(events, i, cands, jj, cc, j, c)
          && s.bestRanked == Some((cands[c].rank.value, cands[c].filePath));
      assert BestHit(events, i, cands, jj, cc + 1, j, c);
    }
  }

  lemma SeenHit(events: seq<Event>, i: nat, cands: seq<ReturnedItem>, jj: nat, cc: nat, s: Scan)
    requires i < |events| && events[i].CgCall? && jj < |events|
    requires cc < |cands| && Seen(events, i, cands, jj, cc, s) && Hit(events, i, cands, jj, cc)
    requires s.touchesSeen == CountedBefore(events, i, jj + 1)
    ensures Seen(events, i, cands, jj, cc + 1, Observe(s, cands[cc]))
  {
    hide Hit, CountedBefore, SeenFirst, SeenBest, Observe;
    FirstAfterHit(events, i, cands, jj, cc, s);
    BestAfterHit(events, i, cands, jj, cc, s);
  }

  // ---------- The scan forward from one call ----------

  /** The function `is_ranked_tool` of another module. */
  type RankedTool = string -> bool

  lemma SeenNothing(events: seq<Event>, i: nat, cands: seq<ReturnedItem>)
    requires i < |events| && events[i].CgCall?
    ensures Seen(events, i, cands, i + 1, 0, Scan(None, None, false, 0, None))
    ensures CountedBefore(events, i, i + 1) == 0
  {
    forall j: nat, c: nat | Hit(events, i, cands, j, c)
      ensures !Before(j, c, i + 1, 0)
    {
    }
    NothingCountedYet(events, i, i + 1);
  }

  lemma {:induction false} NothingCountedYet(events: seq<Event>, i: nat, m: nat)
    requires i < |events| && events[i].CgCall? && m <= i + 1
    ensures CountedBefore(events, i, m) == 0
  {
    if m > 0 {
      NothingCountedYet(events, i, m - 1);
    }
  }

  /** Past a call of another turn nothing is counted. */
  lemma WindowClosed(events: seq<Event>, i: nat, k: nat, j: nat)
    requires i < k < |events| && events[i].CgCall?
    requires events[k].CgCall? && events[k].turn != events[i].turn
    requires j >= k
    ensures !Counted(events, i, j)
  {
  }

  /** The loop over the candidates for the touch at `j`. */
  method MatchCandidates(events: seq<Event>, i: nat, cands: seq<ReturnedItem>, j: nat, s0: Scan) returns (s: Scan)
    requires i < |events| && events[i].CgCall?
    requires j < |events| && events[j].FileTouch? && Counted(events, i, j)
    requires Seen(events, i, cands, j, 0, s0) && s0.touchesSeen == CountedBefore(events, i, j + 1)
    ensures Seen(events, i, cands, j + 1, 0, s) && s.touchesSeen == s0.touchesSeen
  {
    hide Seen, CountedBefore, Counted, PathsMatch;
    s := s0;
    for c := 0 to |cands|
      invariant Seen(events, i, cands, j, c, s) && s.touchesSeen == s0.touchesSeen
    {
      if PathsMatch(cands[c].filePath, events[j].path) {
        SeenHit(events, i, cands, j, c, s);
        s := Observe(s, cands[c]);
      } else {
        SeenMiss(events, i, cands, j, c, j, c + 1, s);
      }
    }
    SeenMiss(events, i, cands, j, |cands|, j + 1, 0, s);
  }

  method ScanForward(events: seq<Event>, i: nat, cands: seq<ReturnedItem>) returns (s: Scan)
    requires i < |events| && events[i].CgCall?
    ensures Seen(events, i, cands, |events|, 0, s)
  {
    hide Seen, CountedBefore, PathsMatch;
    s := Scan(None, None, false, 0, None);
    SeenNothing(events, i, cands);
    var turn := events[i].turn;
    var j := i + 1;
    while j < |events|
      invariant i < j <= |events| && InWindow(events, i, j)
      invariant Seen(events, i, cands, j, 0, s)
      invariant s.touchesSeen == CountedBefore(events, i, j)
      decreases |events| - j
    {
      CountedNext(events, i, j);
      match events[j] {
        case CgCall(_, _, _, t2) =>
          if t2 != turn {
            forall j': nat, c: nat | Hit(events, i, cands, j', c)
              ensures j' < j
            {
              if j' >= j {
                WindowClosed(events, i, j, j');
              }
            }
            SeenMiss(events, i, cands, j, 0, |events|, 0, s);
            return;
          }
          SeenMiss(events, i, cands, j, 0, j + 1, 0, s);
        case FileTouch(path, t2) =>
          if t2 == turn {
            SeenMiss(events, i, cands, j, 0, j + 1, 0, s);
          } else {
            s := s.(touchesSeen := s.touchesSeen + 1);
            SeenTouches(events, i, cands, j, s.(touchesSeen := s.touchesSeen - 1), s);
            s := MatchCandidates(events, i, cands, j, s);
          }
        case _ =>
          SeenMiss(events, i, cands, j, 0, j + 1, 0, s);
      }
      j := j + 1;
    }
  }

  lemma CountedNext(events: seq<Event>, i: nat, j: nat)
    requires i < |events| && events[i].CgCall? && j < |events|
    ensures CountedBefore(events, i, j + 1) == CountedBefore(events, i, j) + if Counted(events, i, j) then 1 else 0
  {
  }

  lemma SeenTouches(events: seq<Event>, i: nat, cands: seq<ReturnedItem>, j: nat, s: Scan, t: Scan)
    requires i < |events| && events[i].CgCall? && j <= |events|
    requires Seen(events, i, cands, j, 0, s) && t == s.(touchesSeen := t.touchesSeen)
    ensures Seen(events, i, cands, j, 0, t)
  {
  }

  // ---------- What a call's outcome says ----------

  function FilePaths(returned: seq<ReturnedItem>): seq<string> {
    seq(|returned|, k requires 0 <= k < |returned| => returned[k].filePath)
  }

  /** The least-ranked hit of the whole window, the first such. */
  ghost predicate LeastRanked(events: seq<Event>, i: nat, cands: seq<ReturnedItem>, j: nat, c: nat)
    requires i < |events| && events[i].CgCall?
  {
    && c < |cands| && Hit(events, i, cands, j, c) && cands[c].rank.Some?
    && forall j': nat, c': nat :: Hit(events, i, cands, j', c') && cands[c'].rank.Some? ==>
         && cands[c'].rank.value >= cands[c].rank.value
         && (Before(j', c', j, c) ==> cands[c'].rank.value > cands[c].rank.value)
  }

  ghost predicate Describes(events: seq<Event>, i: nat, isRanked: RankedTool, o: CallOutcome)
    requires i < |events| && events[i].CgCall?
  {
    var cands := Candidates(events, i);
    && o.tool == events[i].tool && o.query == events[i].query
    && |o.returnedFiles| == |events[i].returned|
    && (forall k :: 0 <= k < |o.returnedFiles| ==> o.returnedFiles[k] == events[i].returned[k].filePath)
    && o.ranked == isRanked(o.tool)
    && (o.adopted <==> exists j: nat, c: nat :: Hit(events, i, cands, j, c))
    && (!o.adopted ==> o.adoptionDistance == None && o.adoptedRank == None && o.adoptedFile == None)
    && (o.adopted ==>
          exists j: nat, c: nat ::
            && FirstHit(events, i, cands, j, c)
            && j < |events| && o.adoptionDistance == Some(CountedBefore(events, i, j + 1))
            && (o.adoptedRank.None? ==> o.adoptedFile == Some(cands[c].filePath)))
    && (o.adoptedRank.None? ==> forall j: nat, c: nat :: Hit(events, i, cands, j, c) ==> cands[c].rank.None?)
    && (o.adoptedRank.Some? ==>
          exists j: nat, c: nat ::
            && LeastRanked(events, i, cands, j, c)
            && o.adoptedRank == cands[c].rank && o.adoptedFile == Some(cands[c].filePath))
  }

  function OutcomeOf(event: Event, isRanked: RankedTool, s: Scan): CallOutcome
    requires event.CgCall?
  {
    CallOutcome(event.tool, event.query, FilePaths(event.returned), s.adopted,
      if s.bestRanked.Some? then Some(s.bestRanked.value.0) else None,
      if s.bestRanked.Some? then Some(s.bestRanked.value.1) else s.firstMatchFile,
      isRanked(event.tool), s.adoptionDistance)
  }

  lemma HitInRange(events: seq<Event>, i: nat, cands: seq<ReturnedItem>, j: nat, c: nat)
    requires i < |events| && events[i].CgCall? && Hit(events, i, cands, j, c)
    ensures Before(j, c, |events|, 0) && c < |cands|
  {
  }

  lemma SeenDescribes(events: seq<Event>, i: nat, isRanked: RankedTool, s: Scan)
    requires i < |events| && events[i].CgCall?
    requires Seen(events, i, Candidates(events, i), |events|, 0, s)
    ensures Describes(events, i, isRanked, OutcomeOf(events[i], isRanked, s))
  {
    hide Hit, Candidates, CountedBefore, Before;
    var cands := Candidates(events, i);
    forall j: nat, c: nat | Hit(events, i, cands, j, c)
      ensures Before(j, c, |events|, 0) && c < |cands|
    {
      HitInRange(events, i, cands, j, c);
    }
    if s.bestRanked.Some? {
      var j: nat, c: nat :| BestHit(events, i, cands, |events|, 0, j, c)
        && s.bestRanked == Some((cands[c].rank.value, cands[c].filePath));
      assert LeastRanked(events, i, cands, j, c);
    }
  }

  function CallsBefore(events: seq<Event>, m: nat): (calls: seq<nat>)
    requires m <= |events|
    ensures forall n :: 0 <= n < |calls| ==> calls[n] < m && events[calls[n]].CgCall?
  {
    if m == 0 then [] else
      CallsBefore(events, m - 1) + if events[m - 1].CgCall? then [m - 1] else []
  }

  /** Every call once, in the order of the session. */
  lemma {:induction false} CallsListed(events: seq<Event>, m: nat)
    requires m <= |events|
    ensures forall i :: 0 <= i < m ==> (i in CallsBefore(events, m) <==> events[i].CgCall?)
    ensures forall n, k :: 0 <= n < k < |CallsBefore(events, m)| ==>
      CallsBefore(events, m)[n] < CallsBefore(events, m)[k]
  {
    if m > 0 {
      CallsListed(events, m - 1);
    }
  }

  /** One outcome per call, in order. */
  method ScoreSession(events: seq<Event>, isRanked: RankedTool) returns (out: seq<CallOutcome>)
    ensures |out| == |CallsBefore(events, |events|)|
    ensures forall n :: 0 <= n < |out| ==> Describes(events, CallsBefore(events, |events|)[n], isRanked, out[n])
  {
    hide Describes, Seen, PathsMatch;
    out := [];
    var touchedBefore: set<string> := {};
    for i := 0 to |events|
      invariant touchedBefore == TouchedBefore(events, i)
      invariant |out| == |CallsBefore(events, i)|
      invariant forall n :: 0 <= n < |out| ==> Describes(events, CallsBefore(events, i)[n], isRanked, out[n])
    {
      match events[i]
      case FileTouch(path, _) =>
        touchedBefore := touchedBefore + {path};
      case CgCall(_, _, returned, _) =>
        var candidates := Fresh(returned, touchedBefore);
        var scan := ScanForward(events, i, candidates);
        SeenDescribes(events, i, isRanked, scan);
        out := out + [OutcomeOf(events[i], isRanked, scan)];
      case _ =>
    }
  }

  // ---------- What the description implies ----------

  lemma {:induction false} FreshMembers(returned: seq<ReturnedItem>, touched: set<string>, it: ReturnedItem)
    ensures it in Fresh(returned, touched) <==> it in returned && !AlreadyTouched(touched, it.filePath)
  {
    hide AlreadyTouched;
    if returned != [] {
      FreshMembers(returned[1..], touched, it);
      assert returned == [returned[0]] + returned[1..];
    }
  }

  /** The candidates are the returned items in their order, less the matched ones. */
  lemma {:induction false} FreshInOrder(a: seq<ReturnedItem>, b: seq<ReturnedItem>, it: ReturnedItem,
      touched: set<string>)
    ensures Fresh(a + b, touched) == Fresh(a, touched) + Fresh(b, touched)
    ensures Fresh([it], touched) == if exists t :: t in touched && PathsMatch(it.filePath, t) then [] else [it]
    ensures Fresh([], touched) == []
  {
    hide PathsMatch;
    assert [it][1..] == [];
    if a == [] {
      assert a + b == b;
    } else {
      assert (a + b)[1..] == a[1..] + b;
      FreshInOrder(a[1..], b, it, touched);
    }
  }

  lemma {:induction false} TouchedBeforeMembers(events: seq<Event>, i: nat, path: string)
    requires i <= |events|
    ensures path in TouchedBefore(events, i) <==>
      exists k :: 0 <= k < i && events[k].FileTouch? && events[k].path == path
  {
    if i > 0 {
      TouchedBeforeMembers(events, i - 1, path);
    }
  }

  /** Touch `j` is the evidence: it is counted for the call and matches a returned
      file that nothing touched before the call did. */
  ghost predicate Evidence(events: seq<Event>, i: nat, j: nat, it: ReturnedItem)
    requires i < |events| && events[i].CgCall?
  {
    && Counted(events, i, j)
    && it in events[i].returned
    && PathsMatch(it.filePath, events[j].path)
    && forall k :: 0 <= k < i && events[k].FileTouch? ==> !PathsMatch(it.filePath, events[k].path)
  }

  lemma HitIffEvidence(events: seq<Event>, i: nat, j: nat, it: ReturnedItem)
    requires i < |events| && events[i].CgCall?
    ensures Evidence(events, i, j, it) <==>
      var cands := Candidates(events, i);
      exists c: nat :: c < |cands| && cands[c] == it && Hit(events, i, cands, j, c)
  {
    hide PathsMatch, Counted;
    var cands := Candidates(events, i);
    var touched := TouchedBefore(events, i);
    FreshMembers(events[i].returned, touched, it);
    assert AlreadyTouched(touched, it.filePath) <==>
      exists k :: 0 <= k < i && events[k].FileTouch? && PathsMatch(it.filePath, events[k].path) by {
      forall path
        ensures path in touched <==> exists k :: 0 <= k < i && events[k].FileTouch? && events[k].path == path
      {
        TouchedBeforeMembers(events, i, path);
      }
    }
    if Evidence(events, i, j, it) {
      assert it in cands;
      var c: nat :| c < |cands| && cands[c] == it;
      assert Hit(events, i, cands, j, c);
    }
  }

  /** A call is adopted exactly when there is evidence. */
  lemma AdoptedIff(events: seq<Event>, i: nat, isRanked: RankedTool, o: CallOutcome)
    requires i < |events| && events[i].CgCall? && Describes(events, i, isRanked, o)
    ensures o.adopted <==> exists j: nat, it :: Evidence(events, i, j, it)
  {
    hide Evidence, Hit, Candidates;
    var cands := Candidates(events, i);
    if o.adopted {
      var j: nat, c: nat :| Hit(events, i, cands, j, c);
      HitInRange(events, i, cands, j, c);
      HitIffEvidence(events, i, j, cands[c]);
    }
    if j: nat, it :| Evidence(events, i, j, it) {
      HitIffEvidence(events, i, j, it);
    }
  }

  /** A touch credited to two calls means the two calls share a turn. */
  lemma SharedTouchSharesTurn(events: seq<Event>, i: nat, i': nat, j: nat, it: ReturnedItem, it': ReturnedItem)
    requires i < i' < |events| && events[i].CgCall? && events[i'].CgCall?
    requires Evidence(events, i, j, it) && Evidence(events, i', j, it')
    ensures events[i].turn == events[i'].turn
  {
  }

  /** The description leaves no choice: two outcomes it fits are the same. */
  lemma DescribesUnique(events: seq<Event>, i: nat, isRanked: RankedTool, o: CallOutcome, o': CallOutcome)
    requires i < |events| && events[i].CgCall?
    requires Describes(events, i, isRanked, o) && Describes(events, i, isRanked, o')
    ensures o == o'
  {
    hide Hit, Candidates, CountedBefore;
    var cands := Candidates(events, i);
    assert o.returnedFiles == o'.returnedFiles;
    if o.adopted {
      assert o.adoptedRank.Some? <==> o'.adoptedRank.Some?;
    }
  }
}
