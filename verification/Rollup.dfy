/**
 The deduplicating fold of incoming references (src/resolve.rs): one row per source
 node and relation, carrying the lowest confidence tier of its group.
 */
module Rollup {
  import opened Options
  import opened TestPaths

  datatype Reference = Reference(
    nodeId: int, name: string, filePath: string, startLine: int,
    relation: string, confidence: string, isTest: bool)

  type Key = (int, string)

  function KeyOf(r: Reference): Key {
    (r.nodeId, r.relation)
  }

  function ConfidenceRank(c: string): nat {
    if c == "extracted" then 2 else if c == "inferred" then 1 else 0
  }

  datatype Filters = Filters(minConfidence: Option<string>, skipTests: bool)

  predicate TestFiltered(f: Filters, r: Reference) {
    f.skipTests && IsTestNode(r.isTest, r.name, r.filePath)
  }

  /** A test caller below the floor counts as test-filtered, not as this. */
  predicate ConfidenceFiltered(f: Filters, r: Reference) {
    && !TestFiltered(f, r)
    && f.minConfidence.Some?
    && ConfidenceRank(r.confidence) < ConfidenceRank(f.minConfidence.value)
  }

  predicate Passes(f: Filters, r: Reference) {
    !TestFiltered(f, r) && !ConfidenceFiltered(f, r)
  }

  function Passing(f: Filters, rows: seq<Reference>): seq<Reference> {
    if rows == [] then [] else
      Passing(f, rows[..|rows| - 1]) + if Passes(f, rows[|rows| - 1]) then [rows[|rows| - 1]] else []
  }

  // ---------- The fold ----------

  function IndexOf(refs: seq<Reference>, key: Key): (i: nat)
    ensures i <= |refs|
    ensures i < |refs| ==> KeyOf(refs[i]) == key
    ensures forall k :: 0 <= k < i ==> KeyOf(refs[k]) != key
  {
    if refs == [] || KeyOf(refs[0]) == key then 0 else 1 + IndexOf(refs[1..], key)
  }

  function FoldOne(refs: seq<Reference>, r: Reference): seq<Reference> {
    var i := IndexOf(refs, KeyOf(r));
    if i == |refs| then refs + [r]
    else if ConfidenceRank(r.confidence) < ConfidenceRank(refs[i].confidence)
      then refs[i := refs[i].(confidence := r.confidence)]
    else refs
  }

  function FoldAll(rows: seq<Reference>): seq<Reference> {
    if rows == [] then [] else FoldOne(FoldAll(rows[..|rows| - 1]), rows[|rows| - 1])
  }

  /** Rows of each target, as the index returns them; None for a failed query. */
  type Lookup = int -> Option<seq<Reference>>

  function RowsOf(lookup: Lookup, target: int): seq<Reference> {
    match lookup(target) case Some(rows) => rows case None => []
  }

  ghost function AllRows(lookup: Lookup, targets: seq<int>): seq<Reference> {
    if targets == [] then [] else
      AllRows(lookup, targets[..|targets| - 1]) + RowsOf(lookup, targets[|targets| - 1])
  }

  datatype ReferenceRollup = ReferenceRollup(refs: seq<Reference>, confidenceFiltered: nat, testFiltered: nat)

  function CountTestFiltered(f: Filters, rows: seq<Reference>): nat {
    if rows == [] then 0 else
      CountTestFiltered(f, rows[..|rows| - 1]) + if TestFiltered(f, rows[|rows| - 1]) then 1 else 0
  }

  function CountConfidenceFiltered(f: Filters, rows: seq<Reference>): nat {
    if rows == [] then 0 else
      CountConfidenceFiltered(f, rows[..|rows| - 1]) + if ConfidenceFiltered(f, rows[|rows| - 1]) then 1 else 0
  }

  ghost predicate Rolled(f: Filters, rows: seq<Reference>, r: ReferenceRollup) {
    && r.refs == FoldAll(Passing(f, rows))
    && r.testFiltered == CountTestFiltered(f, rows)
    && r.confidenceFiltered == CountConfidenceFiltered(f, rows)
  }

  /** `seen` maps the key of each kept row to its index, and nothing else. */
  ghost predicate Seen(seen: map<Key, nat>, refs: seq<Reference>) {
    && (forall k :: k in seen ==> seen[k] < |refs| && KeyOf(refs[seen[k]]) == k)
    && (forall i :: 0 <= i < |refs| ==> KeyOf(refs[i]) in seen && seen[KeyOf(refs[i])] == i)
  }

  lemma SeenIndex(seen: map<Key, nat>, refs: seq<Reference>, key: Key)
    requires Seen(seen, refs)
    ensures if key in seen then IndexOf(refs, key) == seen[key] else IndexOf(refs, key) == |refs|
  {
    var i := IndexOf(refs, key);
    if key in seen {
      assert KeyOf(refs[seen[key]]) == key;
    }
  }

  lemma CountsNext(f: Filters, rows: seq<Reference>, row: Reference)
    ensures CountTestFiltered(f, rows + [row]) == CountTestFiltered(f, rows) + if TestFiltered(f, row) then 1 else 0
    ensures CountConfidenceFiltered(f, rows + [row]) ==
      CountConfidenceFiltered(f, rows) + if ConfidenceFiltered(f, row) then 1 else 0
  {
    hide TestFiltered, ConfidenceFiltered;
    assert (rows + [row])[..|rows|] == rows;
  }

  lemma PassingNext(f: Filters, rows: seq<Reference>, row: Reference)
    ensures Passing(f, rows + [row]) == if Passes(f, row) then Passing(f, rows) + [row] else Passing(f, rows)
  {
    hide Passes;
    assert (rows + [row])[..|rows|] == rows;
  }

  lemma FoldAllNext(rows: seq<Reference>, row: Reference)
    ensures FoldAll(rows + [row]) == FoldOne(FoldAll(rows), row)
  {
    hide FoldOne;
    assert (rows + [row])[..|rows|] == rows;
  }

  lemma RolledNext(f: Filters, rows: seq<Reference>, row: Reference, r: ReferenceRollup)
    requires Rolled(f, rows, r)
    ensures Rolled(f, rows + [row],
      if TestFiltered(f, row) then r.(testFiltered := r.testFiltered + 1)
      else if ConfidenceFiltered(f, row) then r.(confidenceFiltered := r.confidenceFiltered + 1)
      else r.(refs := FoldOne(r.refs, row)))
  {
    CountsNext(f, rows, row);
    PassingNext(f, rows, row);
    FoldAllNext(Passing(f, rows), row);
    hide TestFiltered, FoldOne, Passing, FoldAll, CountTestFiltered, CountConfidenceFiltered;
  }

  /** The rows of one target. */
  method RollRows(rows: seq<Reference>, f: Filters, seen0: map<Key, nat>, soFar: ReferenceRollup,
      ghost before: seq<Reference>)
    returns (seen: map<Key, nat>, r: ReferenceRollup)
    requires Seen(seen0, soFar.refs) && Rolled(f, before, soFar)
    ensures Seen(seen, r.refs) && Rolled(f, before + rows, r)
  {
    hide Rolled, TestFiltered, ConfidenceRank, IsTestNode;
    seen := seen0;
    var refs, confidenceFiltered, testFiltered := soFar.refs, soFar.confidenceFiltered, soFar.testFiltered;
    assert before + rows[..0] == before;
    for i := 0 to |rows|
      invariant Seen(seen, refs)
      invariant Rolled(f, before + rows[..i], ReferenceRollup(refs, confidenceFiltered, testFiltered))
    {
      var row := rows[i];
      RolledNext(f, before + rows[..i], row, ReferenceRollup(refs, confidenceFiltered, testFiltered));
      assert before + rows[..i] + [row] == before + rows[..i + 1];
      TestFilteredIs(f, row);
      if f.skipTests && IsTestNode(row.isTest, row.name, row.filePath) {
        testFiltered := testFiltered + 1;
        continue;
      }
      if f.minConfidence.Some? {
        if ConfidenceRank(row.confidence) < ConfidenceRank(f.minConfidence.value) {
          confidenceFiltered := confidenceFiltered + 1;
          continue;
        }
      }
      var key := KeyOf(row);
      SeenIndex(seen, refs, key);
      if key in seen {
        var idx := seen[key];
        if ConfidenceRank(row.confidence) < ConfidenceRank(refs[idx].confidence) {
          refs := refs[idx := refs[idx].(confidence := row.confidence)];
        }
      } else {
        seen := seen[key := |refs|];
        refs := refs + [row];
      }
    }
    assert rows[..|rows|] == rows;
    r := ReferenceRollup(refs, confidenceFiltered, testFiltered);
  }

  method RollupIncomingReferences(lookup: Lookup, targets: seq<int>, f: Filters)
    returns (result: Option<ReferenceRollup>)
    ensures result.None? <==> exists i :: 0 <= i < |targets| && lookup(targets[i]).None?
    ensures result.Some? ==> Rolled(f, AllRows(lookup, targets), result.value)
  {
    hide Rolled;
    var r := ReferenceRollup([], 0, 0);
    var seen: map<Key, nat> := map[];
    RolledNothing(f);
    for t := 0 to |targets|
      invariant forall i :: 0 <= i < t ==> lookup(targets[i]).Some?
      invariant Seen(seen, r.refs)
      invariant Rolled(f, AllRows(lookup, targets[..t]), r)
    {
      var found := lookup(targets[t]);
      if found.None? {
        return None;
      }
      assert targets[..t + 1][..t] == targets[..t];
      seen, r := RollRows(found.value, f, seen, r, AllRows(lookup, targets[..t]));
    }
    assert targets[..|targets|] == targets;
    return Some(r);
  }

  lemma TestFilteredIs(f: Filters, r: Reference)
    ensures TestFiltered(f, r) <==> f.skipTests && IsTestNode(r.isTest, r.name, r.filePath)
  {
  }

  lemma RolledNothing(f: Filters)
    ensures Rolled(f, [], ReferenceRollup([], 0, 0))
  {
  }

  // ---------- What the fold yields ----------

  ghost predicate OneRowPerKey(refs: seq<Reference>) {
    forall i, j :: 0 <= i < j < |refs| ==> KeyOf(refs[i]) != KeyOf(refs[j])
  }

  /** `r` has the lowest tier of the rows with its key, and shows one of those rows. */
  ghost predicate Lowest(rows: seq<Reference>, r: Reference) {
    && (exists k :: 0 <= k < |rows| && KeyOf(rows[k]) == KeyOf(r) && rows[k].confidence == r.confidence)
    && (forall k :: 0 <= k < |rows| && KeyOf(rows[k]) == KeyOf(r) ==>
          ConfidenceRank(rows[k].confidence) >= ConfidenceRank(r.confidence))
  }

  /** Apart from its tier, `r` is the first row with its key. */
  ghost predicate FirstOfKey(rows: seq<Reference>, r: Reference) {
    var i := IndexOf(rows, KeyOf(r));
    i < |rows| && rows[i].(confidence := r.confidence) == r
  }

  ghost predicate Represents(rows: seq<Reference>, refs: seq<Reference>) {
    && OneRowPerKey(refs)
    && (forall i :: 0 <= i < |refs| ==> Lowest(rows, refs[i]) && FirstOfKey(rows, refs[i]))
    && (forall k :: 0 <= k < |rows| ==> IndexOf(refs, KeyOf(rows[k])) < |refs|)
  }

  lemma FoldOneKeepsKeys(refs: seq<Reference>, r: Reference, key: Key)
    requires OneRowPerKey(refs)
    ensures OneRowPerKey(FoldOne(refs, r))
    ensures IndexOf(FoldOne(refs, r), key) < |FoldOne(refs, r)| <==> IndexOf(refs, key) < |refs| || key == KeyOf(r)
  {
    hide ConfidenceRank;
    var next := FoldOne(refs, r);
    var i := IndexOf(refs, KeyOf(r));
    assert forall k :: 0 <= k < |refs| ==> KeyOf(next[k]) == KeyOf(refs[k]);
    assert i == |refs| ==> KeyOf(next[|refs|]) == KeyOf(r);
    var j, j' := IndexOf(refs, key), IndexOf(next, key);
    assert j < |refs| ==> KeyOf(next[j]) == key;
    assert key == KeyOf(r) && i < |refs| ==> KeyOf(next[i]) == key;
  }

  lemma LowestStill(rows: seq<Reference>, r: Reference, row: Reference)
    requires Lowest(rows, r)
    requires KeyOf(row) == KeyOf(r) ==> ConfidenceRank(row.confidence) >= ConfidenceRank(r.confidence)
    ensures Lowest(rows + [row], r)
  {
    hide ConfidenceRank;
    var next := rows + [row];
    var k :| 0 <= k < |rows| && KeyOf(rows[k]) == KeyOf(r) && rows[k].confidence == r.confidence;
    assert next[k] == rows[k];
  }

  lemma LowestNew(rows: seq<Reference>, r: Reference, row: Reference)
    requires KeyOf(row) == KeyOf(r) && row.confidence == r.confidence
    requires forall k :: 0 <= k < |rows| && KeyOf(rows[k]) == KeyOf(r) ==>
      ConfidenceRank(rows[k].confidence) >= ConfidenceRank(r.confidence)
    ensures Lowest(rows + [row], r)
  {
    hide ConfidenceRank;
    assert (rows + [row])[|rows|] == row;
  }

  lemma FirstStill(rows: seq<Reference>, r: Reference, row: Reference)
    requires FirstOfKey(rows, r)
    ensures FirstOfKey(rows + [row], r) && FirstOfKey(rows + [row], r.(confidence := row.confidence))
  {
    var next := rows + [row];
    var i, j := IndexOf(rows, KeyOf(r)), IndexOf(next, KeyOf(r));
    assert next[i] == rows[i];
    assert forall k :: 0 <= k < i ==> next[k] == rows[k];
  }

  lemma FirstNew(rows: seq<Reference>, row: Reference)
    requires IndexOf(rows, KeyOf(row)) == |rows|
    ensures FirstOfKey(rows + [row], row)
  {
    var next := rows + [row];
    assert next[|rows|] == row;
    assert forall k :: 0 <= k < |rows| ==> next[k] == rows[k] && KeyOf(rows[k]) != KeyOf(row);
  }

  lemma Unknown(rows: seq<Reference>, refs: seq<Reference>, key: Key)
    requires forall k :: 0 <= k < |rows| ==> IndexOf(refs, KeyOf(rows[k])) < |refs|
    requires IndexOf(refs, key) == |refs|
    ensures IndexOf(rows, key) == |rows|
  {
    assert forall k :: 0 <= k < |rows| ==> KeyOf(rows[k]) != key;
  }

  lemma RepresentsNext(rows: seq<Reference>, refs: seq<Reference>, row: Reference)
    requires Represents(rows, refs)
    ensures Represents(rows + [row], FoldOne(refs, row))
  {
    hide ConfidenceRank, Lowest, FirstOfKey, OneRowPerKey;
    var next, all := FoldOne(refs, row), rows + [row];
    var i := IndexOf(refs, KeyOf(row));
    FoldOneKeepsKeys(refs, row, KeyOf(row));
    forall k | 0 <= k < |all|
      ensures IndexOf(next, KeyOf(all[k])) < |next|
    {
      FoldOneKeepsKeys(refs, row, KeyOf(all[k]));
    }
    forall k | 0 <= k < |next|
      ensures Lowest(all, next[k]) && FirstOfKey(all, next[k])
    {
      if k == |refs| {
        Unknown(rows, refs, KeyOf(row));
        LowestNew(rows, row, row);
        FirstNew(rows, row);
      } else {
        FirstStill(rows, refs[k], row);
        if k == i && next[k] != refs[k] {
          LowestRanks(rows, refs[k]);
          LowestNew(rows, next[k], row);
        } else {
          OneRow(refs, i, k);
          LowestStill(rows, refs[k], row);
        }
      }
    }
  }

  lemma LowestRanks(rows: seq<Reference>, r: Reference)
    requires Lowest(rows, r)
    ensures forall k :: 0 <= k < |rows| && KeyOf(rows[k]) == KeyOf(r) ==>
      ConfidenceRank(rows[k].confidence) >= ConfidenceRank(r.confidence)
  {
  }

  lemma OneRow(refs: seq<Reference>, i: nat, k: nat)
    requires OneRowPerKey(refs) && k < |refs|
    ensures i < |refs| && i != k ==> KeyOf(refs[i]) != KeyOf(refs[k])
  {
  }

  /** The fold keeps one row per key, the first, with the lowest tier of its group. */
  lemma {:induction false} FoldRepresents(rows: seq<Reference>)
    ensures Represents(rows, FoldAll(rows))
    decreases |rows|
  {
    hide Represents, FoldOne;
    if rows == [] {
      NothingRepresents();
    } else {
      var before, row := rows[..|rows| - 1], rows[|rows| - 1];
      FoldRepresents(before);
      RepresentsNext(before, FoldAll(before), row);
      assert before + [row] == rows;
    }
  }

  lemma NothingRepresents()
    ensures Represents([], [])
  {
  }

  // ---------- Independence of the order, and conservation ----------

  ghost function TierOf(refs: seq<Reference>, key: Key): Option<nat> {
    var i := IndexOf(refs, key);
    if i < |refs| then Some(ConfidenceRank(refs[i].confidence)) else None
  }

  lemma TierAtMost(rows: seq<Reference>, rows': seq<Reference>, key: Key)
    requires multiset(rows) == multiset(rows')
    ensures TierOf(FoldAll(rows), key).Some? ==>
      TierOf(FoldAll(rows'), key).Some? && TierOf(FoldAll(rows'), key).value <= TierOf(FoldAll(rows), key).value
  {
    hide ConfidenceRank, FoldAll;
    FoldRepresents(rows);
    FoldRepresents(rows');
    var refs, refs' := FoldAll(rows), FoldAll(rows');
    var i := IndexOf(refs, key);
    if i < |refs| {
      assert Lowest(rows, refs[i]);
      var k :| 0 <= k < |rows| && KeyOf(rows[k]) == key && rows[k].confidence == refs[i].confidence;
      assert rows[k] in multiset(rows');
      var k' :| 0 <= k' < |rows'| && rows'[k'] == rows[k];
      var i' := IndexOf(refs', key);
      assert Lowest(rows', refs'[i']);
    }
  }

  lemma FoldTierIgnoresOrder(rows: seq<Reference>, rows': seq<Reference>, key: Key)
    requires multiset(rows) == multiset(rows')
    ensures TierOf(FoldAll(rows), key) == TierOf(FoldAll(rows'), key)
  {
    TierAtMost(rows, rows', key);
    TierAtMost(rows', rows, key);
  }

  lemma {:induction false} FoldAtMost(rows: seq<Reference>)
    ensures |FoldAll(rows)| <= |rows|
    decreases |rows|
  {
    if rows != [] {
      FoldAtMost(rows[..|rows| - 1]);
    }
  }

  lemma {:induction false} FiltersPartition(f: Filters, rows: seq<Reference>)
    ensures |rows| == |Passing(f, rows)|
      + CountConfidenceFiltered(f, rows) + CountTestFiltered(f, rows)
    decreases |rows|
  {
    if rows != [] {
      hide TestFiltered;
      FiltersPartition(f, rows[..|rows| - 1]);
    }
  }

  // ---------- The rollup does not depend on the order ----------

  /** The rows that pass, counted. */
  lemma {:induction false} PassingCounts(f: Filters, rows: seq<Reference>, row: Reference)
    ensures multiset(Passing(f, rows))[row] == if Passes(f, row) then multiset(rows)[row] else 0
    decreases |rows|
  {
    hide Passes;
    if rows != [] {
      PassingCounts(f, rows[..|rows| - 1], row);
      assert rows == rows[..|rows| - 1] + [rows[|rows| - 1]];
    }
  }

  lemma PassingIgnoresOrder(f: Filters, rows: seq<Reference>, rows': seq<Reference>)
    requires multiset(rows) == multiset(rows')
    ensures multiset(Passing(f, rows)) == multiset(Passing(f, rows'))
  {
    hide Passing, Passes;
    forall row
      ensures multiset(Passing(f, rows))[row] == multiset(Passing(f, rows'))[row]
    {
      PassingCounts(f, rows, row);
      PassingCounts(f, rows', row);
    }
  }

  lemma {:induction false} TestFilterAlone(f: Filters, rows: seq<Reference>)
    ensures var g := f.(minConfidence := None);
      CountTestFiltered(g, rows) == CountTestFiltered(f, rows) && CountConfidenceFiltered(g, rows) == 0
    decreases |rows|
  {
    hide IsTestNode, ConfidenceRank;
    if rows != [] {
      TestFilterAlone(f, rows[..|rows| - 1]);
    }
  }

  lemma SameSize<T>(a: seq<T>, b: seq<T>)
    requires multiset(a) == multiset(b)
    ensures |a| == |b|
  {
    assert |multiset(a)| == |a| && |multiset(b)| == |b|;
  }

  lemma CountsIgnoreOrder(f: Filters, rows: seq<Reference>, rows': seq<Reference>)
    requires multiset(rows) == multiset(rows')
    ensures CountTestFiltered(f, rows) == CountTestFiltered(f, rows')
    ensures CountConfidenceFiltered(f, rows) == CountConfidenceFiltered(f, rows')
  {
    hide Passing, CountTestFiltered, CountConfidenceFiltered;
    var g := f.(minConfidence := None);
    TestFilterAlone(f, rows);
    TestFilterAlone(f, rows');
    SameSize(rows, rows');
    forall h | h == f || h == g
      ensures |Passing(h, rows)| == |Passing(h, rows')|
    {
      PassingIgnoresOrder(h, rows, rows');
      SameSize(Passing(h, rows), Passing(h, rows'));
    }
    FiltersPartition(f, rows);
    FiltersPartition(f, rows');
    FiltersPartition(g, rows);
    FiltersPartition(g, rows');
  }

  lemma {:induction false} AllRowsConcat(lookup: Lookup, a: seq<int>, b: seq<int>)
    ensures AllRows(lookup, a + b) == AllRows(lookup, a) + AllRows(lookup, b)
    decreases |b|
  {
    if b == [] {
      assert a + b == a;
    } else {
      assert (a + b)[..|a + b| - 1] == a + b[..|b| - 1];
      AllRowsConcat(lookup, a, b[..|b| - 1]);
    }
  }

  /** The same rows for the target, in any order. */
  ghost predicate SameRows(lookup: Lookup, lookup': Lookup, target: int) {
    multiset(RowsOf(lookup, target)) == multiset(RowsOf(lookup', target))
  }

  lemma {:induction false} AllRowsIgnoreOrder(lookup: Lookup, lookup': Lookup, targets: seq<int>, targets': seq<int>)
    requires multiset(targets) == multiset(targets')
    requires forall t :: t in targets ==> SameRows(lookup, lookup', t)
    ensures multiset(AllRows(lookup, targets)) == multiset(AllRows(lookup', targets'))
    decreases |targets|
  {
    hide SameRows, RowsOf, AllRows;
    SameSize(targets, targets');
    if targets == [] {
      NoRows(lookup, targets);
      NoRows(lookup', targets');
    } else {
      var rest, last := targets[..|targets| - 1], targets[|targets| - 1];
      assert targets == rest + [last];
      assert last in multiset(targets');
      var i :| 0 <= i < |targets'| && targets'[i] == last;
      var before, after := targets'[..i], targets'[i + 1..];
      WithoutOne(rest, last, targets', i);
      AllRowsIgnoreOrder(lookup, lookup', rest, before + after);
      AllRowsConcat(lookup', before, after);
      OneMoreTarget(lookup, rest, last);
      OneMoreTarget(lookup', before, last);
      AllRowsConcat(lookup', before + [last], after);
      SameRowsOf(lookup, lookup', last);
      OneMoved(AllRows(lookup, rest), RowsOf(lookup, last), AllRows(lookup', before), RowsOf(lookup', last),
        AllRows(lookup', after));
    }
  }

  lemma WithoutOne(rest: seq<int>, last: int, targets: seq<int>, i: nat)
    requires multiset(rest + [last]) == multiset(targets) && i < |targets| && targets[i] == last
    ensures targets == targets[..i] + [last] + targets[i + 1..]
    ensures multiset(rest) == multiset(targets[..i] + targets[i + 1..])
  {
    var before, after := targets[..i], targets[i + 1..];
    assert targets == before + [last] + after;
    assert multiset(targets) == multiset(before) + multiset{last} + multiset(after);
    assert multiset(rest) == multiset(rest + [last]) - multiset{last};
  }

  lemma OneMoved(rows: seq<Reference>, own: seq<Reference>, before: seq<Reference>, own': seq<Reference>,
      after: seq<Reference>)
    requires multiset(rows) == multiset(before + after) && multiset(own) == multiset(own')
    ensures multiset(rows + own) == multiset(before + own' + after)
  {
  }

  lemma NoRows(lookup: Lookup, targets: seq<int>)
    requires |targets| == 0
    ensures AllRows(lookup, targets) == []
  {
  }

  lemma OneMoreTarget(lookup: Lookup, targets: seq<int>, last: int)
    ensures AllRows(lookup, targets + [last]) == AllRows(lookup, targets) + RowsOf(lookup, last)
  {
    assert (targets + [last])[..|targets|] == targets;
  }

  lemma SameRowsOf(lookup: Lookup, lookup': Lookup, target: int)
    requires SameRows(lookup, lookup', target)
    ensures multiset(RowsOf(lookup, target)) == multiset(RowsOf(lookup', target))
  {
  }

  /** Two rollups of the same targets, in any order and with each target's rows in any
      order, give every key the same tier (or both none) and agree on both counters. */
  lemma TierIgnoresOrder(lookup: Lookup, lookup': Lookup, targets: seq<int>, targets': seq<int>, f: Filters,
      a: ReferenceRollup, b: ReferenceRollup)
    requires multiset(targets) == multiset(targets')
    requires forall t :: t in targets ==> SameRows(lookup, lookup', t)
    requires Rolled(f, AllRows(lookup, targets), a) && Rolled(f, AllRows(lookup', targets'), b)
    ensures forall key :: TierOf(a.refs, key) == TierOf(b.refs, key)
    ensures a.testFiltered == b.testFiltered && a.confidenceFiltered == b.confidenceFiltered
  {
    hide SameRows, AllRows, Passing, FoldAll, CountTestFiltered, CountConfidenceFiltered, TierOf;
    var rows, rows' := AllRows(lookup, targets), AllRows(lookup', targets');
    AllRowsIgnoreOrder(lookup, lookup', targets, targets');
    PassingIgnoresOrder(f, rows, rows');
    CountsIgnoreOrder(f, rows, rows');
    forall key
      ensures TierOf(a.refs, key) == TierOf(b.refs, key)
    {
      FoldTierIgnoresOrder(Passing(f, rows), Passing(f, rows'), key);
    }
  }

  // ---------- What the rollup means ----------

  lemma {:induction false} PassingMembers(f: Filters, rows: seq<Reference>, row: Reference)
    ensures row in Passing(f, rows) <==> row in rows && Passes(f, row)
    decreases |rows|
  {
    hide Passes;
    if rows != [] {
      PassingMembers(f, rows[..|rows| - 1], row);
      assert rows == rows[..|rows| - 1] + [rows[|rows| - 1]];
    }
  }

  /** `c` is a tier no higher than `d`: "extracted" is above "inferred", and that above
      every other. */
  ghost predicate TierAtMostOf(c: string, d: string) {
    && (c == "extracted" ==> d == "extracted")
    && (c == "inferred" ==> d == "extracted" || d == "inferred")
  }

  lemma RankOrder(c: string, d: string)
    ensures ConfidenceRank(c) <= ConfidenceRank(d) <==> TierAtMostOf(c, d)
  {
  }

  /** The filters: a test is dropped when tests are skipped, and a row below the floor. */
  lemma PassesIff(f: Filters, r: Reference)
    ensures Passes(f, r) <==>
      && !(f.skipTests && IsTestNode(r.isTest, r.name, r.filePath))
      && (f.minConfidence.Some? ==> TierAtMostOf(f.minConfidence.value, r.confidence))
    ensures TestFiltered(f, r) <==> f.skipTests && IsTestNode(r.isTest, r.name, r.filePath)
    ensures ConfidenceFiltered(f, r) <==> !Passes(f, r) && !TestFiltered(f, r)
  {
    hide IsTestNode, ConfidenceRank, TierAtMostOf;
    if f.minConfidence.Some? {
      RankOrder(f.minConfidence.value, r.confidence);
    }
  }

  ghost predicate SameSource(a: Reference, b: Reference) {
    a.nodeId == b.nodeId && a.relation == b.relation
  }

  /** The two counters count rows: the tests dropped, and the others below the floor. */
  lemma {:induction false} CountersAre(f: Filters, rows: seq<Reference>)
    ensures CountTestFiltered(f, rows) == |set i: nat | i < |rows| && TestFiltered(f, rows[i])|
    ensures CountConfidenceFiltered(f, rows) ==
      |set i: nat | i < |rows| && !Passes(f, rows[i]) && !TestFiltered(f, rows[i])|
    decreases |rows|
  {
    hide TestFiltered, ConfidenceRank;
    if rows != [] {
      var n := |rows| - 1;
      CountersAre(f, rows[..n]);
      OneMoreIndex(n, i requires 0 <= i < |rows| => TestFiltered(f, rows[i]),
        set i: nat | i < n && TestFiltered(f, rows[..n][i]), set i: nat | i < |rows| && TestFiltered(f, rows[i]));
      OneMoreIndex(n, i requires 0 <= i < |rows| => !Passes(f, rows[i]) && !TestFiltered(f, rows[i]),
        set i: nat | i < n && !Passes(f, rows[..n][i]) && !TestFiltered(f, rows[..n][i]),
        set i: nat | i < |rows| && !Passes(f, rows[i]) && !TestFiltered(f, rows[i]));
    }
  }

  lemma OneMoreIndex(n: nat, p: int --> bool, before: set<nat>, after: set<nat>)
    requires forall i :: 0 <= i <= n ==> p.requires(i)
    requires forall i: nat :: i in before <==> i < n && p(i)
    requires forall i: nat :: i in after <==> i <= n && p(i)
    ensures |after| == |before| + if p(n) then 1 else 0
  {
    if p(n) {
      assert after == before + {n};
    } else {
      assert after == before;
    }
  }

  /** The rows that pass stay in the order they were read in. */
  lemma {:induction false} PassingInOrder(f: Filters, a: seq<Reference>, b: seq<Reference>)
    ensures Passing(f, a + b) == Passing(f, a) + Passing(f, b)
    decreases |b|
  {
    hide Passes;
    if b == [] {
      assert a + b == a;
    } else {
      var n := |b| - 1;
      PassingInOrder(f, a, b[..n]);
      assert (a + b)[..|a + b| - 1] == a + b[..n];
    }
  }

  /** The rollup: of the rows that pass, exactly one for each source node and relation, with
      the lowest tier among them and for the rest the first, in the order of those; and every
      row read was kept, folded into one kept, or counted under what filtered it. */
  lemma RollupMeaning(f: Filters, rows: seq<Reference>, r: ReferenceRollup)
    requires Rolled(f, rows, r)
    ensures var kept := Passing(f, rows);
      && (forall row :: row in kept <==> row in rows && Passes(f, row))
      && (forall i, j :: 0 <= i < j < |r.refs| ==> !SameSource(r.refs[i], r.refs[j]))
      && (forall row :: row in kept ==> exists i :: 0 <= i < |r.refs| && SameSource(r.refs[i], row))
      && (forall i :: 0 <= i < |r.refs| ==> RowFor(kept, r.refs[i]))
    ensures |r.refs| <= |Passing(f, rows)|
    ensures |rows| == |Passing(f, rows)| + r.confidenceFiltered + r.testFiltered
    ensures r.testFiltered == |set i: nat | i < |rows| && TestFiltered(f, rows[i])|
    ensures r.confidenceFiltered == |set i: nat | i < |rows| && !Passes(f, rows[i]) && !TestFiltered(f, rows[i])|
    ensures InOrder(Passing(f, rows), r.refs)
  {
    hide Represents, Passes, TestFiltered, ConfidenceFiltered, RowFor;
    var kept := Passing(f, rows);
    FoldRepresents(kept);
    FoldAtMost(kept);
    FiltersPartition(f, rows);
    forall row
      ensures row in kept <==> row in rows && Passes(f, row)
    {
      PassingMembers(f, rows, row);
    }
    RepresentsMeans(kept, r.refs);
    CountersAre(f, rows);
    FoldInOrder(kept);
  }

  /** Before any row of a result row's source comes one of the source of each earlier result row. */
  ghost predicate InOrder(kept: seq<Reference>, refs: seq<Reference>) {
    forall i, j, m :: 0 <= i < j < |refs| && 0 <= m < |kept| && SameSource(kept[m], refs[j]) ==>
      HasRowOf(kept[..m], refs[i])
  }

  ghost predicate HasRowOf(rows: seq<Reference>, r: Reference) {
    exists k :: 0 <= k < |rows| && SameSource(rows[k], r)
  }

  lemma {:induction false} FoldInOrder(rows: seq<Reference>)
    ensures InOrder(rows, FoldAll(rows))
    decreases |rows|
  {
    hide FoldOne, InOrder;
    if rows == [] {
      NothingInOrder(rows);
    } else {
      var before, row := rows[..|rows| - 1], rows[|rows| - 1];
      FoldInOrder(before);
      FoldRepresents(before);
      InOrderNext(before, FoldAll(before), row);
      assert before + [row] == rows;
    }
  }

  lemma NothingInOrder(rows: seq<Reference>)
    ensures InOrder(rows, [])
  {
  }

  lemma InOrderNext(rows: seq<Reference>, refs: seq<Reference>, row: Reference)
    requires InOrder(rows, refs) && Represents(rows, refs)
    ensures InOrder(rows + [row], FoldOne(refs, row))
  {
    hide Represents, FoldOne, IndexOf, HasRowOf;
    var rows', refs' := rows + [row], FoldOne(refs, row);
    FoldOneExtends(refs, row);
    forall i, j, m | 0 <= i < j < |refs'| && 0 <= m < |rows'| && SameSource(rows'[m], refs'[j])
      ensures HasRowOf(rows'[..m], refs'[i])
    {
      if m < |rows| {
        var known := KnownSource(rows, refs, m);
        assert j == |refs| ==> KeyOf(refs[known]) == KeyOf(row);
        assert rows'[..m] == rows[..m] && HasRowOf(rows[..m], refs[i]);
        SameHas(rows[..m], refs[i], refs'[i]);
      } else {
        assert rows'[..m] == rows;
        SomeRowOf(rows, refs, i);
        SameHas(rows, refs[i], refs'[i]);
      }
    }
  }

  lemma SameHas(rows: seq<Reference>, r: Reference, r': Reference)
    requires SameSource(r, r') && HasRowOf(rows, r)
    ensures HasRowOf(rows, r')
  {
    var k :| 0 <= k < |rows| && SameSource(rows[k], r);
    assert SameSource(rows[k], r');
  }

  lemma FoldOneExtends(refs: seq<Reference>, row: Reference)
    ensures var next := FoldOne(refs, row);
      && |refs| <= |next| <= |refs| + 1
      && (forall k :: 0 <= k < |refs| ==> SameSource(next[k], refs[k]))
      && (|next| > |refs| ==> next[|refs|] == row && IndexOf(refs, KeyOf(row)) == |refs|)
  {
    hide ConfidenceRank;
  }

  lemma KnownSource(rows: seq<Reference>, refs: seq<Reference>, m: nat) returns (j: nat)
    requires Represents(rows, refs) && m < |rows|
    ensures j < |refs| && SameSource(rows[m], refs[j])
  {
    hide Lowest, FirstOfKey, OneRowPerKey;
    j := IndexOf(refs, KeyOf(rows[m]));
  }

  lemma SomeRowOf(rows: seq<Reference>, refs: seq<Reference>, i: nat)
    requires Represents(rows, refs) && i < |refs|
    ensures HasRowOf(rows, refs[i])
  {
    hide ConfidenceRank, FirstOfKey, OneRowPerKey;
    assert Lowest(rows, refs[i]);
    var k :| 0 <= k < |rows| && KeyOf(rows[k]) == KeyOf(refs[i]);
    assert SameSource(rows[k], refs[i]);
  }

  /** The first kept row of its source, with the lowest tier of them. */
  ghost predicate RowFor(kept: seq<Reference>, r: Reference) {
    && (exists k :: 0 <= k < |kept| && SameSource(kept[k], r) && kept[k].confidence == r.confidence)
    && (forall k :: 0 <= k < |kept| && SameSource(kept[k], r) ==> TierAtMostOf(r.confidence, kept[k].confidence))
    && (exists k :: 0 <= k < |kept| && kept[k].(confidence := r.confidence) == r
          && forall m :: 0 <= m < k ==> !SameSource(kept[m], r))
  }

  lemma RepresentsMeans(kept: seq<Reference>, refs: seq<Reference>)
    requires Represents(kept, refs)
    ensures forall i, j :: 0 <= i < j < |refs| ==> !SameSource(refs[i], refs[j])
    ensures forall row :: row in kept ==> exists i :: 0 <= i < |refs| && SameSource(refs[i], row)
    ensures forall i :: 0 <= i < |refs| ==> RowFor(kept, refs[i])
  {
    hide IndexOf, ConfidenceRank, RowFor;
    forall i, j | 0 <= i < j < |refs|
      ensures !SameSource(refs[i], refs[j])
    {
      assert KeyOf(refs[i]) != KeyOf(refs[j]);
    }
    forall row | row in kept
      ensures exists i :: 0 <= i < |refs| && SameSource(refs[i], row)
    {
      var k :| 0 <= k < |kept| && kept[k] == row;
      var i := IndexOf(refs, KeyOf(kept[k]));
      assert SameSource(refs[i], row);
    }
    forall i | 0 <= i < |refs|
      ensures RowFor(kept, refs[i])
    {
      assert Lowest(kept, refs[i]) && FirstOfKey(kept, refs[i]);
      RowForIs(kept, refs[i]);
    }
  }

  lemma RowForIs(kept: seq<Reference>, r: Reference)
    requires Lowest(kept, r) && FirstOfKey(kept, r)
    ensures RowFor(kept, r)
  {
    hide IndexOf, ConfidenceRank, TierAtMostOf;
    var i := IndexOf(kept, KeyOf(r));
    assert kept[i].(confidence := r.confidence) == r;
    forall m | 0 <= m < i
      ensures !SameSource(kept[m], r)
    {
      assert KeyOf(kept[m]) != KeyOf(r);
    }
    var k :| 0 <= k < |kept| && KeyOf(kept[k]) == KeyOf(r) && kept[k].confidence == r.confidence;
    assert SameSource(kept[k], r);
    forall k | 0 <= k < |kept| && SameSource(kept[k], r)
      ensures TierAtMostOf(r.confidence, kept[k].confidence)
    {
      assert KeyOf(kept[k]) == KeyOf(r);
      RankOrder(r.confidence, kept[k].confidence);
    }
  }
}
