/**
 The output-budget optimiser (src/budget.rs): which units of an answer are shown
 in full, as a skeleton, or not at all, so that the rendered answer fits.

 `render` is any deterministic function of the levels; nothing is assumed of the
 sizes it reports unless a lemma says so.
 */
module Budget {

  datatype Level = Full | Skeleton | Dropped

  function Rank(l: Level): nat {
    match l
    case Full => 0
    case Skeleton => 1
    case Dropped => 2
  }

  function MaxLevel(a: Level, b: Level): Level {
    if Rank(b) > Rank(a) then b else a
  }

  datatype Step = Step(unit: nat, level: Level)

  type Levels = seq<Level>

  ghost predicate ValidSteps(steps: seq<Step>, n: nat) {
    forall i :: 0 <= i < |steps| ==> steps[i].unit < n
  }

  /** `a` shows at least as much of every unit as `b`. */
  ghost predicate Above(a: Levels, b: Levels) {
    |a| == |b| && forall u :: 0 <= u < |a| ==> Rank(a[u]) <= Rank(b[u])
  }

  // ---------- The order units are given up in ----------

  /** Unit `a` goes first: its key is smaller, or the keys tie and it is the later unit. */
  predicate LessImportant(key: nat -> int, a: nat, b: nat) {
    key(a) < key(b) || (key(a) == key(b) && a > b)
  }

  function InsertUnit(key: nat -> int, u: nat, order: seq<nat>): (r: seq<nat>)
    ensures |r| == |order| + 1
  {
    if order == [] || LessImportant(key, u, order[0]) then [u] + order
    else [order[0]] + InsertUnit(key, u, order[1..])
  }

  /** The units below `n`, sorted. */
  function OrderByImportance(key: nat -> int, n: nat): (order: seq<nat>)
    ensures |order| == n
  {
    if n == 0 then [] else InsertUnit(key, n - 1, OrderByImportance(key, n - 1))
  }

  ghost predicate LeastImportantFirst(key: nat -> int, order: seq<nat>) {
    forall i, j :: 0 <= i < j < |order| ==> LessImportant(key, order[i], order[j])
  }

  lemma {:induction false} InsertUnitMembers(key: nat -> int, u: nat, order: seq<nat>, x: nat)
    ensures x in InsertUnit(key, u, order) <==> x == u || x in order
  {
    if order != [] && !LessImportant(key, u, order[0]) {
      InsertUnitMembers(key, u, order[1..], x);
      assert order == [order[0]] + order[1..];
    }
  }

  lemma {:induction false} InsertUnitSorted(key: nat -> int, u: nat, order: seq<nat>)
    requires LeastImportantFirst(key, order) && u !in order
    ensures LeastImportantFirst(key, InsertUnit(key, u, order))
  {
    if order != [] && !LessImportant(key, u, order[0]) {
      InsertUnitSorted(key, u, order[1..]);
      var rest := InsertUnit(key, u, order[1..]);
      forall x | x in rest
        ensures LessImportant(key, order[0], x)
      {
        InsertUnitMembers(key, u, order[1..], x);
      }
    }
  }

  lemma {:induction false} OrderLeastFirst(key: nat -> int, n: nat)
    ensures LeastImportantFirst(key, OrderByImportance(key, n))
    ensures forall u :: u in OrderByImportance(key, n) <==> 0 <= u < n
  {
    if n > 0 {
      OrderLeastFirst(key, n - 1);
      InsertUnitSorted(key, n - 1, OrderByImportance(key, n - 1));
      forall u: nat
        ensures u in OrderByImportance(key, n) <==> u < n
      {
        InsertUnitMembers(key, n - 1, OrderByImportance(key, n - 1), u);
      }
    }
  }

  /** Each unit once, by ascending key and, where keys tie, from the last unit down. */
  lemma OrderSorted(key: nat -> int, n: nat)
    ensures var order := OrderByImportance(key, n);
      forall i, j :: 0 <= i < j < |order| ==>
        key(order[i]) < key(order[j]) || (key(order[i]) == key(order[j]) && order[i] > order[j])
    ensures forall u :: u in OrderByImportance(key, n) <==> 0 <= u < n
  {
    hide OrderByImportance;
    OrderLeastFirst(key, n);
    var order := OrderByImportance(key, n);
    forall i, j | 0 <= i < j < |order|
      ensures key(order[i]) < key(order[j]) || (key(order[i]) == key(order[j]) && order[i] > order[j])
    {
      assert LessImportant(key, order[i], order[j]);
    }
  }

  // ---------- The standard step order ----------

  function SkeletonSteps(order: seq<nat>, hasSkeleton: nat -> bool): (steps: seq<Step>)
    ensures |steps| <= |order|
  {
    if order == [] then [] else
      (if hasSkeleton(order[0]) then [Step(order[0], Skeleton)] else []) + SkeletonSteps(order[1..], hasSkeleton)
  }

  function DropSteps(order: seq<nat>): seq<Step> {
    seq(|order|, i requires 0 <= i < |order| => Step(order[i], Dropped))
  }

  function StandardSteps(order: seq<nat>, hasSkeleton: nat -> bool): seq<Step> {
    SkeletonSteps(order, hasSkeleton) + DropSteps(order)
  }

  ghost predicate Distinct(order: seq<nat>) {
    forall i, j :: 0 <= i < j < |order| ==> order[i] != order[j]
  }

  ghost predicate InRange(order: seq<nat>, n: nat) {
    forall i :: 0 <= i < |order| ==> order[i] < n
  }

  // ---------- Levels after a prefix of the steps ----------

  function Apply(levels: Levels, step: Step): (r: Levels)
    requires step.unit < |levels|
    ensures |r| == |levels|
  {
    levels[step.unit := MaxLevel(levels[step.unit], step.level)]
  }

  function LevelsAfter(initial: Levels, steps: seq<Step>, n: nat): (r: Levels)
    requires ValidSteps(steps, |initial|) && n <= |steps|
    ensures |r| == |initial|
  {
    if n == 0 then initial else Apply(LevelsAfter(initial, steps, n - 1), steps[n - 1])
  }

  method ComputeLevels(initial: Levels, steps: seq<Step>, n: nat) returns (levels: Levels)
    requires ValidSteps(steps, |initial|)
    ensures levels == LevelsAfter(initial, steps, if n < |steps| then n else |steps|)
  {
    levels := initial;
    var stop := if n < |steps| then n else |steps|;
    for i := 0 to stop
      invariant levels == LevelsAfter(initial, steps, i)
    {
      var Step(unit, level) := steps[i];
      if Rank(level) > Rank(levels[unit]) {
        levels := levels[unit := level];
      }
    }
  }

  /** More steps never show more. */
  lemma {:induction false} LevelsAfterMonotone(initial: Levels, steps: seq<Step>, m: nat, n: nat)
    requires ValidSteps(steps, |initial|) && m <= n <= |steps|
    ensures Above(LevelsAfter(initial, steps, m), LevelsAfter(initial, steps, n))
  {
    if m < n {
      LevelsAfterMonotone(initial, steps, m, n - 1);
    }
  }

  lemma LevelsAfterStep(initial: Levels, steps: seq<Step>, n: nat)
    requires ValidSteps(steps, |initial|) && n < |steps|
    ensures var before := LevelsAfter(initial, steps, n);
      LevelsAfter(initial, steps, n + 1) ==
        before[steps[n].unit := MaxLevel(before[steps[n].unit], steps[n].level)]
  {
  }

   /** After any steps a unit is dropped exactly if it was or a step dropped it, and whole
      exactly if it was and no step shortened or dropped it. */
  lemma {:induction false} LevelsAfterIs(initial: Levels, steps: seq<Step>, n: nat, u: nat)
    requires ValidSteps(steps, |initial|) && n <= |steps| && u < |initial|
    ensures var l := LevelsAfter(initial, steps, n)[u];
      && (l == Dropped <==> initial[u] == Dropped || Step(u, Dropped) in steps[..n])
      && (l == Full <==> initial[u] == Full && Step(u, Skeleton) !in steps[..n] && Step(u, Dropped) !in steps[..n])
  {
    if n > 0 {
      hide LevelsAfter;
      LevelsAfterIs(initial, steps, n - 1, u);
      LevelsAfterStep(initial, steps, n - 1);
      assert steps[..n] == steps[..n - 1] + [steps[n - 1]];
    }
  }

  /** A unit's level is its initial one or comes from a step taken on it, and no
      step taken on it asks for a lower one. */
  lemma {:induction false} LevelsAfterAt(initial: Levels, steps: seq<Step>, n: nat, u: nat)
    requires ValidSteps(steps, |initial|) && n <= |steps| && u < |initial|
    ensures var l := LevelsAfter(initial, steps, n)[u];
      && (l == initial[u] || Step(u, l) in steps[..n])
      && Rank(l) >= Rank(initial[u])
      && (forall i :: 0 <= i < n && steps[i].unit == u ==> Rank(l) >= Rank(steps[i].level))
  {
    if n > 0 {
      LevelsAfterAt(initial, steps, n - 1, u);
      assert steps[..n] == steps[..n - 1] + [steps[n - 1]];
    }
  }

  // ---------- Searching for the shortest prefix that fits ----------

  /** Where the bisection of (lo, hi] ends. */
  function Bisect(fits: seq<bool>, lo: nat, hi: nat): (n: nat)
    requires lo <= hi < |fits|
    ensures lo <= n <= hi && (lo < hi ==> lo < n)
    decreases hi - lo
  {
    if hi - lo <= 1 then hi else
      var mid := lo + (hi - lo) / 2;
      if fits[mid] then Bisect(fits, lo, mid) else Bisect(fits, mid, hi)
  }

  /** The prefixes the bisection looks at as long as none fits. */
  function Probes(lo: nat, hi: nat): (ps: seq<nat>)
    requires lo <= hi
    ensures forall p :: p in ps ==> lo < p < hi
    decreases hi - lo
  {
    if hi - lo <= 1 then [] else
      var mid := lo + (hi - lo) / 2;
      [mid] + Probes(mid, hi)
  }

  lemma {:induction false} BisectKeepsFit(fits: seq<bool>, lo: nat, hi: nat)
    requires lo <= hi < |fits| && fits[hi]
    ensures fits[Bisect(fits, lo, hi)]
    decreases hi - lo
  {
    if hi - lo > 1 {
      var mid := lo + (hi - lo) / 2;
      if fits[mid] {
        BisectKeepsFit(fits, lo, mid);
      } else {
        BisectKeepsFit(fits, mid, hi);
      }
    }
  }

  lemma BisectStep(fits: seq<bool>, lo: nat, hi: nat)
    requires lo < hi - 1 && hi < |fits|
    ensures var mid := lo + (hi - lo) / 2;
      && lo < mid < hi
      && Bisect(fits, lo, hi) == (if fits[mid] then Bisect(fits, lo, mid) else Bisect(fits, mid, hi))
      && (mid - lo <= (hi - lo + 1) / 2) && hi - mid == (hi - lo + 1) / 2
  {
  }

  lemma BisectEnd(fits: seq<bool>, lo: nat, hi: nat)
    requires lo <= hi <= lo + 1 && hi < |fits|
    ensures Bisect(fits, lo, hi) == hi && Probes(lo, hi) == []
  {
  }

  lemma ProbesStep(lo: nat, hi: nat, p: nat)
    requires lo < hi - 1
    ensures p in Probes(lo, hi) <==> p == lo + (hi - lo) / 2 || p in Probes(lo + (hi - lo) / 2, hi)
  {
  }

  /** The last prefix or one of the probes fits. */
  ghost predicate ProbeFits(fits: seq<bool>, lo: nat, hi: nat)
    requires lo <= hi < |fits|
  {
    fits[hi] || exists p: nat :: p in Probes(lo, hi) && fits[p]
  }

  lemma ProbeFitsStep(fits: seq<bool>, lo: nat, hi: nat)
    requires lo < hi - 1 && hi < |fits|
    ensures var mid := lo + (hi - lo) / 2;
      ProbeFits(fits, lo, hi) <==> fits[mid] || ProbeFits(fits, mid, hi)
  {
    hide Probes;
    var mid := lo + (hi - lo) / 2;
    ProbesStep(lo, hi, mid);
    forall p: nat
      ensures p in Probes(lo, hi) <==> p == mid || p in Probes(mid, hi)
    {
      ProbesStep(lo, hi, p);
    }
  }

  lemma ProbeFitsEnd(fits: seq<bool>, lo: nat, hi: nat)
    requires lo <= hi <= lo + 1 && hi < |fits|
    ensures ProbeFits(fits, lo, hi) <==> fits[hi]
  {
    BisectEnd(fits, lo, hi);
  }

  /** The bisection ends on a fit exactly when the last prefix or a probe fits. */
  lemma {:induction false} BisectFitsIff(fits: seq<bool>, lo: nat, hi: nat)
    requires lo <= hi < |fits|
    ensures fits[Bisect(fits, lo, hi)] <==> ProbeFits(fits, lo, hi)
    decreases hi - lo
  {
    hide Bisect, ProbeFits;
    if hi - lo > 1 {
      var mid := lo + (hi - lo) / 2;
      BisectStep(fits, lo, hi);
      ProbeFitsStep(fits, lo, hi);
      if fits[mid] {
        BisectKeepsFit(fits, lo, mid);
      } else {
        BisectFitsIff(fits, mid, hi);
      }
    } else {
      BisectEnd(fits, lo, hi);
      ProbeFitsEnd(fits, lo, hi);
    }
  }

  /** When only the last prefix was not looked at, it is where a failing search ends. */
  lemma {:induction false} BisectMiss(fits: seq<bool>, lo: nat, hi: nat)
    requires lo <= hi < |fits| && !fits[Bisect(fits, lo, hi)]
    ensures Bisect(fits, lo, hi) == hi
    decreases hi - lo
  {
    if hi - lo > 1 {
      var mid := lo + (hi - lo) / 2;
      if fits[mid] {
        BisectKeepsFit(fits, lo, mid);
      } else {
        BisectMiss(fits, mid, hi);
      }
    }
  }

  ghost predicate FitsFromOnwards(fits: seq<bool>) {
    forall m, n :: 0 <= m <= n < |fits| && fits[m] ==> fits[n]
  }

  /** Where fitting is monotone, the bisection finds the least fit. */
  lemma {:induction false} BisectLeast(fits: seq<bool>, lo: nat, hi: nat)
    requires lo < hi < |fits| && FitsFromOnwards(fits) && !fits[lo]
    ensures forall m :: 0 <= m < Bisect(fits, lo, hi) ==> !fits[m]
    decreases hi - lo
  {
    if hi - lo > 1 {
      var mid := lo + (hi - lo) / 2;
      if fits[mid] {
        BisectLeast(fits, lo, mid);
      } else {
        BisectLeast(fits, mid, hi);
      }
    } else {
      assert forall m :: 0 <= m < hi && fits[m] ==> fits[lo];
    }
  }

  function Pow2(n: nat): nat {
    if n == 0 then 1 else 2 * Pow2(n - 1)
  }

  function CeilLog2(n: nat): nat {
    if n <= 1 then 0 else 1 + CeilLog2((n + 1) / 2)
  }

  lemma {:induction false} CeilLog2Monotone(m: nat, n: nat)
    requires m <= n
    ensures CeilLog2(m) <= CeilLog2(n)
    decreases n
  {
    if m > 1 {
      CeilLog2Monotone((m + 1) / 2, (n + 1) / 2);
    }
  }

  /** It is the least power of two not below `n`. */
  lemma {:induction false} CeilLog2Exact(n: nat)
    requires n >= 1
    ensures n <= Pow2(CeilLog2(n)) && (n > 1 ==> Pow2(CeilLog2(n) - 1) < n)
  {
    if n > 1 {
      CeilLog2Exact((n + 1) / 2);
    }
  }

  // ---------- Giving room back ----------

  type Render<T> = Levels -> (T, nat)

  predicate Fits<T>(render: Render<T>, budget: nat, levels: Levels) {
    render(levels).1 <= budget
  }

  const FILL_TRIES: nat := 256

  /** Levels reached so far and renders spent. */
  datatype Filling = Filling(levels: Levels, tries: nat)

  /** The one next notch up from `level` for unit `u`. */
  function Restored(initial: Levels, applied: seq<Step>, u: nat, level: Level): Level
    requires u < |initial|
  {
    MaxLevel(if level == Dropped && Step(u, Skeleton) in applied then Skeleton else Full, initial[u])
  }

  /** Reconsider one step: undo it if that changes something and still fits. */
  function FillOne<T>(initial: Levels, applied: seq<Step>, step: Step, acc: Filling, render: Render<T>,
      budget: nat): (r: Filling)
    requires step.unit < |initial| == |acc.levels|
    ensures |r.levels| == |initial|
  {
    var up := Restored(initial, applied, step.unit, step.level);
    if acc.levels[step.unit] != step.level || Rank(up) >= Rank(step.level) then acc else
      var trial := acc.levels[step.unit := up];
      Filling(if Fits(render, budget, trial) then trial else acc.levels, acc.tries + 1)
  }

  /** Undo the steps `applied[..k]`, last first, wherever the result still fits. */
  function FillFrom<T>(initial: Levels, applied: seq<Step>, k: nat, acc: Filling, render: Render<T>,
      budget: nat): (r: Filling)
    requires ValidSteps(applied, |initial|) && k <= |applied| && |acc.levels| == |initial|
    ensures |r.levels| == |initial|
    decreases k
  {
    if k == 0 || acc.tries >= FILL_TRIES then acc
    else
      var next := FillOne(initial, applied, applied[k - 1], acc, render, budget);
      FillFrom(initial, applied, k - 1, next, render, budget)
  }

  lemma FillOneBounds<T>(initial: Levels, applied: seq<Step>, step: Step, acc: Filling, render: Render<T>, budget: nat)
    requires step.unit < |initial| && Above(initial, acc.levels) && Fits(render, budget, acc.levels)
    ensures var r := FillOne(initial, applied, step, acc, render, budget);
      Above(initial, r.levels) && Above(r.levels, acc.levels) && Fits(render, budget, r.levels)
          && acc.tries <= r.tries <= acc.tries + 1
  {
  }

  lemma AboveTransitive(a: Levels, b: Levels, c: Levels)
    requires Above(a, b) && Above(b, c)
    ensures Above(a, c)
  {
  }

  lemma AboveRefl(a: Levels)
    ensures Above(a, a)
  {
  }

  lemma {:induction false} FillBounds<T>(initial: Levels, applied: seq<Step>, k: nat, acc: Filling,
      render: Render<T>, budget: nat)
    requires ValidSteps(applied, |initial|) && k <= |applied|
    requires Above(initial, acc.levels) && Fits(render, budget, acc.levels) && acc.tries <= FILL_TRIES
    ensures var r := FillFrom(initial, applied, k, acc, render, budget);
      Above(initial, r.levels) && Above(r.levels, acc.levels) && Fits(render, budget, r.levels)
      && acc.tries <= r.tries <= FILL_TRIES && r.tries <= acc.tries + k
    decreases k
  {
    hide Above, FillOne;
    AboveRefl(acc.levels);
    if k > 0 && acc.tries < FILL_TRIES {
      SameLength(initial, acc.levels);
      FillOneBounds(initial, applied, applied[k - 1], acc, render, budget);
      var next := FillOne(initial, applied, applied[k - 1], acc, render, budget);
      FillBounds(initial, applied, k - 1, next, render, budget);
      AboveTransitive(FillFrom(initial, applied, k, acc, render, budget).levels, next.levels, acc.levels);
    } else {
      SameLength(initial, acc.levels);
    }
  }

  lemma SameLength(a: Levels, b: Levels)
    requires Above(a, b)
    ensures |a| == |b|
  {
  }

  /** The most important step given up is the first one reconsidered. */
  lemma FillPrefersLastStep<T>(initial: Levels, applied: seq<Step>, acc: Filling, render: Render<T>, budget: nat,
      u: nat, level: Level)
    requires ValidSteps(applied, |initial|) && applied != [] && acc.tries < FILL_TRIES
    requires Above(initial, acc.levels) && Fits(render, budget, acc.levels)
    requires applied[|applied| - 1] == Step(u, level) && acc.levels[u] == level
    requires Rank(Restored(initial, applied, u, level)) < Rank(level)
    requires Fits(render, budget, acc.levels[u := Restored(initial, applied, u, level)])
    ensures var r := FillFrom(initial, applied, |applied|, acc, render, budget);
      Rank(r.levels[u]) <= Rank(Restored(initial, applied, u, level))
  {
    hide Restored;
    var next := FillOne(initial, applied, Step(u, level), acc, render, budget);
    FillOneBounds(initial, applied, Step(u, level), acc, render, budget);
    FillBounds(initial, applied, |applied| - 1, next, render, budget);
  }

  // ---------- What `fill` leaves cannot be improved by one notch ----------

  /** Showing more never makes a misfit fit. */
  ghost predicate FitMonotone<T>(render: Render<T>, budget: nat, n: nat) {
    forall a, b :: |b| == n && Above(a, b) && Fits(render, budget, a) ==> Fits(render, budget, b)
  }

  /** What a prefix of the standard steps over distinct units looks like. */
  ghost predicate Orderly(applied: seq<Step>) {
    && (forall i, j :: 0 <= i < j < |applied| ==> applied[i] != applied[j])
    && (forall i, j ::
          0 <= i < |applied| && 0 <= j < |applied| && applied[i].level == Skeleton && applied[j].level == Dropped
          ==> i < j)
    && (forall i :: 0 <= i < |applied| ==> applied[i].level != Full)
  }

  /** Every unit below its initial level is there because of a step. */
  ghost predicate Supported(initial: Levels, applied: seq<Step>, levels: Levels)
    requires |levels| == |initial|
  {
    forall u :: 0 <= u < |levels| && Rank(levels[u]) > Rank(initial[u]) ==> Step(u, levels[u]) in applied
  }

  ghost predicate Stuck<T>(initial: Levels, applied: seq<Step>, levels: Levels, render: Render<T>, budget: nat, u: nat)
    requires |levels| == |initial| && u < |levels|
  {
    Rank(levels[u]) > Rank(initial[u]) ==> !Fits(render, budget, levels[u := Restored(initial, applied, u, levels[u])])
  }

  /** Every degraded unit whose step was already reconsidered is stuck. */
  ghost predicate StuckSince<T>(initial: Levels, applied: seq<Step>, k: nat, levels: Levels, render: Render<T>,
      budget: nat)
    requires |levels| == |initial| && ValidSteps(applied, |initial|)
  {
    forall i :: k <= i < |applied| && levels[applied[i].unit] == applied[i].level ==>
      Stuck(initial, applied, levels, render, budget, applied[i].unit)
  }

  lemma StuckAfterRestore<T>(initial: Levels, applied: seq<Step>, k: nat, levels: Levels, render: Render<T>,
      budget: nat)
    requires ValidSteps(applied, |initial|) && 0 < k <= |applied| && |levels| == |initial|
    requires Orderly(applied) && FitMonotone(render, budget, |initial|) && Supported(initial, applied, levels)
    requires StuckSince(initial, applied, k, levels, render, budget)
    requires levels[applied[k - 1].unit] == applied[k - 1].level
    requires Rank(Restored(initial, applied, applied[k - 1].unit, applied[k - 1].level)) < Rank(applied[k - 1].level)
    ensures var u := applied[k - 1].unit;
      var trial := levels[u := Restored(initial, applied, u, applied[k - 1].level)];
      Supported(initial, applied, trial) && StuckSince(initial, applied, k - 1, trial, render, budget)
  {
    var Step(u, level) := applied[k - 1];
    var up := Restored(initial, applied, u, level);
    var trial := levels[u := up];
    forall i | k - 1 <= i < |applied| && trial[applied[i].unit] == applied[i].level
      ensures Stuck(initial, applied, trial, render, budget, applied[i].unit)
    {
      var v := applied[i].unit;
      if v != u {
        assert Stuck(initial, applied, levels, render, budget, v);
        var r := Restored(initial, applied, v, levels[v]);
        assert Above(trial[v := r], levels[v := r]);
      }
    }
  }

  /** Steps on units that already stand elsewhere, or that cannot rise, change nothing. */
  lemma StuckWhenSkipped<T>(initial: Levels, applied: seq<Step>, k: nat, levels: Levels, render: Render<T>, budget: nat)
    requires ValidSteps(applied, |initial|) && 0 < k <= |applied| && |levels| == |initial|
    requires Orderly(applied)
    requires StuckSince(initial, applied, k, levels, render, budget)
    requires var Step(u, level) := applied[k - 1];
      || levels[u] != level
      || Rank(Restored(initial, applied, u, level)) >= Rank(level)
      || !Fits(render, budget, levels[u := Restored(initial, applied, u, level)])
    ensures StuckSince(initial, applied, k - 1, levels, render, budget)
  {
  }

  lemma FillOneStuck<T>(initial: Levels, applied: seq<Step>, k: nat, acc: Filling, render: Render<T>, budget: nat)
    requires ValidSteps(applied, |initial|) && 0 < k <= |applied| && |acc.levels| == |initial|
    requires Orderly(applied) && FitMonotone(render, budget, |initial|) && Supported(initial, applied, acc.levels)
    requires StuckSince(initial, applied, k, acc.levels, render, budget)
    ensures var r := FillOne(initial, applied, applied[k - 1], acc, render, budget).levels;
      Supported(initial, applied, r) && StuckSince(initial, applied, k - 1, r, render, budget)
  {
    hide Orderly, FitMonotone, Supported, StuckSince, Restored;
    var Step(u, level) := applied[k - 1];
    var up := Restored(initial, applied, u, level);
    if acc.levels[u] == level && Rank(up) < Rank(level) && Fits(render, budget, acc.levels[u := up]) {
      StuckAfterRestore(initial, applied, k, acc.levels, render, budget);
    } else {
      StuckWhenSkipped(initial, applied, k, acc.levels, render, budget);
    }
  }

  lemma {:induction false} FillLeavesStuck<T>(initial: Levels, applied: seq<Step>, k: nat, acc: Filling,
      render: Render<T>, budget: nat)
    requires ValidSteps(applied, |initial|) && k <= |applied| && |acc.levels| == |initial|
    requires Orderly(applied) && FitMonotone(render, budget, |initial|) && Supported(initial, applied, acc.levels)
    requires StuckSince(initial, applied, k, acc.levels, render, budget)
    requires FillFrom(initial, applied, k, acc, render, budget).tries < FILL_TRIES || acc.tries + k <= FILL_TRIES
    ensures var r := FillFrom(initial, applied, k, acc, render, budget).levels;
      Supported(initial, applied, r) && StuckSince(initial, applied, 0, r, render, budget)
    decreases k
  {
    hide Orderly, FitMonotone, Supported, StuckSince, Restored;
    if k > 0 && acc.tries < FILL_TRIES {
      FillOneStuck(initial, applied, k, acc, render, budget);
      var next := FillOne(initial, applied, applied[k - 1], acc, render, budget);
      FillLeavesStuck(initial, applied, k - 1, next, render, budget);
    }
  }

  // ---------- A prefix of the standard steps is orderly ----------

  lemma {:induction false} SkeletonStepsShape(order: seq<nat>, hasSkeleton: nat -> bool)
    requires Distinct(order)
    ensures var steps := SkeletonSteps(order, hasSkeleton);
      && (forall i :: 0 <= i < |steps| ==> steps[i].level == Skeleton && steps[i].unit in order)
      && (forall i, j :: 0 <= i < j < |steps| ==> steps[i] != steps[j])
      && (forall u :: Step(u, Skeleton) in steps <==> u in order && hasSkeleton(u))
  {
    if order != [] {
      SkeletonStepsShape(order[1..], hasSkeleton);
      assert order == [order[0]] + order[1..];
      assert order[0] !in order[1..];
    }
  }

  /** Every skeleton step comes before every drop, and no step comes twice. */
  lemma StandardStepsOrderly(order: seq<nat>, hasSkeleton: nat -> bool, n: nat)
    requires Distinct(order) && n <= |StandardSteps(order, hasSkeleton)|
    ensures Orderly(StandardSteps(order, hasSkeleton)[..n])
  {
    SkeletonStepsShape(order, hasSkeleton);
  }

  lemma {:induction false} StandardStepsValid(order: seq<nat>, hasSkeleton: nat -> bool, n: nat)
    requires InRange(order, n)
    ensures ValidSteps(StandardSteps(order, hasSkeleton), n)
  {
    if order != [] {
      StandardStepsValid(order[1..], hasSkeleton, n);
      var rest := StandardSteps(order[1..], hasSkeleton);
      var skeletons := SkeletonSteps(order[1..], hasSkeleton);
      assert forall i :: 0 <= i < |skeletons| ==> rest[i] == skeletons[i];
    }
  }

  /** Whenever a unit is dropped by a prefix and has a skeleton, its skeleton step
      is in that prefix too. */
  lemma DropImpliesSkeleton(order: seq<nat>, hasSkeleton: nat -> bool, n: nat, u: nat)
    requires Distinct(order) && n <= |StandardSteps(order, hasSkeleton)|
    requires Step(u, Dropped) in StandardSteps(order, hasSkeleton)[..n]
    ensures Step(u, Skeleton) in StandardSteps(order, hasSkeleton)[..n] <==> hasSkeleton(u)
  {
    SkeletonStepsShape(order, hasSkeleton);
    var skeletons := SkeletonSteps(order, hasSkeleton);
    var steps := StandardSteps(order, hasSkeleton);
    var j :| 0 <= j < n && steps[j] == Step(u, Dropped);
    assert j >= |skeletons|;
    assert u == order[j - |skeletons|];
    if hasSkeleton(u) {
      var i :| 0 <= i < |skeletons| && skeletons[i] == Step(u, Skeleton);
      assert steps[i] == Step(u, Skeleton);
    } else {
      assert Step(u, Skeleton) !in skeletons;
    }
  }

  /** The standard steps are, over the units of the order, every drop and the skeleton
      step of every unit that has a skeleton. */
  lemma StandardStepsAre(order: seq<nat>, hasSkeleton: nat -> bool, u: nat, level: Level)
    ensures Step(u, level) in StandardSteps(order, hasSkeleton) <==>
      u in order && (level == Dropped || (level == Skeleton && hasSkeleton(u)))
  {
    hide SkeletonSteps;
    SkeletonStepsAre(order, hasSkeleton, u, level);
    var drops := DropSteps(order);
    if u in order && level == Dropped {
      var i :| 0 <= i < |order| && order[i] == u;
      assert drops[i] == Step(u, Dropped);
    }
  }

  lemma {:induction false} SkeletonStepsAre(order: seq<nat>, hasSkeleton: nat -> bool, u: nat, level: Level)
    ensures Step(u, level) in SkeletonSteps(order, hasSkeleton) <==>
      u in order && level == Skeleton && hasSkeleton(u)
  {
    if order != [] {
      SkeletonStepsAre(order[1..], hasSkeleton, u, level);
      assert order == [order[0]] + order[1..];
    }
  }

  /** After all of them every unit of the order is dropped and no other unit has moved. */
  lemma AllStandardSteps(initial: Levels, order: seq<nat>, hasSkeleton: nat -> bool)
    requires InRange(order, |initial|)
    ensures ValidSteps(StandardSteps(order, hasSkeleton), |initial|)
    ensures var steps := StandardSteps(order, hasSkeleton);
      forall u: nat :: u < |initial| ==>
        LevelsAfter(initial, steps, |steps|)[u] == if u in order then Dropped else initial[u]
  {
    hide StandardSteps, LevelsAfter;
    StandardStepsValid(order, hasSkeleton, |initial|);
    var steps := StandardSteps(order, hasSkeleton);
    assert steps[..|steps|] == steps;
    forall u: nat | u < |initial|
      ensures LevelsAfter(initial, steps, |steps|)[u] == if u in order then Dropped else initial[u]
    {
      LevelsAfterIs(initial, steps, |steps|, u);
      StandardStepsAre(order, hasSkeleton, u, Dropped);
      StandardStepsAre(order, hasSkeleton, u, Skeleton);
    }
  }

  /** Among the skeleton steps, the units keep their order. */
  lemma {:induction false} SkeletonsInOrder(order: seq<nat>, hasSkeleton: nat -> bool, i: nat, j: nat, k: nat)
      returns (k': nat)
    requires Distinct(order) && i < j < |order| && hasSkeleton(order[i])
    requires k < |SkeletonSteps(order, hasSkeleton)| && SkeletonSteps(order, hasSkeleton)[k].unit == order[j]
    ensures k' < k && SkeletonSteps(order, hasSkeleton)[k'] == Step(order[i], Skeleton)
  {
    if i == 0 {
      k' := 0;
    } else {
      var head := if hasSkeleton(order[0]) then 1 else 0;
      k' := SkeletonsInOrder(order[1..], hasSkeleton, i - 1, j - 1, k - head);
      k' := k' + head;
    }
  }

  /** A prefix that takes a step on one unit took the same step on every unit before
      it, as far as that unit has such a step. */
  lemma EarlierUnitStepped(order: seq<nat>, hasSkeleton: nat -> bool, n: nat, i: nat, j: nat, level: Level)
    requires Distinct(order) && i < j < |order| && n <= |StandardSteps(order, hasSkeleton)|
    requires Step(order[j], level) in StandardSteps(order, hasSkeleton)[..n]
    ensures level == Dropped || (level == Skeleton && hasSkeleton(order[i])) ==>
      Step(order[i], level) in StandardSteps(order, hasSkeleton)[..n]
  {
    var steps, skeletons := StandardSteps(order, hasSkeleton), SkeletonSteps(order, hasSkeleton);
    SkeletonStepsShape(order, hasSkeleton);
    var k :| 0 <= k < n && steps[k] == Step(order[j], level);
    if level == Dropped {
      assert k == |skeletons| + j;
      assert steps[|skeletons| + i] == Step(order[i], Dropped);
    } else if level == Skeleton && hasSkeleton(order[i]) {
      var k' := SkeletonsInOrder(order, hasSkeleton, i, j, k);
      assert steps[k'] == Step(order[i], Skeleton);
    }
  }

  /** However many standard steps are taken, a unit that started no lower than a less
      important one is not dropped before it, nor shortened before it if the other has
      a short form. */
  lemma ImportantUnitsOutlast(initial: Levels, key: nat -> int, hasSkeleton: nat -> bool, n: nat, a: nat, b: nat)
    requires a < |initial| && b < |initial| && LessImportant(key, a, b)
    requires Rank(initial[a]) >= Rank(initial[b])
    requires n <= |StandardSteps(OrderByImportance(key, |initial|), hasSkeleton)|
    ensures ValidSteps(StandardSteps(OrderByImportance(key, |initial|), hasSkeleton), |initial|)
    ensures var l := LevelsAfter(initial, StandardSteps(OrderByImportance(key, |initial|), hasSkeleton), n);
      && (l[b] == Dropped ==> l[a] == Dropped)
      && (hasSkeleton(a) ==> Rank(l[a]) >= Rank(l[b]))
  {
    hide OrderByImportance, StandardSteps, LevelsAfter;
    var order := OrderByImportance(key, |initial|);
    var steps := StandardSteps(order, hasSkeleton);
    OrderLeastFirst(key, |initial|);
    assert InRange(order, |initial|) by {
      assert forall i :: 0 <= i < |order| ==> order[i] in order;
    }
    StandardStepsValid(order, hasSkeleton, |initial|);
    assert a in order && b in order;
    var i :| 0 <= i < |order| && order[i] == a;
    var j :| 0 <= j < |order| && order[j] == b;
    LevelsAfterAt(initial, steps, n, a);
    LevelsAfterAt(initial, steps, n, b);
    var level := LevelsAfter(initial, steps, n)[b];
    if level != initial[b] {
      EarlierUnitStepped(order, hasSkeleton, n, i, j, level);
    }
  }

  // ---------- `fit` ----------

  datatype Fitted<T> = Fitted(output: T, levels: Levels, bytes: nat, overBudget: bool)

  /** For each number of steps from none to all, whether the answer after them fits. */
  function PrefixFits<T>(initial: Levels, steps: seq<Step>, render: Render<T>, budget: nat): (fits: seq<bool>)
    requires ValidSteps(steps, |initial|)
    ensures |fits| == |steps| + 1
    ensures forall n: nat :: n <= |steps| ==> (fits[n] <==> Fits(render, budget, LevelsAfter(initial, steps, n)))
  {
    seq(|steps| + 1, n requires 0 <= n <= |steps| => Fits(render, budget, LevelsAfter(initial, steps, n)))
  }

  /** The prefix the search settles on. */
  function ChosenPrefix<T>(initial: Levels, steps: seq<Step>, render: Render<T>, budget: nat): (n: nat)
    requires ValidSteps(steps, |initial|)
    ensures n <= |steps|
  {
    var fits := PrefixFits(initial, steps, render, budget);
    if fits[0] then 0 else Bisect(fits, 0, |steps|)
  }

  /** The levels `fit` reports, and how many renders `fill` spent. */
  function FitLevels<T>(initial: Levels, steps: seq<Step>, render: Render<T>, budget: nat): (r: Filling)
    requires ValidSteps(steps, |initial|)
    ensures |r.levels| == |initial|
  {
    var n := ChosenPrefix(initial, steps, render, budget);
    var levels := LevelsAfter(initial, steps, n);
    if n == 0 || !Fits(render, budget, levels) then Filling(levels, 0)
    else FillFrom(initial, steps[..n], n, Filling(levels, 0), render, budget)
  }

  /** The prefixes whose fit decides the outcome: none, all, and the bisection's probes. */
  function Examined(n: nat): (ps: seq<nat>)
    ensures forall p :: p in ps ==> p <= n
  {
    [0, n] + Probes(0, n)
  }

  /** One of the prefixes that are looked at fits. */
  ghost predicate SomeExaminedFits(fits: seq<bool>)
    requires fits != []
  {
    exists p: nat :: p in Examined(|fits| - 1) && fits[p]
  }

  lemma ExaminedDecides(fits: seq<bool>)
    requires fits != []
    ensures var n := |fits| - 1;
      fits[if fits[0] then 0 else Bisect(fits, 0, n)] <==> SomeExaminedFits(fits)
  {
    hide Bisect, Probes;
    var n := |fits| - 1;
    BisectFitsIff(fits, 0, n);
    assert Examined(n)[0] == 0 && Examined(n)[1] == n;
    forall p: nat
      ensures p in Examined(n) <==> p == 0 || p == n || p in Probes(0, n)
    {
    }
  }

  method Fill<T>(initial: Levels, applied: seq<Step>, budget: nat, start: Fitted<T>, render: Render<T>)
    returns (best: Fitted<T>, tries: nat)
    requires ValidSteps(applied, |initial|) && |start.levels| == |initial|
    requires (start.output, start.bytes) == render(start.levels) && start.bytes <= budget && !start.overBudget
    ensures Filling(best.levels, tries)
      == FillFrom(initial, applied, |applied|, Filling(start.levels, 0), render, budget)
    ensures (best.output, best.bytes) == render(best.levels) && best.bytes <= budget && !best.overBudget
    ensures tries <= FILL_TRIES
  {
    hide FillFrom;
    best, tries := start, 0;
    var k := |applied|;
    while k > 0
      invariant 0 <= k <= |applied| && |best.levels| == |initial| && tries <= FILL_TRIES
      invariant (best.output, best.bytes) == render(best.levels) && best.bytes <= budget && !best.overBudget
      invariant FillFrom(initial, applied, k, Filling(best.levels, tries), render, budget)
        == FillFrom(initial, applied, |applied|, Filling(start.levels, 0), render, budget)
    {
      if tries >= FILL_TRIES {
        break;
      }
      FillStep(initial, applied, k, Filling(best.levels, tries), render, budget);
      var Step(unit, level) := applied[k - 1];
      k := k - 1;
      if best.levels[unit] != level {
        continue;
      }
      var up := if level == Dropped && Step(unit, Skeleton) in applied then Skeleton else Full;
      up := MaxLevel(up, initial[unit]);
      if Rank(up) >= Rank(level) {
        continue;
      }
      var levels := best.levels[unit := up];
      tries := tries + 1;
      var (output, bytes) := render(levels);
      if bytes <= budget {
        best := Fitted(output, levels, bytes, false);
      }
    }
    FillEnd(initial, applied, k, Filling(best.levels, tries), render, budget);
  }

  lemma FillStep<T>(initial: Levels, applied: seq<Step>, k: nat, acc: Filling, render: Render<T>, budget: nat)
    requires ValidSteps(applied, |initial|) && 0 < k <= |applied| && |acc.levels| == |initial|
    requires acc.tries < FILL_TRIES
    ensures var next := FillOne(initial, applied, applied[k - 1], acc, render, budget);
      FillFrom(initial, applied, k, acc, render, budget) == FillFrom(initial, applied, k - 1, next, render, budget)
  {
    hide FillOne;
  }

  lemma FillEnd<T>(initial: Levels, applied: seq<Step>, k: nat, acc: Filling, render: Render<T>, budget: nat)
    requires ValidSteps(applied, |initial|) && k <= |applied| && |acc.levels| == |initial|
    requires k == 0 || acc.tries >= FILL_TRIES
    ensures FillFrom(initial, applied, k, acc, render, budget) == acc
  {
  }

  lemma CeilLog2Step(n: nat, m: nat)
    requires 1 < n && m <= (n + 1) / 2
    ensures CeilLog2(m) + 1 <= CeilLog2(n)
  {
    CeilLog2Monotone(m, (n + 1) / 2);
  }

  /** The bisection loop of `fit`. */
  method SearchPrefix<T>(initial: Levels, steps: seq<Step>, budget: nat, render: Render<T>)
    returns (hi: nat, renders: nat)
    requires ValidSteps(steps, |initial|) && steps != []
    requires !PrefixFits(initial, steps, render, budget)[0]
    ensures 0 < hi <= |steps|
    ensures hi == Bisect(PrefixFits(initial, steps, render, budget), 0, |steps|)
    ensures hi == |steps| || PrefixFits(initial, steps, render, budget)[hi]
    ensures renders <= CeilLog2(|steps|)
  {
    hide LevelsAfter, Bisect, CeilLog2;
    ghost var fits := PrefixFits(initial, steps, render, budget);
    var lo: nat := 0;
    hi, renders := |steps|, 0;
    while hi - lo > 1
      invariant lo < hi <= |steps| && !fits[lo]
      invariant hi == |steps| || fits[hi]
      invariant Bisect(fits, lo, hi) == Bisect(fits, 0, |steps|)
      invariant renders + CeilLog2(hi - lo) <= CeilLog2(|steps|)
    {
      var mid := lo + (hi - lo) / 2;
      var levels := ComputeLevels(initial, steps, mid);
      renders := renders + 1;
      BisectStep(fits, lo, hi);
      CeilLog2Step(hi - lo, mid - lo);
      CeilLog2Step(hi - lo, hi - mid);
      if render(levels).1 <= budget {
        hi := mid;
      } else {
        lo := mid;
      }
    }
    assert Bisect(fits, lo, hi) == hi by { BisectEnd(fits, lo, hi); }
  }

  /** The linear continuation: the first fitting prefix from `from` on, or the last. */
  method ContinueSearch<T>(initial: Levels, steps: seq<Step>, from: nat, budget: nat, render: Render<T>)
    returns (candidate: Fitted<T>, n: nat, renders: nat)
    requires ValidSteps(steps, |initial|) && from <= |steps|
    ensures from <= n <= |steps| && renders == n - from + 1
    ensures forall m: nat :: from <= m < n ==> !PrefixFits(initial, steps, render, budget)[m]
    ensures candidate.levels == LevelsAfter(initial, steps, n)
    ensures (candidate.output, candidate.bytes) == render(candidate.levels)
    ensures candidate.overBudget <==> candidate.bytes > budget
    ensures candidate.overBudget ==> n == |steps|
  {
    hide LevelsAfter;
    n, renders := from, 0;
    while true
      invariant from <= n <= |steps| && renders == n - from
      invariant forall m: nat :: from <= m < n ==> !PrefixFits(initial, steps, render, budget)[m]
      decreases |steps| - n
    {
      var levels := ComputeLevels(initial, steps, n);
      var (output, bytes) := render(levels);
      renders := renders + 1;
      candidate := Fitted(output, levels, bytes, false);
      if candidate.bytes <= budget {
        return;
      }
      if n == |steps| {
        candidate := candidate.(overBudget := true);
        return;
      }
      n := n + 1;
    }
  }

  method Fit<T>(initial: Levels, steps: seq<Step>, budget: nat, render: Render<T>)
    returns (fitted: Fitted<T>, renders: nat)
    requires ValidSteps(steps, |initial|)
    ensures fitted.levels == FitLevels(initial, steps, render, budget).levels
    ensures (fitted.output, fitted.bytes) == render(fitted.levels)
    ensures fitted.overBudget <==> fitted.bytes > budget
    ensures fitted.overBudget <==> !SomeExaminedFits(PrefixFits(initial, steps, render, budget))
    ensures Fits(render, budget, LevelsAfter(initial, steps, |steps|)) ==> !fitted.overBudget
    ensures renders <= 258 + CeilLog2(|steps|)
  {
    hide FillFrom, LevelsAfter, Bisect, SomeExaminedFits;
    InitialLevels(initial, steps);
    ghost var fits := PrefixFits(initial, steps, render, budget);
    ExaminedDecides(fits);
    if Fits(render, budget, LevelsAfter(initial, steps, |steps|)) {
      FullyDegradedSuffices(initial, steps, render, budget);
    }
    var levels := ComputeLevels(initial, steps, 0);
    var rendered := render(levels);
    renders := 1;
    if rendered.1 <= budget || steps == [] {
      return Fitted(rendered.0, levels, rendered.1, rendered.1 > budget), renders;
    }
    var hi, searched := SearchPrefix(initial, steps, budget, render);
    renders := renders + searched;
    var candidate, n, continued := ContinueSearch(initial, steps, hi, budget, render);
    renders := renders + continued;
    // The render is deterministic, so the search already saw prefix `hi` fit, or `hi`
    // is the last: the continuation took a single turn.
    assert n == hi && continued == 1;
    if candidate.overBudget {
      return candidate, renders;
    }
    var tries;
    fitted, tries := Fill(initial, steps[..n], budget, candidate, render);
    renders := renders + tries;
  }

  // ---------- What `fit` promises ----------

  /** If the fully degraded answer fits, the result fits: no monotonicity needed. */
  lemma FullyDegradedSuffices<T>(initial: Levels, steps: seq<Step>, render: Render<T>, budget: nat)
    requires ValidSteps(steps, |initial|)
    requires Fits(render, budget, LevelsAfter(initial, steps, |steps|))
    ensures SomeExaminedFits(PrefixFits(initial, steps, render, budget))
  {
    hide LevelsAfter, Probes;
    assert Examined(|steps|)[1] == |steps|;
  }

  /** ... and with standard steps that answer drops every unit of the order. */
  lemma AllDroppedSuffices<T>(initial: Levels, order: seq<nat>, hasSkeleton: nat -> bool, render: Render<T>,
      budget: nat, dropped: Levels)
    requires InRange(order, |initial|) && |dropped| == |initial|
    requires forall u: nat :: u < |initial| ==> dropped[u] == if u in order then Dropped else initial[u]
    requires Fits(render, budget, dropped)
    ensures ValidSteps(StandardSteps(order, hasSkeleton), |initial|)
    ensures Fits(render, budget, FitLevels(initial, StandardSteps(order, hasSkeleton), render, budget).levels)
  {
    hide StandardSteps, LevelsAfter, FillFrom, Fits, Bisect, SomeExaminedFits;
    AllStandardSteps(initial, order, hasSkeleton);
    var steps := StandardSteps(order, hasSkeleton);
    var fits := PrefixFits(initial, steps, render, budget);
    assert LevelsAfter(initial, steps, |steps|) == dropped;
    FullyDegradedSuffices(initial, steps, render, budget);
    ExaminedDecides(fits);
    var n := ChosenPrefix(initial, steps, render, budget);
    if n > 0 {
      var levels := LevelsAfter(initial, steps, n);
      LevelsAfterMonotone(initial, steps, 0, n);
      InitialLevels(initial, steps);
      FillBounds(initial, steps[..n], n, Filling(levels, 0), render, budget);
    }
  }

  /** Sizes do not grow along the steps. */
  ghost predicate ShrinksAlongSteps<T>(initial: Levels, steps: seq<Step>, render: Render<T>)
    requires ValidSteps(steps, |initial|)
  {
    forall m: nat, n: nat :: m <= n <= |steps| ==>
      render(LevelsAfter(initial, steps, m)).1 >= render(LevelsAfter(initial, steps, n)).1
  }

  /** Then the search settles on the shortest prefix that fits, and some prefix fits
      exactly when the result does. */
  lemma ShortestPrefix<T>(initial: Levels, steps: seq<Step>, render: Render<T>, budget: nat)
    requires ValidSteps(steps, |initial|) && ShrinksAlongSteps(initial, steps, render)
    ensures var fits := PrefixFits(initial, steps, render, budget);
      var n := ChosenPrefix(initial, steps, render, budget);
      && (forall m: nat :: m < n ==> !fits[m])
      && (fits[n] <==> exists m: nat :: m <= |steps| && fits[m])
  {
    hide LevelsAfter, Bisect;
    var fits := PrefixFits(initial, steps, render, budget);
    var n := ChosenPrefix(initial, steps, render, budget);
    assert FitsFromOnwards(fits);
    if !fits[0] && steps != [] {
      BisectLeast(fits, 0, |steps|);
      if !fits[n] {
        BisectMiss(fits, 0, |steps|);
      }
    } else if steps == [] {
      BisectEmpty(fits);
    }
  }

  lemma BisectEmpty(fits: seq<bool>)
    requires fits != []
    ensures Bisect(fits, 0, 0) == 0
  {
  }

  /** An answer that is small only when exactly the first of four units is dropped. */
  function SpikeRender(levels: Levels): ((), nat) {
    ((), if levels == [Dropped, Full, Full, Full] then 0 else 10)
  }

  const FOUR_FULL: Levels := [Full, Full, Full, Full]
  const FOUR_DROPS: seq<Step> := [Step(0, Dropped), Step(1, Dropped), Step(2, Dropped), Step(3, Dropped)]

  /** Without that, a fitting prefix can be missed: four drops where only the first
      makes the answer fit. */
  lemma FittingPrefixMissed()
    ensures ValidSteps(FOUR_DROPS, 4)
    ensures var fits := PrefixFits(FOUR_FULL, FOUR_DROPS, SpikeRender, 5);
      fits[1] && !SomeExaminedFits(fits)
    ensures !Fits(SpikeRender, 5, FitLevels(FOUR_FULL, FOUR_DROPS, SpikeRender, 5).levels)
  {
    hide Bisect, SomeExaminedFits, FillFrom;
    var fits := PrefixFits(FOUR_FULL, FOUR_DROPS, SpikeRender, 5);
    FourDropLevels();
    OnlyFirstExamined(fits);
    ExaminedDecides(fits);
  }

  lemma FourDropLevels()
    ensures LevelsAfter(FOUR_FULL, FOUR_DROPS, 0) == FOUR_FULL
    ensures LevelsAfter(FOUR_FULL, FOUR_DROPS, 1) == [Dropped, Full, Full, Full]
    ensures forall n :: 2 <= n <= 4 ==> LevelsAfter(FOUR_FULL, FOUR_DROPS, n)[1] == Dropped
  {
    var l1 := Apply(FOUR_FULL, FOUR_DROPS[0]);
    var l2 := Apply(l1, FOUR_DROPS[1]);
    var l3 := Apply(l2, FOUR_DROPS[2]);
    assert LevelsAfter(FOUR_FULL, FOUR_DROPS, 1) == l1;
    assert LevelsAfter(FOUR_FULL, FOUR_DROPS, 2) == l2;
    assert LevelsAfter(FOUR_FULL, FOUR_DROPS, 3) == l3;
    assert LevelsAfter(FOUR_FULL, FOUR_DROPS, 4) == Apply(l3, FOUR_DROPS[3]);
  }

  lemma OnlyFirstExamined(fits: seq<bool>)
    requires |fits| == 5 && !fits[0] && !fits[2] && !fits[3] && !fits[4]
    ensures !SomeExaminedFits(fits)
  {
    assert Probes(3, 4) == [] && Probes(2, 4) == [3] + Probes(3, 4);
    assert Examined(4) == [0, 4, 2, 3];
  }

  /** Showing more of any unit never shrinks the answer. */
  ghost predicate SizeMonotone<T>(render: Render<T>, n: nat) {
    forall a: Levels, b: Levels :: |b| == n && Above(a, b) ==> render(a).1 >= render(b).1
  }

  lemma TriesAre256()
    ensures FILL_TRIES == 256
  {
  }

  lemma MonotoneShrinks<T>(initial: Levels, steps: seq<Step>, render: Render<T>)
    requires ValidSteps(steps, |initial|) && SizeMonotone(render, |initial|)
    ensures ShrinksAlongSteps(initial, steps, render)
  {
    hide LevelsAfter, Above;
    forall m: nat, n: nat | m <= n <= |steps|
      ensures render(LevelsAfter(initial, steps, m)).1 >= render(LevelsAfter(initial, steps, n)).1
    {
      LevelsAfterMonotone(initial, steps, m, n);
    }
  }

  /** When the result fits, its levels lie between the initial ones and the chosen
      prefix, which fits as well. */
  lemma FitBetween<T>(initial: Levels, steps: seq<Step>, render: Render<T>, budget: nat)
    requires ValidSteps(steps, |initial|)
    requires Fits(render, budget, FitLevels(initial, steps, render, budget).levels)
    ensures var n := ChosenPrefix(initial, steps, render, budget);
      var r := FitLevels(initial, steps, render, budget);
      && Above(initial, r.levels) && Above(r.levels, LevelsAfter(initial, steps, n))
      && Fits(render, budget, LevelsAfter(initial, steps, n))
      && (n > 0 ==> r == FillFrom(initial, steps[..n], n, Filling(LevelsAfter(initial, steps, n), 0), render, budget))
  {
    hide FillFrom, LevelsAfter, Above, Fits, Bisect;
    var n := ChosenPrefix(initial, steps, render, budget);
    var levels := LevelsAfter(initial, steps, n);
    LevelsAfterMonotone(initial, steps, 0, n);
    InitialLevels(initial, steps);
    AboveRefl(initial);
    if n > 0 {
      FillBounds(initial, steps[..n], n, Filling(levels, 0), render, budget);
    }
  }

  /** The main result on `fit` over a standard step list: when the result fits, its
      levels lie between the initial ones and the shortest fitting prefix, and, unless
      `fill` ran out of tries, raising any degraded unit by its next notch would
      overflow the budget. */
  lemma FitIsLocallyOptimal<T>(initial: Levels, order: seq<nat>, hasSkeleton: nat -> bool, render: Render<T>,
      budget: nat)
    requires Distinct(order) && InRange(order, |initial|)
    requires SizeMonotone(render, |initial|)
    ensures ValidSteps(StandardSteps(order, hasSkeleton), |initial|)
    ensures var steps := StandardSteps(order, hasSkeleton);
      var n := ChosenPrefix(initial, steps, render, budget);
      var r := FitLevels(initial, steps, render, budget);
      Fits(render, budget, r.levels) ==>
        && Above(initial, r.levels) && Above(r.levels, LevelsAfter(initial, steps, n))
        && (forall m: nat :: m < n ==> !Fits(render, budget, LevelsAfter(initial, steps, m)))
        && (r.tries < 256 || n <= 256 ==>
             forall u: nat :: u < |initial| && Rank(r.levels[u]) > Rank(initial[u]) ==>
               !Fits(render, budget, r.levels[u := NextNotch(initial, hasSkeleton, u, r.levels[u])]))
  {
    hide *;
    StandardStepsValid(order, hasSkeleton, |initial|);
    var steps := StandardSteps(order, hasSkeleton);
    var n := ChosenPrefix(initial, steps, render, budget);
    var levels := LevelsAfter(initial, steps, n);
    var r := FitLevels(initial, steps, render, budget);
    if !Fits(render, budget, r.levels) {
      return;
    }
    FitBetween(initial, steps, render, budget);
    MonotoneShrinks(initial, steps, render);
    ShortestPrefix(initial, steps, render, budget);
    TriesAre256();
    if r.tries < FILL_TRIES || n <= FILL_TRIES {
      InitialLevels(initial, steps);
      PrefixValid(steps, n, |initial|);
      StandardStepsOrderly(order, hasSkeleton, n);
      StartSupported(initial, steps, n);
      SizeMonotoneFits(render, budget, |initial|);
      StuckSinceEnd(initial, steps[..n], levels, render, budget);
      if n > 0 {
        FillLeavesStuck(initial, steps[..n], n, Filling(levels, 0), render, budget);
        forall u: nat | u < |initial| && Rank(r.levels[u]) > Rank(initial[u])
          ensures !Fits(render, budget, r.levels[u := NextNotch(initial, hasSkeleton, u, r.levels[u])])
        {
          StuckMeansFull(initial, order, hasSkeleton, n, r.levels, render, budget, u);
        }
      } else {
        forall u: nat | u < |initial|
          ensures Rank(r.levels[u]) <= Rank(initial[u])
        {
          BetweenRanks(r.levels, levels, u);
        }
      }
    }
  }

  lemma PrefixValid(steps: seq<Step>, n: nat, m: nat)
    requires ValidSteps(steps, m) && n <= |steps|
    ensures ValidSteps(steps[..n], m)
  {
  }

  lemma BetweenRanks(a: Levels, b: Levels, u: nat)
    requires Above(a, b) && u < |a|
    ensures |a| == |b| && Rank(a[u]) <= Rank(b[u])
  {
  }

  /** The next notch up, in terms of the unit alone. */
  function NextNotch(initial: Levels, hasSkeleton: nat -> bool, u: nat, level: Level): Level
    requires u < |initial|
  {
    MaxLevel(if level == Dropped && hasSkeleton(u) then Skeleton else Full, initial[u])
  }

  lemma InitialLevels(initial: Levels, steps: seq<Step>)
    requires ValidSteps(steps, |initial|)
    ensures LevelsAfter(initial, steps, 0) == initial
  {
  }

  lemma StartSupported(initial: Levels, steps: seq<Step>, n: nat)
    requires ValidSteps(steps, |initial|) && n <= |steps|
    ensures Supported(initial, steps[..n], LevelsAfter(initial, steps, n))
  {
    forall u | 0 <= u < |initial|
      ensures var l := LevelsAfter(initial, steps, n)[u]; l == initial[u] || Step(u, l) in steps[..n]
    {
      LevelsAfterAt(initial, steps, n, u);
    }
  }

  lemma SizeMonotoneFits<T>(render: Render<T>, budget: nat, n: nat)
    requires SizeMonotone(render, n)
    ensures FitMonotone(render, budget, n)
  {
  }

  lemma StuckSinceEnd<T>(initial: Levels, applied: seq<Step>, levels: Levels, render: Render<T>, budget: nat)
    requires |levels| == |initial| && ValidSteps(applied, |initial|)
    ensures StuckSince(initial, applied, |applied|, levels, render, budget)
  {
  }

  lemma StuckMeansFull<T>(initial: Levels, order: seq<nat>, hasSkeleton: nat -> bool, n: nat, levels: Levels,
                          render: Render<T>, budget: nat, u: nat)
    requires Distinct(order) && n <= |StandardSteps(order, hasSkeleton)|
    requires var applied := StandardSteps(order, hasSkeleton)[..n];
      && ValidSteps(applied, |initial|) && |levels| == |initial| && u < |initial|
      && Supported(initial, applied, levels) && StuckSince(initial, applied, 0, levels, render, budget)
    requires Rank(levels[u]) > Rank(initial[u])
    ensures !Fits(render, budget, levels[u := NextNotch(initial, hasSkeleton, u, levels[u])])
  {
    hide StandardSteps, Distinct;
    var applied := StandardSteps(order, hasSkeleton)[..n];
    assert Step(u, levels[u]) in applied;
    var i :| 0 <= i < |applied| && applied[i] == Step(u, levels[u]);
    assert Stuck(initial, applied, levels, render, budget, applied[i].unit);
    if levels[u] == Dropped {
      DropImpliesSkeleton(order, hasSkeleton, n, u);
    }
  }

  // ---------- The per-group cap ----------

  function Total(order: seq<nat>, levels: Levels, cost: (nat, Level) -> nat): nat
    requires InRange(order, |levels|)
  {
    if order == [] then 0 else cost(order[0], levels[order[0]]) + Total(order[1..], levels, cost)
  }

  /** The least prefix from `k` on whose group total meets the cap, else all steps. */
  function CapPrefix(initial: Levels, order: seq<nat>, steps: seq<Step>, cost: (nat, Level) -> nat, cap: nat,
      k: nat): (n: nat)
    requires InRange(order, |initial|) && ValidSteps(steps, |initial|) && k <= |steps|
    ensures k <= n <= |steps|
    ensures forall m :: k <= m < n ==> Total(order, LevelsAfter(initial, steps, m), cost) > cap
    ensures n < |steps| ==> Total(order, LevelsAfter(initial, steps, n), cost) <= cap
    decreases |steps| - k
  {
    if k == |steps| || Total(order, LevelsAfter(initial, steps, k), cost) <= cap then k
    else CapPrefix(initial, order, steps, cost, cap, k + 1)
  }

  /** The total is the sum of the units' costs: none is left out or counted twice. */
  lemma {:induction false} TotalIsSum(a: seq<nat>, b: seq<nat>, u: nat, levels: Levels, cost: (nat, Level) -> nat)
    requires InRange(a + b, |levels|) && u < |levels|
    ensures Total([], levels, cost) == 0 && Total([u], levels, cost) == cost(u, levels[u])
    ensures InRange(a, |levels|) && InRange(b, |levels|)
    ensures Total(a + b, levels, cost) == Total(a, levels, cost) + Total(b, levels, cost)
  {
    assert forall i :: 0 <= i < |a| ==> (a + b)[i] == a[i];
    assert forall i :: 0 <= i < |b| ==> (a + b)[|a| + i] == b[i];
    assert Total([u][1..], levels, cost) == 0;
    if a == [] {
      assert a + b == b;
    } else {
      assert (a + b)[1..] == a[1..] + b;
      TotalIsSum(a[1..], b, u, levels, cost);
    }
  }

  lemma CapPrefixStep(initial: Levels, order: seq<nat>, steps: seq<Step>, cost: (nat, Level) -> nat, cap: nat, k: nat)
    requires InRange(order, |initial|) && ValidSteps(steps, |initial|) && k <= |steps|
    ensures CapPrefix(initial, order, steps, cost, cap, k) ==
      if k == |steps| || Total(order, LevelsAfter(initial, steps, k), cost) <= cap then k
      else CapPrefix(initial, order, steps, cost, cap, k + 1)
  {
    hide Total, LevelsAfter;
  }

  /** Lowering stops at the cap, or with every unit of the group dropped; it touches no
      other unit, and none when the cap is met from the start. */
  lemma CapOutcome(initial: Levels, order: seq<nat>, hasSkeleton: nat -> bool, cost: (nat, Level) -> nat, cap: nat)
    requires InRange(order, |initial|) && ValidSteps(StandardSteps(order, hasSkeleton), |initial|)
    ensures var steps := StandardSteps(order, hasSkeleton);
      var r := LevelsAfter(initial, steps, CapPrefix(initial, order, steps, cost, cap, 0));
      && (Total(order, r, cost) <= cap || forall u :: u in order ==> u < |r| && r[u] == Dropped)
      && (Total(order, initial, cost) <= cap ==> r == initial)
      && (forall u: nat :: u < |r| && u !in order ==> r[u] == initial[u])
  {
    hide StandardSteps, LevelsAfter, CapPrefix, Total;
    var steps := StandardSteps(order, hasSkeleton);
    var n := CapPrefix(initial, order, steps, cost, cap, 0);
    var r := LevelsAfter(initial, steps, n);
    AllStandardSteps(initial, order, hasSkeleton);
    InitialLevels(initial, steps);
    forall u: nat | u < |r| && u !in order
      ensures r[u] == initial[u]
    {
      LevelsAfterIs(initial, steps, n, u);
      StandardStepsAre(order, hasSkeleton, u, Dropped);
      StandardStepsAre(order, hasSkeleton, u, Skeleton);
      assert forall step :: step in steps[..n] ==> step in steps;
    }
    assert forall u :: u in order ==> u < |r|;
  }

 method CapGroup(levels: array<Level>, order: seq<nat>, hasSkeleton: nat -> bool, cost: (nat, Level) -> nat, cap: nat)
    requires InRange(order, levels.Length)
    modifies levels
    ensures ValidSteps(StandardSteps(order, hasSkeleton), levels.Length)
    ensures var steps := StandardSteps(order, hasSkeleton);
      levels[..] == LevelsAfter(old(levels[..]), steps, CapPrefix(old(levels[..]), order, steps, cost, cap, 0))
    ensures Total(order, levels[..], cost) <= cap
      || forall u :: u in order ==> u < levels.Length && levels[u] == Dropped
    ensures Total(order, old(levels[..]), cost) <= cap ==> levels[..] == old(levels[..])
    ensures forall u :: 0 <= u < levels.Length && u !in order ==> levels[u] == old(levels[u])
  {
    hide StandardSteps, LevelsAfter, CapPrefix, Total;
    StandardStepsValid(order, hasSkeleton, levels.Length);
    ghost var initial := levels[..];
    CapOutcome(initial, order, hasSkeleton, cost, cap);
    var total := Total(order, levels[..], cost);
    var steps := StandardSteps(order, hasSkeleton);
    InitialLevels(initial, steps);
    CapPrefixStep(initial, order, steps, cost, cap, 0);
    if total <= cap {
      return;
    }
    for i := 0 to |steps|
      invariant levels[..] == LevelsAfter(initial, steps, i)
      invariant CapPrefix(initial, order, steps, cost, cap, 0) ==
        if i < |steps| then CapPrefix(initial, order, steps, cost, cap, i + 1) else i
    {
      var Step(unit, level) := steps[i];
      LevelsAfterStep(initial, steps, i);
      if Rank(level) > Rank(levels[unit]) {
        levels[unit] := level;
      }
      CapPrefixStep(initial, order, steps, cost, cap, i + 1);
      total := Total(order, levels[..], cost);
      if total <= cap {
        return;
      }
    }
  }
}
