/**
 Interleaving of several sections' least-important-first orders (src/budget.rs):
 each unit is keyed by its rank within its section as a scaled integer fraction,
 and all keys are sorted.
 */
module Interleaving {

  const SCALE: nat := 1_000_000

  /** The tuple that is sorted: position, section, unit. */
  datatype Key = Key(pos: nat, section: nat, unit: nat)

  predicate Leq(a: Key, b: Key) {
    || a.pos < b.pos
    || (a.pos == b.pos && (a.section < b.section || (a.section == b.section && a.unit <= b.unit)))
  }

  function Position(i: nat, len: nat): nat {
    i * SCALE / if len == 0 then 1 else len
  }

  /** The keys of the first `n` units of one section. */
  function SectionKeys(order: seq<nat>, section: nat, n: nat): (keys: seq<Key>)
    requires n <= |order|
    ensures |keys| == n
  {
    if n == 0 then [] else
      SectionKeys(order, section, n - 1) + [Key(Position(n - 1, |order|), section, order[n - 1])]
  }

  /** The keys of the first `n` sections. */
  function AllKeys(sections: seq<seq<nat>>, n: nat): seq<Key>
    requires n <= |sections|
  {
    if n == 0 then [] else
      AllKeys(sections, n - 1) + SectionKeys(sections[n - 1], n - 1, |sections[n - 1]|)
  }

  // ---------- The sort ----------

  function Insert(k: Key, keys: seq<Key>): (r: seq<Key>)
    ensures |r| == |keys| + 1
  {
    if keys == [] || Leq(k, keys[0]) then [k] + keys else [keys[0]] + Insert(k, keys[1..])
  }

  function Sort(keys: seq<Key>): (r: seq<Key>)
    ensures |r| == |keys|
  {
    if keys == [] then [] else Insert(keys[0], Sort(keys[1..]))
  }

  ghost predicate Sorted(keys: seq<Key>) {
    forall i, j :: 0 <= i < j < |keys| ==> Leq(keys[i], keys[j])
  }

  function Units(keys: seq<Key>): seq<nat> {
    seq(|keys|, i requires 0 <= i < |keys| => keys[i].unit)
  }

  lemma AllKeysStep(sections: seq<seq<nat>>, n: nat)
    requires 0 < n <= |sections|
    ensures AllKeys(sections, n) ==
      AllKeys(sections, n - 1) + SectionKeys(sections[n - 1], n - 1, |sections[n - 1]|)
  {
    hide SectionKeys;
  }


  lemma SectionKeysStep(order: seq<nat>, section: nat, n: nat)
    requires n < |order|
    ensures SectionKeys(order, section, n + 1)
      == SectionKeys(order, section, n) + [Key(Position(n, |order|), section, order[n])]
  {
  }

  lemma NoKeys(sections: seq<seq<nat>>)
    ensures AllKeys(sections, 0) == []
  {
  }

  lemma NoSectionKeys(order: seq<nat>, section: nat)
    ensures SectionKeys(order, section, 0) == []
  {
  }

  method Interleave(sections: seq<seq<nat>>) returns (units: seq<nat>)
    ensures units == Units(Sort(AllKeys(sections, |sections|)))
  {
    hide SectionKeys, AllKeys, Sort, Units;
    var all: seq<Key> := [];
    NoKeys(sections);
    for s := 0 to |sections|
      invariant all == AllKeys(sections, s)
    {
      var order := sections[s];
      var len := if |order| > 1 then |order| else 1;
      ghost var before := all;
      NoSectionKeys(order, s);
      for i := 0 to |order|
        invariant all == before + SectionKeys(order, s, i)
      {
        SectionKeysStep(order, s, i);
        all := all + [Key(i * SCALE / len, s, order[i])];
      }
      AllKeysStep(sections, s + 1);
    }
    units := Units(Sort(all));
  }

  // ---------- Counting keys; every count is unchanged by sorting ----------

  /** Keys of `section` in `keys`. */
  function Count(keys: seq<Key>, section: nat): nat {
    if keys == [] then 0 else
      (if keys[0].section == section then 1 else 0) + Count(keys[1..], section)
  }

  /** Keys of `section` with a position below `x`. */
  function CountBelow(keys: seq<Key>, section: nat, x: nat): nat {
    if keys == [] then 0 else
      (if keys[0].section == section && keys[0].pos < x then 1 else 0) + CountBelow(keys[1..], section, x)
  }

  lemma {:induction false} CountConcat(a: seq<Key>, b: seq<Key>, section: nat)
    ensures Count(a + b, section) == Count(a, section) + Count(b, section)
  {
    if a == [] {
      assert a + b == b;
    } else {
      assert (a + b)[1..] == a[1..] + b;
      CountConcat(a[1..], b, section);
    }
  }

  lemma {:induction false} CountBelowConcat(a: seq<Key>, b: seq<Key>, section: nat, x: nat)
    ensures CountBelow(a + b, section, x) == CountBelow(a, section, x) + CountBelow(b, section, x)
  {
    if a == [] {
      assert a + b == b;
    } else {
      assert (a + b)[1..] == a[1..] + b;
      CountBelowConcat(a[1..], b, section, x);
    }
  }

  lemma {:induction false} InsertCounts(k: Key, keys: seq<Key>, section: nat, x: nat)
    ensures Count(Insert(k, keys), section) == Count([k] + keys, section)
    ensures CountBelow(Insert(k, keys), section, x) == CountBelow([k] + keys, section, x)
    ensures multiset(Insert(k, keys)) == multiset([k] + keys)
  {
    if !(keys == [] || Leq(k, keys[0])) {
      InsertCounts(k, keys[1..], section, x);
      assert keys == [keys[0]] + keys[1..];
      assert ([k] + keys)[1..] == keys;
      assert ([k] + keys[1..])[1..] == keys[1..];
      assert ([keys[0]] + Insert(k, keys[1..]))[1..] == Insert(k, keys[1..]);
    }
  }

  lemma {:induction false} SortCounts(keys: seq<Key>, section: nat, x: nat)
    ensures Count(Sort(keys), section) == Count(keys, section)
    ensures CountBelow(Sort(keys), section, x) == CountBelow(keys, section, x)
    ensures multiset(Sort(keys)) == multiset(keys)
  {
    if keys != [] {
      SortCounts(keys[1..], section, x);
      InsertCounts(keys[0], Sort(keys[1..]), section, x);
      assert keys == [keys[0]] + keys[1..];
      assert ([keys[0]] + Sort(keys[1..]))[1..] == Sort(keys[1..]);
    }
  }

  lemma {:induction false} InsertMembers(k: Key, keys: seq<Key>, k': Key)
    ensures k' in Insert(k, keys) <==> k' == k || k' in keys
  {
    hide Leq;
    if keys != [] && !Leq(k, keys[0]) {
      InsertMembers(k, keys[1..], k');
      assert keys == [keys[0]] + keys[1..];
    }
  }

  lemma {:induction false} InsertSorted(k: Key, keys: seq<Key>)
    requires Sorted(keys)
    ensures Sorted(Insert(k, keys))
  {
    if !(keys == [] || Leq(k, keys[0])) {
      InsertSorted(k, keys[1..]);
      forall k' | k' in Insert(k, keys[1..])
        ensures Leq(keys[0], k')
      {
        InsertMembers(k, keys[1..], k');
      }
    }
  }

  lemma {:induction false} SortSorted(keys: seq<Key>)
    ensures Sorted(Sort(keys))
  {
    if keys != [] {
      SortSorted(keys[1..]);
      InsertSorted(keys[0], Sort(keys[1..]));
    }
  }

  lemma {:induction false} CountBelowAtMostCount(keys: seq<Key>, section: nat, x: nat)
    ensures CountBelow(keys, section, x) <= Count(keys, section)
  {
    if keys != [] {
      CountBelowAtMostCount(keys[1..], section, x);
    }
  }

  /** Some key of the section stands at `x` or later, or all are counted below it. */
  lemma {:induction false} AllBelow(keys: seq<Key>, section: nat, x: nat)
    requires forall i :: 0 <= i < |keys| && keys[i].section == section ==> keys[i].pos < x
    ensures CountBelow(keys, section, x) == Count(keys, section)
  {
    if keys != [] {
      AllBelow(keys[1..], section, x);
    }
  }

  lemma {:induction false} NoneBelow(keys: seq<Key>, section: nat, x: nat)
    requires forall i :: 0 <= i < |keys| && keys[i].section == section ==> keys[i].pos >= x
    ensures CountBelow(keys, section, x) == 0
  {
    if keys != [] {
      NoneBelow(keys[1..], section, x);
    }
  }

  // ---------- How many keys of one section stand below a position ----------

  lemma PositionMonotone(i: nat, j: nat, len: nat)
    requires i <= j
    ensures Position(i, len) <= Position(j, len)
  {
    DivMonotone(i * SCALE, j * SCALE, if len == 0 then 1 else len);
  }

  lemma DivMonotone(a: nat, b: nat, d: nat)
    requires a <= b && d > 0
    ensures a / d <= b / d
  {
    if a / d > b / d {
      assert a == d * (a / d) + a % d;
      assert b == d * (b / d) + b % d;
      assert d * (a / d) >= d * (b / d + 1) by { MulMonotone(d, b / d + 1, a / d); }
    }
  }

  lemma MulMonotone(d: nat, a: int, b: int)
    requires a <= b
    ensures d * a <= d * b
  {
  }

  /** Only the units before rank `c` can stand below rank `c`'s position. */
  lemma {:induction false} SectionBelow(order: seq<nat>, section: nat, n: nat, c: nat)
    requires n <= |order|
    ensures CountBelow(SectionKeys(order, section, n), section, Position(c, |order|)) <= c
    ensures CountBelow(SectionKeys(order, section, n), section, Position(c, |order|)) <= n
  {
    if n > 0 {
      SectionBelow(order, section, n - 1, c);
      CountBelowConcat(SectionKeys(order, section, n - 1),
        [Key(Position(n - 1, |order|), section, order[n - 1])], section, Position(c, |order|));
      if n - 1 >= c {
        PositionMonotone(c, n - 1, |order|);
      }
    }
  }

  /** The units up to rank `c` all stand no later than rank `c`'s position. */
  lemma {:induction false} SectionUpTo(order: seq<nat>, section: nat, n: nat, c: nat)
    requires n <= |order|
    ensures CountBelow(SectionKeys(order, section, n), section, Position(c, |order|) + 1) >= if n <= c then n else c + 1
  {
    if n > 0 {
      SectionUpTo(order, section, n - 1, c);
      CountBelowConcat(SectionKeys(order, section, n - 1),
        [Key(Position(n - 1, |order|), section, order[n - 1])], section, Position(c, |order|) + 1);
      if n - 1 <= c {
        PositionMonotone(n - 1, c, |order|);
      }
    }
  }

  lemma {:induction false} SectionOnly(order: seq<nat>, section: nat, n: nat)
    requires n <= |order|
    ensures forall i :: 0 <= i < n ==> SectionKeys(order, section, n)[i].section == section
  {
    if n > 0 {
      SectionOnly(order, section, n - 1);
    }
  }

  lemma {:induction false} OtherSection(keys: seq<Key>, section: nat, x: nat)
    requires forall i :: 0 <= i < |keys| ==> keys[i].section != section
    ensures CountBelow(keys, section, x) == 0 && Count(keys, section) == 0
  {
    if keys != [] {
      OtherSection(keys[1..], section, x);
    }
  }

  /** How many keys of section `from` count as section `s` below `x`. */
  function OwnBelow(sections: seq<seq<nat>>, from: nat, s: nat, x: nat): nat
    requires from < |sections|
  {
    CountBelow(SectionKeys(sections[from], from, |sections[from]|), s, x)
  }

  lemma OwnBelowIs(sections: seq<seq<nat>>, from: nat, s: nat, x: nat)
    requires from < |sections|
    ensures OwnBelow(sections, from, s, x) == CountBelow(SectionKeys(sections[from], from, |sections[from]|), s, x)
  {
  }

  lemma NoneBelowNothing(sections: seq<seq<nat>>, s: nat, x: nat)
    ensures CountBelow(AllKeys(sections, 0), s, x) == 0
  {
  }

  lemma AllKeysStepBelow(sections: seq<seq<nat>>, n: nat, s: nat, x: nat)
    requires 0 < n <= |sections|
    ensures CountBelow(AllKeys(sections, n), s, x)
      == CountBelow(AllKeys(sections, n - 1), s, x) + OwnBelow(sections, n - 1, s, x)
  {
    hide *;
    AllKeysStep(sections, n);
    CountBelowConcat(AllKeys(sections, n - 1), SectionKeys(sections[n - 1], n - 1, |sections[n - 1]|), s, x);
    OwnBelowIs(sections, n - 1, s, x);
  }

  /** Among all keys, those of section `s` below `x` are its own. */
  lemma {:induction false} AllKeysBelow(sections: seq<seq<nat>>, n: nat, s: nat, x: nat)
    requires n <= |sections| && s < |sections|
    ensures CountBelow(AllKeys(sections, n), s, x) == if s < n then OwnBelow(sections, s, s, x) else 0
  {
    hide *;
    if n == 0 {
      NoneBelowNothing(sections, s, x);
    } else {
      AllKeysStepBelow(sections, n, s, x);
      AllKeysBelow(sections, n - 1, s, x);
      if s != n - 1 {
        OthersBelow(sections[n - 1], n - 1, s, x);
        OwnBelowIs(sections, n - 1, s, x);
      }
    }
  }

  lemma OthersBelow(order: seq<nat>, section: nat, s: nat, x: nat)
    requires s != section
    ensures CountBelow(SectionKeys(order, section, |order|), s, x) == 0
  {
    hide *;
    SectionOnly(order, section, |order|);
    OtherSection(SectionKeys(order, section, |order|), s, x);
  }

  function Interleaved(sections: seq<seq<nat>>): seq<Key> {
    Sort(AllKeys(sections, |sections|))
  }

  /** How many units of section `s` the first `m` of the result hold. */
  function Taken(sections: seq<seq<nat>>, m: nat, s: nat): nat
    requires m <= |Interleaved(sections)|
  {
    Count(Interleaved(sections)[..m], s)
  }

  /** The keys of section `s` below `x`, split at the end of a prefix. */
  lemma BelowSplit(sections: seq<seq<nat>>, m: nat, s: nat, x: nat)
    requires m <= |Interleaved(sections)| && s < |sections|
    ensures CountBelow(Interleaved(sections)[..m], s, x) + CountBelow(Interleaved(sections)[m..], s, x)
      == CountBelow(SectionKeys(sections[s], s, |sections[s]|), s, x)
  {
    hide CountBelow, SectionKeys, Sort;
    var all, sorted := AllKeys(sections, |sections|), Interleaved(sections);
    assert sorted == sorted[..m] + sorted[m..];
    CountBelowConcat(sorted[..m], sorted[m..], s, x);
    SortCounts(all, s, x);
    AllKeysBelow(sections, |sections|, s, x);
  }

  /** A prefix that took `c` units of a section reaches at least rank c - 1's position. */
  lemma PrefixReaches(sections: seq<seq<nat>>, m: nat, s: nat) returns (i: nat)
    requires m <= |Interleaved(sections)| && s < |sections| && Taken(sections, m, s) > 0
    ensures i < m && Interleaved(sections)[i].section == s
    ensures Interleaved(sections)[i].pos >= Position(Taken(sections, m, s) - 1, |sections[s]|)
  {
    hide CountBelow, Count, SectionKeys, Interleaved, Position;
    var sorted := Interleaved(sections);
    var c := Taken(sections, m, s);
    var x := Position(c - 1, |sections[s]|);
    BelowSplit(sections, m, s, x);
    SectionBelow(sections[s], s, |sections[s]|, c - 1);
    var p := sorted[..m];
    if forall i :: 0 <= i < |p| && p[i].section == s ==> p[i].pos < x {
      AllBelow(p, s, x);
      assert false;
    }
    i :| 0 <= i < |p| && p[i].section == s && p[i].pos >= x;
    assert p[i] == sorted[i];
  }

  /** What is left of a section of which a prefix took `c` units starts no later than rank c's position. */
  lemma RestStartsBy(sections: seq<seq<nat>>, m: nat, s: nat) returns (i: nat)
    requires m <= |Interleaved(sections)| && s < |sections| && Taken(sections, m, s) < |sections[s]|
    ensures m <= i < |Interleaved(sections)| && Interleaved(sections)[i].section == s
    ensures Interleaved(sections)[i].pos <= Position(Taken(sections, m, s), |sections[s]|)
  {
    hide CountBelow, Count, SectionKeys, Interleaved, Position;
    var sorted := Interleaved(sections);
    var c := Taken(sections, m, s);
    var x := Position(c, |sections[s]|) + 1;
    BelowSplit(sections, m, s, x);
    CountBelowAtMostCount(sorted[..m], s, x);
    SectionUpTo(sections[s], s, |sections[s]|, c);
    var q := sorted[m..];
    if forall j :: 0 <= j < |q| && q[j].section == s ==> q[j].pos >= x {
      NoneBelow(q, s, x);
      assert false;
    }
    var j :| 0 <= j < |q| && q[j].section == s && q[j].pos < x;
    i := m + j;
    assert q[j] == sorted[i];
  }

  /** The scaled integer position is the scaled fraction rounded down. */
  lemma PositionBounds(c: nat, a: nat)
    requires a > 0
    ensures var x := c as real / a as real * SCALE as real;
      Position(c, a) as real <= x < Position(c, a) as real + 1.0
  {
    var p := c * SCALE / a;
    assert c * SCALE == a * p + (c * SCALE) % a;
    QuotientBounds(c * SCALE, a, p, (c * SCALE) % a);
    ScaledFraction(c, a);
  }

  lemma QuotientBounds(x: nat, a: nat, p: nat, r: nat)
    requires a > 0 && x == a * p + r && r < a
    ensures p as real <= x as real / a as real < p as real + 1.0
  {
    var xr, ar, pr := x as real, a as real, p as real;
    assert xr == ar * pr + r as real;
    assert pr * ar <= xr < (pr + 1.0) * ar;
    DivBounds(xr, ar, pr + 1.0);
    DivBoundsLow(xr, ar, pr);
  }

  lemma ScaledFraction(c: nat, a: nat)
    requires a > 0
    ensures (c * SCALE) as real / a as real == c as real / a as real * SCALE as real
  {
  }

  lemma PositionsOrdered(c: nat, d: nat, a: nat, b: nat)
    requires a > 0 && b > 0
    requires Position(c, a) <= Position(d, b)
    ensures c as real / a as real - d as real / b as real < 1.0 / SCALE as real
  {
    hide Position;
    PositionBounds(c, a);
    PositionBounds(d, b);
    var l, r, sr := c as real / a as real, d as real / b as real, SCALE as real;
    assert l * sr < r * sr + 1.0;
    assert (l - r) * sr < 1.0;
  }

  lemma MulMonotoneReal(a: real, b: real, y: real)
    requires a <= b && y > 0.0
    ensures a * y <= b * y
  {
  }

  lemma ProductPositive(a: real, b: real)
    requires a > 0.0 && b > 0.0
    ensures a * b > 0.0
  {
  }

  lemma DivBounds(x: real, y: real, z: real)
    requires y > 0.0 && x < z * y
    ensures x / y < z
  {
    assert x / y * y == x;
    if z <= x / y {
      MulMonotoneReal(z, x / y, y);
    }
  }

  lemma DivBoundsLow(x: real, y: real, z: real)
    requires y > 0.0 && z * y <= x
    ensures z <= x / y
  {
    var q := x / y;
    assert q * y == x;
    if q < z {
      ProductPositive(z - q, y);
    }
  }

  /** Every prefix takes nearly the same fraction of any two non-empty sections. */
  lemma ProportionalPrefixes(sections: seq<seq<nat>>, m: nat, a: nat, b: nat)
    requires m <= |Interleaved(sections)| && a < |sections| && b < |sections|
    requires sections[a] != [] && sections[b] != []
    ensures var la, lb := |sections[a]| as real, |sections[b]| as real;
      Taken(sections, m, a) as real / la - Taken(sections, m, b) as real / lb < 1.0 / la + 1.0 / 1000000.0
  {
    hide Taken, Interleaved, Position;
    var ca, cb := Taken(sections, m, a), Taken(sections, m, b);
    var la, lb := |sections[a]|, |sections[b]|;
    TakenAtMost(sections, m, a);
    if ca == 0 {
      NothingTaken(la, cb, lb);
    } else if cb >= lb {
      FractionOrder(ca, la, cb, lb);
    } else {
      var i := PrefixReaches(sections, m, a);
      var j := RestStartsBy(sections, m, b);
      InterleavedSorted(sections, i, j);
      PositionsOrdered(ca - 1, cb, la, lb);
      OneLess(ca, la);
    }
  }

  lemma NothingTaken(la: nat, cb: nat, lb: nat)
    requires la > 0 && lb > 0
    ensures 0 as real / la as real == 0.0 && cb as real / lb as real >= 0.0 && 1.0 / la as real > 0.0
  {
  }

  lemma OneLess(c: nat, l: nat)
    requires c > 0 && l > 0
    ensures c as real / l as real == (c - 1) as real / l as real + 1.0 / l as real
  {
  }

  lemma InterleavedSorted(sections: seq<seq<nat>>, i: nat, j: nat)
    requires i < j < |Interleaved(sections)|
    ensures Interleaved(sections)[i].pos <= Interleaved(sections)[j].pos
  {
    hide Sort;
    SortSorted(AllKeys(sections, |sections|));
    assert Leq(Interleaved(sections)[i], Interleaved(sections)[j]);
  }

  lemma FractionOrder(ca: nat, la: nat, cb: nat, lb: nat)
    requires 0 < la && 0 < lb && ca <= la && cb >= lb
    ensures ca as real / la as real <= 1.0 <= cb as real / lb as real
  {
    DivBoundsLow(cb as real, lb as real, 1.0);
    assert ca as real / la as real * la as real == ca as real;
  }

  lemma TakenAtMost(sections: seq<seq<nat>>, m: nat, s: nat)
    requires m <= |Interleaved(sections)| && s < |sections|
    ensures Taken(sections, m, s) <= |sections[s]|
  {
    var sorted := Interleaved(sections);
    assert sorted == sorted[..m] + sorted[m..];
    CountConcat(sorted[..m], sorted[m..], s);
    SortCounts(AllKeys(sections, |sections|), s, 0);
    AllKeysCount(sections, |sections|, s);
  }

  lemma {:induction false} AllKeysCount(sections: seq<seq<nat>>, n: nat, s: nat)
    requires n <= |sections| && s < |sections|
    ensures Count(AllKeys(sections, n), s) == if s < n then |sections[s]| else 0
  {
    if n > 0 {
      hide Count, SectionKeys;
      AllKeysCount(sections, n - 1, s);
      var last := SectionKeys(sections[n - 1], n - 1, |sections[n - 1]|);
      CountConcat(AllKeys(sections, n - 1), last, s);
      SectionOnly(sections[n - 1], n - 1, |sections[n - 1]|);
      if s == n - 1 {
        OwnSection(last, s);
      } else {
        OtherSection(last, s, 0);
      }
    }
  }

  lemma {:induction false} OwnSection(keys: seq<Key>, section: nat)
    requires forall i :: 0 <= i < |keys| ==> keys[i].section == section
    ensures Count(keys, section) == |keys|
  {
    if keys != [] {
      OwnSection(keys[1..], section);
    }
  }

  // ---------- Nothing is lost or invented ----------

  function Flatten(sections: seq<seq<nat>>, n: nat): seq<nat>
    requires n <= |sections|
  {
    if n == 0 then [] else Flatten(sections, n - 1) + sections[n - 1]
  }

  lemma {:induction false} UnitsOfInsert(k: Key, keys: seq<Key>)
    ensures multiset(Units(Insert(k, keys))) == multiset{k.unit} + multiset(Units(keys))
  {
    if keys == [] || Leq(k, keys[0]) {
      assert Units([k] + keys) == [k.unit] + Units(keys);
    } else {
      UnitsOfInsert(k, keys[1..]);
      assert Units([keys[0]] + Insert(k, keys[1..])) == [keys[0].unit] + Units(Insert(k, keys[1..]));
      assert Units(keys) == [keys[0].unit] + Units(keys[1..]);
    }
  }

  lemma {:induction false} UnitsOfSort(keys: seq<Key>)
    ensures multiset(Units(Sort(keys))) == multiset(Units(keys))
  {
    if keys != [] {
      UnitsOfSort(keys[1..]);
      UnitsOfInsert(keys[0], Sort(keys[1..]));
      assert Units(keys) == [keys[0].unit] + Units(keys[1..]);
    }
  }

  lemma {:induction false} UnitsOfSection(order: seq<nat>, section: nat, n: nat)
    requires n <= |order|
    ensures Units(SectionKeys(order, section, n)) == order[..n]
  {
    if n > 0 {
      UnitsOfSection(order, section, n - 1);
      assert order[..n] == order[..n - 1] + [order[n - 1]];
    }
  }

  lemma UnitsConcat(a: seq<Key>, b: seq<Key>)
    ensures Units(a + b) == Units(a) + Units(b)
  {
  }

  lemma {:induction false} UnitsOfAll(sections: seq<seq<nat>>, n: nat)
    requires n <= |sections|
    ensures Units(AllKeys(sections, n)) == Flatten(sections, n)
  {
    if n > 0 {
      hide Units, SectionKeys, AllKeys;
      UnitsOfAll(sections, n - 1);
      AllKeysStep(sections, n);
      UnitsConcat(AllKeys(sections, n - 1), SectionKeys(sections[n - 1], n - 1, |sections[n - 1]|));
      UnitsOfSection(sections[n - 1], n - 1, |sections[n - 1]|);
      assert sections[n - 1][..|sections[n - 1]|] == sections[n - 1];
    }
  }

  /** The result is a permutation of all the units. */
  lemma InterleavePermutes(sections: seq<seq<nat>>)
    ensures multiset(Units(Interleaved(sections))) == multiset(Flatten(sections, |sections|))
  {
    UnitsOfSort(AllKeys(sections, |sections|));
    UnitsOfAll(sections, |sections|);
  }

  // ---------- Each section keeps its own order ----------

  function Of(keys: seq<Key>, section: nat): seq<Key> {
    if keys == [] then []
    else if keys[0].section == section then [keys[0]] + Of(keys[1..], section)
    else Of(keys[1..], section)
  }

  lemma {:induction false} OfMembers(keys: seq<Key>, section: nat, k: Key)
    ensures k in Of(keys, section) <==> k in keys && k.section == section
  {
    if keys != [] {
      OfMembers(keys[1..], section, k);
      assert keys == [keys[0]] + keys[1..];
    }
  }

  lemma {:induction false} OfSorted(keys: seq<Key>, section: nat)
    requires Sorted(keys)
    ensures Sorted(Of(keys, section))
  {
    if keys != [] {
      OfSorted(keys[1..], section);
      forall k | k in Of(keys[1..], section)
        ensures Leq(keys[0], k)
      {
        OfMembers(keys[1..], section, k);
      }
    }
  }

  lemma {:induction false} OfInsert(k: Key, keys: seq<Key>, section: nat)
    requires Sorted(keys)
    ensures Of(Insert(k, keys), section) ==
      if k.section == section then Insert(k, Of(keys, section)) else Of(keys, section)
  {
    if keys == [] || Leq(k, keys[0]) {
      assert ([k] + keys)[1..] == keys;
      var own := Of(keys, section);
      if own != [] {
        OfMembers(keys, section, own[0]);
        assert Leq(k, own[0]);
      }
    } else {
      OfInsert(k, keys[1..], section);
      assert ([keys[0]] + Insert(k, keys[1..]))[1..] == Insert(k, keys[1..]);
      if keys[0].section == section {
        assert ([keys[0]] + Of(keys[1..], section))[1..] == Of(keys[1..], section);
      }
    }
  }

  lemma {:induction false} OfSort(keys: seq<Key>, section: nat)
    ensures Of(Sort(keys), section) == Sort(Of(keys, section))
  {
    if keys != [] {
      OfSort(keys[1..], section);
      SortSorted(keys[1..]);
      OfInsert(keys[0], Sort(keys[1..]), section);
      if keys[0].section == section {
        assert ([keys[0]] + Of(keys[1..], section))[1..] == Of(keys[1..], section);
      }
    }
  }

  lemma {:induction false} SortOfSorted(keys: seq<Key>)
    requires Sorted(keys)
    ensures Sort(keys) == keys
  {
    if keys != [] {
      SortOfSorted(keys[1..]);
    }
  }

  lemma {:induction false} OfConcat(a: seq<Key>, b: seq<Key>, section: nat)
    ensures Of(a + b, section) == Of(a, section) + Of(b, section)
  {
    if a == [] {
      assert a + b == b;
    } else {
      assert (a + b)[1..] == a[1..] + b;
      OfConcat(a[1..], b, section);
    }
  }

  lemma {:induction false} OfOwn(keys: seq<Key>, own: nat, section: nat)
    requires forall i :: 0 <= i < |keys| ==> keys[i].section == own
    ensures Of(keys, section) == if section == own then keys else []
  {
    if keys != [] {
      OfOwn(keys[1..], own, section);
    }
  }

  lemma {:induction false} OfAllKeys(sections: seq<seq<nat>>, n: nat, s: nat)
    requires n <= |sections| && s < |sections|
    ensures Of(AllKeys(sections, n), s) == if s < n then SectionKeys(sections[s], s, |sections[s]|) else []
  {
    if n > 0 {
      hide *;
      AllKeysStep(sections, n);
      OfAllKeys(sections, n - 1, s);
      var last := SectionKeys(sections[n - 1], n - 1, |sections[n - 1]|);
      OfConcat(AllKeys(sections, n - 1), last, s);
      SectionOnly(sections[n - 1], n - 1, |sections[n - 1]|);
      OfOwn(last, n - 1, s);
    }
  }

  lemma {:induction false} SectionKeysAt(order: seq<nat>, section: nat, n: nat)
    requires n <= |order|
    ensures forall i :: 0 <= i < n ==> SectionKeys(order, section, n)[i] == Key(Position(i, |order|), section, order[i])
  {
    if n > 0 {
      SectionKeysAt(order, section, n - 1);
    }
  }

  lemma OneMoreQuotient(x: nat, d: nat)
    requires d > 0
    ensures (x + d) / d == x / d + 1
  {
    var q, r := x / d, x % d;
    assert x + d == d * (q + 1) + r;
    QuotientUnique(x + d, d, q + 1, r);
  }

  lemma PositionStrict(i: nat, j: nat, len: nat)
    requires i < j && 0 < len <= SCALE
    ensures Position(i, len) < Position(j, len)
  {
    OneMoreQuotient(i * SCALE, len);
    DivMonotone(i * SCALE + len, j * SCALE, len);
  }

  lemma QuotientUnique(x: nat, d: nat, q: nat, r: nat)
    requires d > 0 && x == d * q + r && r < d
    ensures x / d == q
  {
    var e := x / d - q;
    assert x == d * (x / d) + x % d;
    assert d * (x / d) == d * q + d * e;
    if e > 0 {
      MulMonotone(d, 1, e);
    } else if e < 0 {
      MulMonotone(d, e, -1);
    }
  }

  /** A section of at most a million units keeps its own order. */
  lemma SectionOrderKept(sections: seq<seq<nat>>, s: nat)
    requires s < |sections| && |sections[s]| <= 1_000_000
    ensures Units(Of(Interleaved(sections), s)) == sections[s]
  {
    var order := sections[s];
    var keys := SectionKeys(order, s, |order|);
    OfSort(AllKeys(sections, |sections|), s);
    OfAllKeys(sections, |sections|, s);
    SectionKeysAt(order, s, |order|);
    forall i, j | 0 <= i < j < |keys|
      ensures Leq(keys[i], keys[j])
    {
      PositionStrict(i, j, |order|);
    }
    SortOfSorted(keys);
    UnitsOfSection(order, s, |order|);
    assert order[..|order|] == order;
  }

  /** On equal positions the earlier section goes first, and within it the smaller unit. */
  lemma TiesBySection(sections: seq<seq<nat>>, i: nat, j: nat)
    requires i < j < |Interleaved(sections)|
    ensures var a, b := Interleaved(sections)[i], Interleaved(sections)[j];
      && a.pos <= b.pos
      && (a.pos == b.pos ==> a.section <= b.section)
      && (a.pos == b.pos && a.section == b.section ==> a.unit <= b.unit)
  {
    SortSorted(AllKeys(sections, |sections|));
    assert Leq(Interleaved(sections)[i], Interleaved(sections)[j]);
  }

  /** So the first units of the sections come first to last in the order of the sections. */
  lemma FirstUnitsInOrder(sections: seq<seq<nat>>, a: nat, b: nat) returns (i: nat, j: nat)
    requires a < b < |sections| && sections[a] != [] && sections[b] != []
    ensures i < j < |Interleaved(sections)|
    ensures Interleaved(sections)[i] == Key(0, a, sections[a][0])
    ensures Interleaved(sections)[j] == Key(0, b, sections[b][0])
  {
    hide Interleaved, Position;
    FirstPosition(|sections[a]|);
    FirstPosition(|sections[b]|);
    i := KeyPlace(sections, a);
    j := KeyPlace(sections, b);
    if j < i {
      TiesBySection(sections, j, i);
    }
  }

  lemma FirstPosition(len: nat)
    ensures Position(0, len) == 0
  {
  }

  lemma KeyPlace(sections: seq<seq<nat>>, s: nat) returns (i: nat)
    requires s < |sections| && sections[s] != []
    ensures i < |Interleaved(sections)|
    ensures Interleaved(sections)[i] == Key(Position(0, |sections[s]|), s, sections[s][0])
  {
    hide Sort, AllKeys, SectionKeys, Of, Position;
    var keys := SectionKeys(sections[s], s, |sections[s]|);
    SectionKeysAt(sections[s], s, |sections[s]|);
    OfAllKeys(sections, |sections|, s);
    OfMembers(AllKeys(sections, |sections|), s, keys[0]);
    SortCounts(AllKeys(sections, |sections|), s, 0);
    assert keys[0] in multiset(AllKeys(sections, |sections|));
    assert keys[0] in multiset(Interleaved(sections));
    i :| 0 <= i < |Interleaved(sections)| && Interleaved(sections)[i] == keys[0];
  }
}
