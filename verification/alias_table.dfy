/**
 How many fragments a mixture combines: Vose's alias method over the weights 1/1, 1/2, ... 1/n.

 Over exact reals the table is exact: the two draws pick degree `j + 1` with weight
 proportional to `1 / (j + 1)`, and pairing never leaves a small column unpaired.
 */
module AliasTable {
  import opened Generator

  const MAX_FRAGMENTS: nat := 256

  /** The table while it is being built: weights, the two stacks, and the columns placed so far. */
  datatype Vose = Vose(p: seq<real>, small: seq<nat>, large: seq<nat>, probs: seq<real>, aliases: seq<nat>)

  // ---------------------------------------------------------------------------
  // Building the table
  // ---------------------------------------------------------------------------

  function Harmonic(n: nat): (h: real)
    ensures n > 0 ==> h > 0.0
  {
    if n == 0 then 0.0 else Harmonic(n - 1) + 1.0 / n as real
  }

  /** The share of `n` columns that degree `i + 1` should have. */
  function Target(n: nat, i: nat): real
    requires 0 < n
  {
    Portion(1.0 / (i + 1) as real, n as real, Harmonic(n))
  }

  function Portion(weight: real, n: real, total: real): real
    requires total > 0.0
  {
    weight * n / total
  }

  function Targets(n: nat, k: nat): (p: seq<real>)
    requires 0 < n
    ensures |p| == k && forall i :: 0 <= i < k ==> p[i] == Target(n, i)
  {
    if k == 0 then [] else Targets(n, k - 1) + [Target(n, k - 1)]
  }

  /** Columns from `i` up whose weight is below one, highest first. */
  function SmallFrom(p: seq<real>, i: nat): seq<nat>
    requires i <= |p|
    decreases |p| - i
  {
    if i == |p| then [] else SmallFrom(p, i + 1) + (if p[i] < 1.0 then [i] else [])
  }

  function LargeFrom(p: seq<real>, i: nat): seq<nat>
    requires i <= |p|
    decreases |p| - i
  {
    if i == |p| then [] else LargeFrom(p, i + 1) + (if p[i] < 1.0 then [] else [i])
  }

  predicate Shaped(v: Vose) {
    && |v.probs| == |v.p| && |v.aliases| == |v.p|
    && (forall k :: 0 <= k < |v.small| ==> v.small[k] < |v.p|)
    && (forall k :: 0 <= k < |v.large| ==> v.large[k] < |v.p|)
  }

  function Last(s: seq<nat>): nat
    requires s != []
  {
    s[|s| - 1]
  }

  function Init(s: seq<nat>): seq<nat>
    requires s != []
  {
    s[..|s| - 1]
  }

  /** Pair the top small column with the top large one, which makes up what it lacks. */
  function Pair(v: Vose): (w: Vose)
    requires Shaped(v) && v.small != [] && v.large != []
    ensures Shaped(w) && |w.p| == |v.p| && |w.small| + |w.large| < |v.small| + |v.large|
  {
    var a, g := Last(v.small), Last(v.large);
    var p := v.p[g := v.p[g] + (v.p[a] - 1.0)];
    Vose(p,
         Init(v.small) + (if p[g] < 1.0 then [g] else []),
         Init(v.large) + (if p[g] < 1.0 then [] else [g]),
         v.probs[a := v.p[a]],
         v.aliases[a := g])
  }

  function PairAll(v: Vose): (w: Vose)
    requires Shaped(v)
    ensures Shaped(w) && |w.p| == |v.p| && (w.small == [] || w.large == [])
    decreases |v.small| + |v.large|
  {
    if v.small == [] || v.large == [] then v else PairAll(Pair(v))
  }

  /** The columns left on a stack get the whole column to themselves. */
  function Settle(probs: seq<real>, rest: seq<nat>): (r: seq<real>)
    requires forall k :: 0 <= k < |rest| ==> rest[k] < |probs|
    ensures |r| == |probs|
    decreases |rest|
  {
    if rest == [] then probs else Settle(probs[Last(rest) := 1.0], Init(rest))
  }

  function Zeros(n: nat): (z: seq<real>)
    ensures |z| == n && forall i :: 0 <= i < n ==> z[i] == 0.0
  {
    if n == 0 then [] else Zeros(n - 1) + [0.0]
  }

  function NoAliases(n: nat): (z: seq<nat>)
    ensures |z| == n && forall i :: 0 <= i < n ==> z[i] == 0
  {
    if n == 0 then [] else NoAliases(n - 1) + [0]
  }

  lemma {:induction false} StackBounds(p: seq<real>, i: nat)
    requires i <= |p|
    ensures forall k :: 0 <= k < |SmallFrom(p, i)| ==> i <= SmallFrom(p, i)[k] < |p| && p[SmallFrom(p, i)[k]] < 1.0
    ensures forall k :: 0 <= k < |LargeFrom(p, i)| ==> i <= LargeFrom(p, i)[k] < |p| && p[LargeFrom(p, i)[k]] >= 1.0
    decreases |p| - i
  {
    if i < |p| {
      StackBounds(p, i + 1);
    }
  }

  function Start(n: nat): (v: Vose)
    requires 0 < n
    ensures Shaped(v) && |v.p| == n
  {
    var p := Targets(n, n);
    StackBounds(p, 0);
    Vose(p, SmallFrom(p, 0), LargeFrom(p, 0), Zeros(n), NoAliases(n))
  }

  datatype Table = Table(probs: seq<real>, aliases: seq<nat>)

  function TableOf(n: nat): (t: Table)
    requires 0 < n
    ensures |t.probs| == n && |t.aliases| == n
  {
    var v := PairAll(Start(n));
    Table(Settle(Settle(v.probs, v.large), v.small), v.aliases)
  }

  // ---------------------------------------------------------------------------
  // The table is exact
  // ---------------------------------------------------------------------------

  predicate Placed(v: Vose, i: nat) {
    i !in v.small && i !in v.large
  }

  /** What the first `k` placed columns give away to column `j`. */
  function Credit(v: Vose, j: nat, k: nat): real
    requires Shaped(v) && k <= |v.p|
  {
    if k == 0 then 0.0
    else Credit(v, j, k - 1) + (if Placed(v, k - 1) && v.aliases[k - 1] == j then 1.0 - v.probs[k - 1] else 0.0)
  }

  function SumAt(p: seq<real>, s: seq<nat>): real
    requires forall k :: 0 <= k < |s| ==> s[k] < |p|
    decreases |s|
  {
    if s == [] then 0.0 else SumAt(p, Init(s)) + p[Last(s)]
  }

  ghost predicate Distinct(s: seq<nat>) {
    forall i, j :: 0 <= i < j < |s| ==> s[i] != s[j]
  }

  /** Column `j`'s weight and what others give it are together what it should have. */
  ghost predicate Stands(v: Vose, target: seq<real>, j: nat)
    requires Shaped(v) && |target| == |v.p| && j < |v.p| && forall i :: 0 <= i < |v.p| ==> v.aliases[i] < |v.p|
  {
    (if Placed(v, j) then v.probs[j] else v.p[j]) + Credit(v, j, |v.p|) == target[j]
  }

  /** Weight is only moved, never made or lost; what is left averages one a column. */
  ghost predicate Balanced(v: Vose, target: seq<real>) {
    && Shaped(v) && |target| == |v.p|
    && Distinct(v.small) && Distinct(v.large) && (forall i :: i in v.small ==> i !in v.large)
    && (forall i :: i in v.small ==> 0.0 < v.p[i] < 1.0)
    && (forall i :: i in v.large ==> 1.0 <= v.p[i])
    && (forall i :: 0 <= i < |v.p| ==> v.aliases[i] < |v.p|)
    && (forall i :: 0 <= i < |v.p| && Placed(v, i) ==> 0.0 < v.probs[i] < 1.0)
    && (forall j: nat :: j < |v.p| ==> Stands(v, target, j))
    && SumAt(v.p, v.small) + SumAt(v.p, v.large) == (|v.small| + |v.large|) as real
  }

  lemma InLast(s: seq<nat>)
    requires s != [] && Distinct(s)
    ensures Last(s) !in Init(s) && Distinct(Init(s))
    ensures forall i :: i in s <==> i in Init(s) || i == Last(s)
  {
    assert s == Init(s) + [Last(s)];
  }

  /** After a pairing, the small column is placed and every other keeps its standing. */
  lemma PairPlaces(v: Vose, target: seq<real>)
    requires Balanced(v, target) && v.small != [] && v.large != []
    ensures var a, g, w := Last(v.small), Last(v.large), Pair(v);
            && a != g && Placed(w, a) && !Placed(v, a) && !Placed(w, g) && !Placed(v, g)
            && (forall i :: i != a ==> (Placed(w, i) <==> Placed(v, i)))
            && (forall i :: i in w.small <==> (i in v.small && i != a) || (i == g && w.p[g] < 1.0))
            && (forall i :: i in w.large <==> (i in v.large && i != g) || (i == g && w.p[g] >= 1.0))
            && Distinct(w.small) && Distinct(w.large)
  {
    InLast(v.small);
    InLast(v.large);
  }

  lemma {:induction false} PairCredit(v: Vose, target: seq<real>, j: nat, k: nat)
    requires Balanced(v, target) && v.small != [] && v.large != [] && k <= |v.p|
    ensures var a, g := Last(v.small), Last(v.large);
            Credit(Pair(v), j, k) == Credit(v, j, k) + (if a < k && j == g then 1.0 - v.p[a] else 0.0)
  {
    if k > 0 {
      PairCredit(v, target, j, k - 1);
      PairPlaces(v, target);
    }
  }

  lemma {:induction false} SumAtElsewhere(p: seq<real>, g: nat, q: real, s: seq<nat>)
    requires g < |p| && g !in s && forall k :: 0 <= k < |s| ==> s[k] < |p|
    ensures SumAt(p[g := q], s) == SumAt(p, s)
    decreases |s|
  {
    if s != [] {
      SumAtElsewhere(p, g, q, Init(s));
    }
  }

  lemma {:induction false} SumAtPush(p: seq<real>, s: seq<nat>, i: nat)
    requires i < |p| && forall k :: 0 <= k < |s| ==> s[k] < |p|
    ensures SumAt(p, s + [i]) == SumAt(p, s) + p[i]
  {
    assert Init(s + [i]) == s;
  }

  lemma {:induction false} PairSum(v: Vose, target: seq<real>)
    requires Balanced(v, target) && v.small != [] && v.large != []
    ensures var w := Pair(v);
            SumAt(w.p, w.small) + SumAt(w.p, w.large) == (|w.small| + |w.large|) as real
  {
    var a, g, w := Last(v.small), Last(v.large), Pair(v);
    InLast(v.small);
    InLast(v.large);
    SumAtElsewhere(v.p, g, w.p[g], Init(v.small));
    SumAtElsewhere(v.p, g, w.p[g], Init(v.large));
    if w.p[g] < 1.0 {
      SumAtPush(w.p, Init(v.small), g);
    } else {
      SumAtPush(w.p, Init(v.large), g);
    }
    assert Init(v.small) + [] == Init(v.small) && Init(v.large) + [] == Init(v.large);
  }

  lemma {:induction false} PairKeepsStanding(v: Vose, target: seq<real>, j: nat)
    requires Balanced(v, target) && v.small != [] && v.large != [] && j < |v.p|
    ensures Shaped(Pair(v)) && (forall i :: 0 <= i < |v.p| ==> Pair(v).aliases[i] < |v.p|) && Stands(Pair(v), target, j)
  {
    assert Stands(v, target, j);
    PairPlaces(v, target);
    PairCredit(v, target, j, |v.p|);
  }

  lemma {:induction false} PairKeepsBalance(v: Vose, target: seq<real>)
    requires Balanced(v, target) && v.small != [] && v.large != []
    ensures Balanced(Pair(v), target)
  {
    hide Stands, SumAt;
    PairPlaces(v, target);
    PairSum(v, target);
    PairKeepsStanding(v, target, 0);
    forall j: nat | j < |v.p| ensures Stands(Pair(v), target, j) {
      PairKeepsStanding(v, target, j);
    }
  }

  lemma {:induction false} SumBelow(p: seq<real>, s: seq<nat>)
    requires forall k :: 0 <= k < |s| ==> s[k] < |p| && p[s[k]] < 1.0
    ensures SumAt(p, s) <= |s| as real && (s != [] ==> SumAt(p, s) < |s| as real)
    decreases |s|
  {
    if s != [] {
      SumBelow(p, Init(s));
    }
  }

  lemma {:induction false} SumAbove(p: seq<real>, s: seq<nat>)
    requires forall k :: 0 <= k < |s| ==> s[k] < |p| && p[s[k]] >= 1.0
    ensures SumAt(p, s) >= |s| as real
    ensures SumAt(p, s) == |s| as real ==> forall k :: 0 <= k < |s| ==> p[s[k]] == 1.0
    decreases |s|
  {
    if s != [] {
      SumAbove(p, Init(s));
      forall k | 0 <= k < |s| && SumAt(p, s) == |s| as real ensures p[s[k]] == 1.0 {
        if k < |s| - 1 {
          assert s[k] == Init(s)[k];
        }
      }
    }
  }

  /** When pairing stops, no small column is left and every large one weighs exactly one. */
  lemma {:induction false} PairingLeavesNoSmall(v: Vose, target: seq<real>)
    requires Balanced(v, target)
    ensures var w := PairAll(v);
            Balanced(w, target) && w.small == [] && forall i :: i in w.large ==> w.p[i] == 1.0
    decreases |v.small| + |v.large|
  {
    if v.small == [] || v.large == [] {
      assert forall k :: 0 <= k < |v.small| ==> v.small[k] in v.small;
      assert forall k :: 0 <= k < |v.large| ==> v.large[k] in v.large;
      SumBelow(v.p, v.small);
      SumAbove(v.p, v.large);
    } else {
      PairKeepsBalance(v, target);
      PairingLeavesNoSmall(Pair(v), target);
    }
  }

  lemma {:induction false} SettleSets(probs: seq<real>, rest: seq<nat>)
    requires forall k :: 0 <= k < |rest| ==> rest[k] < |probs|
    ensures forall i :: 0 <= i < |probs| ==> Settle(probs, rest)[i] == if i in rest then 1.0 else probs[i]
    decreases |rest|
  {
    if rest != [] {
      SettleSets(probs[Last(rest) := 1.0], Init(rest));
      assert rest == Init(rest) + [Last(rest)];
    }
  }

  function PrefixSum(p: seq<real>, k: nat): real
    requires k <= |p|
  {
    if k == 0 then 0.0 else PrefixSum(p, k - 1) + p[k - 1]
  }

  lemma {:induction false} StacksHoldAll(p: seq<real>, i: nat)
    requires i <= |p|
    ensures var small, large := SmallFrom(p, i), LargeFrom(p, i);
            && Distinct(small) && Distinct(large) && |small| + |large| == |p| - i
            && (forall j :: i <= j < |p| ==> j in small || j in large)
    decreases |p| - i
  {
    if i < |p| {
      StacksHoldAll(p, i + 1);
      StackBounds(p, i + 1);
    }
  }

  lemma {:induction false} StackSums(p: seq<real>, i: nat)
    requires i <= |p|
    requires forall k :: 0 <= k < |SmallFrom(p, i)| ==> SmallFrom(p, i)[k] < |p|
    requires forall k :: 0 <= k < |LargeFrom(p, i)| ==> LargeFrom(p, i)[k] < |p|
    ensures SumAt(p, SmallFrom(p, i)) + SumAt(p, LargeFrom(p, i)) + PrefixSum(p, i) == PrefixSum(p, |p|)
    decreases |p| - i
  {
    if i < |p| {
      StackBounds(p, i + 1);
      StackSums(p, i + 1);
      if p[i] < 1.0 {
        SumAtPush(p, SmallFrom(p, i + 1), i);
        assert LargeFrom(p, i) == LargeFrom(p, i + 1);
      } else {
        SumAtPush(p, LargeFrom(p, i + 1), i);
        assert SmallFrom(p, i) == SmallFrom(p, i + 1);
      }
    }
  }

  lemma PortionsAdd(a: real, b: real, n: real, total: real)
    requires total > 0.0
    ensures Portion(a + b, n, total) == Portion(a, n, total) + Portion(b, n, total)
  {
  }

  lemma {:induction false} TargetsAddUp(n: nat, k: nat)
    requires 0 < n && k <= n
    ensures PrefixSum(Targets(n, n), k) == Portion(Harmonic(k), n as real, Harmonic(n))
  {
    if k > 0 {
      var h, w := Harmonic(k - 1), 1.0 / k as real;
      assert Harmonic(k) == h + w;
      TargetsAddUp(n, k - 1);
      PortionsAdd(h, w, n as real, Harmonic(n));
    }
  }

  lemma {:induction false} NothingGivenYet(v: Vose, j: nat, k: nat)
    requires Shaped(v) && k <= |v.p| && forall i :: 0 <= i < |v.p| ==> !Placed(v, i)
    ensures Credit(v, j, k) == 0.0
  {
    if k > 0 {
      NothingGivenYet(v, j, k - 1);
    }
  }

  lemma {:induction false} TargetPositive(n: nat, i: nat)
    requires 0 < n
    ensures Target(n, i) > 0.0
  {
    PortionPositive(1.0 / (i + 1) as real, n as real, Harmonic(n));
  }

  lemma PortionPositive(weight: real, n: real, total: real)
    requires weight > 0.0 && n > 0.0 && total > 0.0
    ensures Portion(weight, n, total) > 0.0
  {
    assert weight * n > 0.0;
  }

  lemma {:induction false} StartAveragesOne(n: nat)
    requires 0 < n
    ensures var v := Start(n);
            SumAt(v.p, v.small) + SumAt(v.p, v.large) == n as real
  {
    StackBounds(Targets(n, n), 0);
    StackSums(Targets(n, n), 0);
    TargetsAddUp(n, n);
    Cancels(Harmonic(n), n as real);
  }

  lemma Cancels(h: real, n: real)
    requires h > 0.0
    ensures Portion(h, n, h) == n
  {
  }

  lemma {:induction false} StartStanding(n: nat, j: nat)
    requires j < n
    ensures var v := Start(n);
            !Placed(v, j) && v.p[j] > 0.0 && v.p[j] + Credit(v, j, n) == Targets(n, n)[j]
  {
    StacksHoldAll(Targets(n, n), 0);
    NothingGivenYet(Start(n), j, n);
    TargetPositive(n, j);
  }

  lemma {:induction false} StartIsBalanced(n: nat)
    requires 0 < n
    ensures Balanced(Start(n), Targets(n, n))
  {
    hide Targets, Credit, SumAt, SmallFrom, LargeFrom;
    var v := Start(n);
    StackBounds(v.p, 0);
    StacksHoldAll(v.p, 0);
    StartAveragesOne(n);
    forall j | 0 <= j < n
      ensures !Placed(v, j) && v.p[j] > 0.0 && v.p[j] + Credit(v, j, n) == Targets(n, n)[j]
    {
      StartStanding(n, j);
    }
  }

  /** How much of column `i` leads to degree `j + 1`. */
  function Share(t: Table, i: nat, j: nat): real
    requires i < |t.probs| == |t.aliases|
  {
    (if i == j then t.probs[i] else 0.0) + (if t.aliases[i] == j then 1.0 - t.probs[i] else 0.0)
  }

  /** How much of the first `k` columns leads to degree `j + 1`. */
  function Mass(t: Table, j: nat, k: nat): real
    requires k <= |t.probs| == |t.aliases|
  {
    if k == 0 then 0.0 else Mass(t, j, k - 1) + Share(t, k - 1, j)
  }

  lemma {:induction false} MassIsStanding(v: Vose, t: Table, j: nat, k: nat)
    requires Shaped(v) && t.aliases == v.aliases && |t.probs| == |v.p| && k <= |v.p|
    requires forall i :: 0 <= i < |v.p| ==> t.probs[i] == if Placed(v, i) then v.probs[i] else 1.0
    ensures Mass(t, j, k) == (if j < k then t.probs[j] else 0.0) + Credit(v, j, k)
  {
    if k > 0 {
      MassIsStanding(v, t, j, k - 1);
    }
  }

  /** Once pairing is over and the large columns settled, every column gets exactly its target. */
  lemma {:induction false} SettledIsExact(v: Vose, target: seq<real>, t: Table, n: nat, j: nat)
    requires Balanced(v, target) && |v.p| == n && v.small == [] && (forall i :: i in v.large ==> v.p[i] == 1.0) && j < n
    requires t.aliases == v.aliases && |t.probs| == n
    requires forall i :: 0 <= i < n ==> t.probs[i] == if i in v.large then 1.0 else v.probs[i]
    ensures Mass(t, j, n) == target[j]
    ensures forall i :: 0 <= i < n ==> 0.0 < t.probs[i] <= 1.0 && t.aliases[i] < n
  {
    hide Credit, Mass;
    assert Stands(v, target, j);
    MassIsStanding(v, t, j, n);
  }

  /**
   The table is exact: of the `n` equally likely columns, degree `j + 1` gets `Target(n, j)`,
   that is `n / ((j + 1) H_n)`. Every probability is at most one, every alias a column.
   */
  lemma {:induction false} TableIsExact(n: nat, j: nat)
    requires j < n
    ensures Mass(TableOf(n), j, n) == Target(n, j)
    ensures forall i :: 0 <= i < n ==> 0.0 < TableOf(n).probs[i] <= 1.0 && TableOf(n).aliases[i] < n
  {
    hide PairAll, Balanced, Mass, Target;
    var v := PairAll(Start(n));
    StartIsBalanced(n);
    PairingLeavesNoSmall(Start(n), Targets(n, n));
    SettleSets(v.probs, v.large);
    SettledIsExact(v, Targets(n, n), TableOf(n), n, j);
  }

  // ---------------------------------------------------------------------------
  // The two draws
  // ---------------------------------------------------------------------------

  /** The degree column `i` gives when the second draw is `d`. */
  function Picked(t: Table, i: nat, d: real): nat
    requires i < |t.probs| == |t.aliases|
  {
    if d < t.probs[i] then i + 1 else t.aliases[i] + 1
  }

  /** The part of `0.0..1.0` for which column `i` gives degree `j + 1`. */
  function Interval(t: Table, i: nat, j: nat): (real, real)
    requires i < |t.probs| == |t.aliases|
  {
    (if i == j then 0.0 else t.probs[i], if t.aliases[i] == j then 1.0 else t.probs[i])
  }

  /** A column gives degree `j + 1` exactly on an interval as long as its share. */
  lemma PickedOnShare(t: Table, i: nat, j: nat, d: real)
    requires i < |t.probs| == |t.aliases| && 0.0 <= t.probs[i] <= 1.0 && 0.0 <= d < 1.0
    ensures Picked(t, i, d) == j + 1 <==> Interval(t, i, j).0 <= d < Interval(t, i, j).1
    ensures Share(t, i, j) == Interval(t, i, j).1 - Interval(t, i, j).0
  {
  }

  function Min(a: nat, b: nat): nat { if a <= b then a else b }

  /** The degree two draws give. */
  function DegreeOf(n: nat, first: Fraction, second: Fraction): nat
    requires 0 < n
  {
    var i := Scaled(first, n);
    Picked(TableOf(n), Min(i, n - 1), second)
  }

  /** Two draws give degree `j + 1`: the first is in column `i`'s stretch, the second on its interval. */
  ghost predicate Gives(n: nat, first: Fraction, second: Fraction, j: nat, i: nat)
    requires 0 < n
  {
    var t := TableOf(n);
    i < n && InStretch(first, n, i) && Interval(t, i, j).0 <= second < Interval(t, i, j).1
  }

  ghost predicate SomeGives(n: nat, first: Fraction, second: Fraction, j: nat)
    requires 0 < n
  {
    exists i: nat :: Gives(n, first, second, j, i)
  }

  /** How large the part of the square of draws is for which one of the first `k` columns gives degree `j + 1`. */
  ghost function Area(n: nat, j: nat, k: nat): real
    requires 0 < n && k <= n
  {
    if k == 0 then 0.0
    else Area(n, j, k - 1) + (Interval(TableOf(n), k - 1, j).1 - Interval(TableOf(n), k - 1, j).0) / n as real
  }

  /**
   The draws that give degree `j + 1` are those of one rectangle a column, as wide as the column, and
   together they are `1 / ((j + 1) H_n)` of the square: the degree is weighted by its inverse.
   */
  lemma {:induction false} DegreeIsWeighed(n: nat, j: nat)
    requires j < n
    ensures forall first: Fraction, second: Fraction ::
              DegreeOf(n, first, second) == j + 1 <==> SomeGives(n, first, second, j)
    ensures Area(n, j, n) * (j + 1) as real * Harmonic(n) == 1.0
  {
    hide TableOf, SomeGives, Area, Harmonic, Target, Mass, DegreeOf;
    TableIsExact(n, j);
    forall first: Fraction, second: Fraction
      ensures DegreeOf(n, first, second) == j + 1 <==> SomeGives(n, first, second, j)
    {
      DegreeOnRectangles(n, first, second, j);
    }
    AreaIsMass(n, j, n);
    TargetShare(n, j);
    ShareOfArea(Area(n, j, n), Target(n, j), n as real, (j + 1) as real, Harmonic(n));
  }

  lemma ShareOfArea(area: real, target: real, n: real, d: real, h: real)
    requires n > 0.0 && area * n == target && target * d * h == n
    ensures area * d * h == 1.0
  {
    assert area * n * d * h == n;
    assert area * d * h * n == n;
  }

  lemma {:induction false} DegreeOnRectangles(n: nat, first: Fraction, second: Fraction, j: nat)
    requires j < n
    ensures DegreeOf(n, first, second) == j + 1 <==> SomeGives(n, first, second, j)
  {
    hide TableOf, Interval, Picked;
    TableIsExact(n, j);
    var c := Scaled(first, n);
    ScaledIsStretch(first, n, c);
    PickedOnShare(TableOf(n), c, j, second);
    if DegreeOf(n, first, second) == j + 1 {
      assert Gives(n, first, second, j, c);
    }
    if i: nat :| Gives(n, first, second, j, i) {
      ScaledIsStretch(first, n, i);
    }
  }

  lemma {:induction false} AreaIsMass(n: nat, j: nat, k: nat)
    requires j < n && k <= n
    ensures Area(n, j, k) * n as real == Mass(TableOf(n), j, k)
  {
    hide TableOf, Interval, Share;
    if k > 0 {
      AreaIsMass(n, j, k - 1);
      TableIsExact(n, j);
      PickedOnShare(TableOf(n), k - 1, j, 0.0);
      Undivided(Share(TableOf(n), k - 1, j), n as real);
    }
  }

  lemma Undivided(x: real, n: real)
    requires n > 0.0
    ensures x / n * n == x
  {
  }

  lemma {:induction false} TargetShare(n: nat, j: nat)
    requires j < n
    ensures Target(n, j) * (j + 1) as real * Harmonic(n) == n as real
  {
    PortionOf((j + 1) as real, n as real, Harmonic(n));
  }

  lemma PortionOf(d: real, n: real, total: real)
    requires d > 0.0 && total > 0.0
    ensures Portion(1.0 / d, n, total) * d * total == n
  {
    assert 1.0 / d * n / total * total == 1.0 / d * n;
    Undivided(n, d);
    assert 1.0 / d * d == 1.0;
  }

  /** A mixture of `n` fragments combines at least one and at most all of them. */
  lemma {:induction false} DegreeInRange(n: nat, first: Fraction, second: Fraction)
    requires 0 < n
    ensures 1 <= DegreeOf(n, first, second) <= n
  {
    TableIsExact(n, 0);
  }

  // ---------------------------------------------------------------------------
  // The loops
  // ---------------------------------------------------------------------------

  /** The target weights, into `p[..n]`. */
  method FillTargets(p: array<real>, n: nat)
    requires 0 < n <= p.Length
    modifies p
    ensures p[..n] == Targets(n, n)
  {
    var sum := 0.0;
    for i := 0 to n
      invariant sum == Harmonic(i)
    {
      sum := sum + 1.0 / (i + 1) as real;
    }
    for i := 0 to n
      invariant forall k :: 0 <= k < i ==> p[k] == Target(n, k)
    {
      p[i] := (1.0 / (i + 1) as real) * n as real / sum;
    }
  }

  /** Sort the columns onto the two stacks, from the highest index down. */
  method FillStacks(p: array<real>, n: nat, small: array<nat>, large: array<nat>) returns (ns: nat, nl: nat)
    requires n <= p.Length && n <= small.Length && n <= large.Length && small != large
    modifies small, large
    ensures ns + nl == n
    ensures small[..ns] == SmallFrom(p[..n], 0) && large[..nl] == LargeFrom(p[..n], 0)
  {
    ns, nl := 0, 0;
    var i: nat := n;
    while i > 0
      invariant i <= n && ns + nl == n - i
      invariant small[..ns] == SmallFrom(p[..n], i) && large[..nl] == LargeFrom(p[..n], i)
    {
      i := i - 1;
      if p[i] < 1.0 {
        small[ns] := i;
        ns := ns + 1;
      } else {
        large[nl] := i;
        nl := nl + 1;
      }
    }
  }

  /** One pairing: the top small column is placed, the top large one pays for it. */
  method PairOnce(
      p: array<real>, n: nat, small: array<nat>, ns0: nat, large: array<nat>, nl0: nat,
      probs: array<real>, aliases: array<nat>) returns (ns: nat, nl: nat)
    requires n <= p.Length && n <= probs.Length && n <= aliases.Length
    requires p != probs && small != large && small != aliases && large != aliases
    requires 0 < ns0 <= small.Length && 0 < nl0 <= large.Length
    requires Shaped(Vose(p[..n], small[..ns0], large[..nl0], probs[..n], aliases[..n]))
    modifies p, small, large, probs, aliases
    ensures ns <= ns0 && nl <= nl0 && ns + nl < ns0 + nl0
    ensures Vose(p[..n], small[..ns], large[..nl], probs[..n], aliases[..n])
         == Pair(old(Vose(p[..n], small[..ns0], large[..nl0], probs[..n], aliases[..n])))
  {
    ghost var v := Vose(p[..n], small[..ns0], large[..nl0], probs[..n], aliases[..n]);
    ns, nl := ns0 - 1, nl0 - 1;
    var a, g := small[ns], large[nl];
    assert a == Last(v.small) && g == Last(v.large);
    probs[a] := p[a];
    aliases[a] := g;
    p[g] := p[g] + (p[a] - 1.0);
    if p[g] < 1.0 {
      small[ns] := g;
      ns := ns + 1;
    } else {
      large[nl] := g;
      nl := nl + 1;
    }
    ghost var q := v.p[g] + (v.p[a] - 1.0);
    assert p[..n] == v.p[g := q];
    assert small[..ns] == Init(v.small) + (if q < 1.0 then [g] else []);
    assert large[..nl] == Init(v.large) + (if q < 1.0 then [] else [g]);
  }

  /** Pair small columns with large ones until one stack is empty. */
  method PairStacks(
      p: array<real>, n: nat, small: array<nat>, ns0: nat, large: array<nat>, nl0: nat,
      probs: array<real>, aliases: array<nat>) returns (ns: nat, nl: nat)
    requires n <= p.Length && n <= probs.Length && n <= aliases.Length
    requires p != probs && small != large && small != aliases && large != aliases
    requires ns0 <= small.Length && nl0 <= large.Length
    requires Shaped(Vose(p[..n], small[..ns0], large[..nl0], probs[..n], aliases[..n]))
    modifies p, small, large, probs, aliases
    ensures ns <= small.Length && nl <= large.Length
    ensures Vose(p[..n], small[..ns], large[..nl], probs[..n], aliases[..n])
         == PairAll(old(Vose(p[..n], small[..ns0], large[..nl0], probs[..n], aliases[..n])))
  {
    ns, nl := ns0, nl0;
    ghost var start := Vose(p[..n], small[..ns], large[..nl], probs[..n], aliases[..n]);
    while ns > 0 && nl > 0
      invariant ns <= small.Length && nl <= large.Length
      invariant Shaped(Vose(p[..n], small[..ns], large[..nl], probs[..n], aliases[..n]))
      invariant PairAll(Vose(p[..n], small[..ns], large[..nl], probs[..n], aliases[..n])) == PairAll(start)
      decreases ns + nl
    {
      ns, nl := PairOnce(p, n, small, ns, large, nl, probs, aliases);
    }
  }

  /** Give each column still on a stack the whole of itself. */
  method SettleStack(probs: array<real>, n: nat, stack: array<nat>, m0: nat)
    requires n <= probs.Length && m0 <= stack.Length
    requires forall k :: 0 <= k < m0 ==> stack[k] < n
    modifies probs
    ensures probs[..n] == Settle(old(probs[..n]), stack[..m0])
  {
    var m: nat := m0;
    while m > 0
      invariant m <= m0
      invariant Settle(probs[..n], stack[..m]) == Settle(old(probs[..n]), stack[..m0])
    {
      ghost var before := probs[..n];
      assert Init(stack[..m]) == stack[..m - 1] && Last(stack[..m]) == stack[m - 1];
      m := m - 1;
      probs[stack[m]] := 1.0;
      assert probs[..n] == before[stack[m] := 1.0];
    }
  }

  /** Pair what the stacks hold, and settle what pairing leaves. */
  method FinishTable(
      p: array<real>, n: nat, small: array<nat>, ns0: nat, large: array<nat>, nl0: nat,
      probs: array<real>, aliases: array<nat>)
    requires 0 < n <= p.Length && n <= probs.Length && n <= aliases.Length
    requires p != probs && small != large && small != aliases && large != aliases
    requires ns0 <= small.Length && nl0 <= large.Length
    requires Vose(p[..n], small[..ns0], large[..nl0], probs[..n], aliases[..n]) == Start(n)
    modifies p, small, large, probs, aliases
    ensures probs[..n] == TableOf(n).probs && aliases[..n] == TableOf(n).aliases
  {
    hide Start, PairAll;
    var ns, nl := PairStacks(p, n, small, ns0, large, nl0, probs, aliases);
    ghost var v := PairAll(Start(n));
    SettleStack(probs, n, large, nl);
    SettleStack(probs, n, small, ns);
  }

  /** The stacks and the weights before pairing starts. */
  method StartTable(n: nat, probs: array<real>, aliases: array<nat>)
    returns (p: array<real>, small: array<nat>, ns: nat, large: array<nat>, nl: nat)
    requires 0 < n <= MAX_FRAGMENTS && n <= probs.Length && n <= aliases.Length
    requires probs[..n] == Zeros(n) && aliases[..n] == NoAliases(n)
    ensures fresh(p) && fresh(small) && fresh(large) && small != large
    ensures p.Length == small.Length == large.Length == MAX_FRAGMENTS && ns + nl == n
    ensures Vose(p[..n], small[..ns], large[..nl], probs[..n], aliases[..n]) == Start(n)
  {
    p := new real[MAX_FRAGMENTS](_ => 0.0);
    FillTargets(p, n);
    small := new nat[MAX_FRAGMENTS](_ => 0);
    large := new nat[MAX_FRAGMENTS](_ => 0);
    ns, nl := FillStacks(p, n, small, large);
  }

  /** The alias table for `n` fragments. */
  method BuildTable(n: nat) returns (probs: array<real>, aliases: array<nat>)
    requires 0 < n <= MAX_FRAGMENTS
    ensures fresh(probs) && fresh(aliases) && probs.Length == aliases.Length == MAX_FRAGMENTS
    ensures probs[..n] == TableOf(n).probs && aliases[..n] == TableOf(n).aliases
  {
    probs := new real[MAX_FRAGMENTS](_ => 0.0);
    aliases := new nat[MAX_FRAGMENTS](_ => 0);
    assert probs[..n] == Zeros(n) && aliases[..n] == NoAliases(n);
    var p, small, ns, large, nl := StartTable(n, probs, aliases);
    FinishTable(p, n, small, ns, large, nl, probs, aliases);
  }

  /** `choose_degree`: build the table, then draw a column and a side of it. */
  method ChooseDegree(n: nat, rng: Rng) returns (degree: nat)
    requires 0 < n <= MAX_FRAGMENTS
    modifies rng
    ensures var first, second := rng.stream(old(rng.drawn)), rng.stream(old(rng.drawn) + 1);
            degree == DegreeOf(n, first, second) && 1 <= degree <= n
            && SomeGives(n, first, second, degree - 1)
    ensures rng.drawn == old(rng.drawn) + 2
  {
    hide TableOf, SomeGives, Interval, Scaled;
    var probs, aliases := BuildTable(n);
    var first := rng.NextDouble();
    var second := rng.NextDouble();
    var i := Scaled(first, n);
    i := Min(i, n - 1);
    assert probs[i] == probs[..n][i] && aliases[i] == aliases[..n][i];
    degree := if second < probs[i] then i + 1 else aliases[i] + 1;
    DegreeInRange(n, first, second);
    DegreeOnRectangles(n, first, second, degree - 1);
  }
}
