/** The few facts about the sizes of sets of numbers that the solver does not find alone. */
module Sets {
  /** The numbers below `n`. */
  ghost function Numbers(n: nat): (s: set<nat>)
    ensures |s| == n && forall i: nat :: i in s <==> i < n
  {
    if n == 0 then {} else Numbers(n - 1) + {n - 1}
  }

  ghost function SetOf(s: seq<nat>): set<nat> {
    set x | x in s
  }

  lemma {:induction false} SubsetSize(a: set<nat>, b: set<nat>)
    requires a <= b
    ensures |a| <= |b|
  {
    if a != {} {
      var x :| x in a;
      SubsetSize(a - {x}, b - {x});
    }
  }

  /** As many numbers below `n` as there are, are all of them. */
  lemma FullSet(seen: set<nat>, n: nat)
    requires |seen| == n && forall i :: i in seen ==> i < n
    ensures forall i: nat :: i < n ==> i in seen
  {
    if i: nat :| i < n && i !in seen {
      SubsetSize(seen, Numbers(n) - {i});
    }
  }

  lemma FullIffCounted(seen: set<nat>, n: nat)
    requires forall i :: i in seen ==> i < n
    ensures |seen| == n <==> seen == Numbers(n)
  {
    if |seen| == n {
      FullSet(seen, n);
      assert seen == Numbers(n);
    }
  }
}
