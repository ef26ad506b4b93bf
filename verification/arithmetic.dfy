/** The few facts about division by a variable that the solver does not find alone. */
module Arithmetic {
  lemma SmallMultiple(k: int, to: nat, d: int)
    requires k * to == d && 0 - to < d < to
    ensures k == 0
  {
  }

  lemma ModOfSum(a: nat, to: nat)
    requires 0 < to
    ensures (a + to) % to == a % to && (a + to) / to == a / to + 1
  {
    var q, r := a / to, a % to;
    var q', r' := (a + to) / to, (a + to) % to;
    assert (q' - q - 1) * to == r - r';
    SmallMultiple(q' - q - 1, to, r - r');
  }

  lemma {:induction false} MultipleMod(q: nat, to: nat)
    requires 0 < to
    ensures (q * to) % to == 0 && (q * to) / to == q
  {
    if q != 0 {
      MultipleMod(q - 1, to);
      ModOfSum((q - 1) * to, to);
      assert q * to == (q - 1) * to + to;
    }
  }

  lemma QuotientAndRest(n: nat, to: nat)
    requires 0 < to
    ensures n % to < to && n % to <= n && (n - n % to) % to == 0
  {
    MultipleMod(n / to, to);
    assert n - n % to == n / to * to;
  }

  lemma QuotientOfMultiple(n: nat, to: nat)
    requires 0 < to && n % to == 0
    ensures n == n / to * to
  {
  }
}
