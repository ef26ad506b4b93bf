/**
 Sets of small numbers kept as 64-bit words: the fountain's `Bitmap` and the collector's `seen`.

 Number `i` is bit `i % 64` of word `i / 64`. The word operations work digit by digit on the
 binary form; each one is shown to be the set operation on `Members`.
 */
module BitWords {
  import opened Wrappers

  const WIDTH: nat := 64

  // ---------------------------------------------------------------------------
  // One word
  // ---------------------------------------------------------------------------

  predicate Bit(w: nat, k: nat) {
    if k == 0 then w % 2 == 1 else Bit(w / 2, k - 1)
  }

  /** `w` has no digit at place `n` or above. */
  predicate FitsIn(w: nat, n: nat) {
    if n == 0 then w == 0 else FitsIn(w / 2, n - 1)
  }

  /** `1 << k` */
  function Shift(k: nat): nat {
    if k == 0 then 1 else 2 * Shift(k - 1)
  }

  /** `a | b` */
  function Or(a: nat, b: nat): nat
    decreases a + b
  {
    if a == 0 && b == 0 then 0
    else (if a % 2 == 1 || b % 2 == 1 then 1 else 0) + 2 * Or(a / 2, b / 2)
  }

  /** `a & b` */
  function And(a: nat, b: nat): nat {
    if a == 0 then 0
    else (if a % 2 == 1 && b % 2 == 1 then 1 else 0) + 2 * And(a / 2, b / 2)
  }

  /** `a & !b` */
  function AndNot(a: nat, b: nat): nat {
    if a == 0 then 0
    else (if a % 2 == 1 && b % 2 == 0 then 1 else 0) + 2 * AndNot(a / 2, b / 2)
  }

  /** `w.count_ones()`, over the low `n` digits. */
  function Ones(w: nat, n: nat): nat {
    if n == 0 then 0 else w % 2 + Ones(w / 2, n - 1)
  }

  lemma {:induction false} ZeroBit(k: nat)
    ensures !Bit(0, k)
  {
    if k > 0 { ZeroBit(k - 1); }
  }

  lemma {:induction false} ShiftBit(k: nat, j: nat)
    ensures Bit(Shift(k), j) <==> j == k
  {
    if j > 0 && k > 0 {
      ShiftBit(k - 1, j - 1);
    } else if j > 0 {
      ZeroBit(j - 1);
    }
  }

  lemma {:induction false} OrBit(a: nat, b: nat, j: nat)
    ensures Bit(Or(a, b), j) <==> Bit(a, j) || Bit(b, j)
  {
    if a == 0 && b == 0 {
      ZeroBit(j);
    } else if j > 0 {
      OrBit(a / 2, b / 2, j - 1);
    }
  }

  lemma {:induction false} AndNotBit(a: nat, b: nat, j: nat)
    ensures Bit(AndNot(a, b), j) <==> Bit(a, j) && !Bit(b, j)
  {
    if a == 0 {
      ZeroBit(j);
    } else if j > 0 {
      AndNotBit(a / 2, b / 2, j - 1);
    }
  }

  /** A word that is not zero has a bit. */
  lemma {:induction false} SomeBit(w: nat, n: nat) returns (j: nat)
    requires FitsIn(w, n) && w != 0
    ensures j < n && Bit(w, j)
  {
    if w % 2 == 1 {
      j := 0;
    } else {
      var i := SomeBit(w / 2, n - 1);
      j := i + 1;
    }
  }

  lemma {:induction false} ShiftFits(k: nat, n: nat)
    requires k < n
    ensures FitsIn(Shift(k), n)
  {
    if k > 0 {
      ShiftFits(k - 1, n - 1);
      assert Shift(k) / 2 == Shift(k - 1);
    } else {
      ZeroFits(n - 1);
    }
  }

  lemma {:induction false} ZeroFits(n: nat)
    ensures FitsIn(0, n)
  {
    if n > 0 { ZeroFits(n - 1); }
  }

  lemma {:induction false} OrFits(a: nat, b: nat, n: nat)
    requires FitsIn(a, n) && FitsIn(b, n)
    ensures FitsIn(Or(a, b), n)
  {
    if n > 0 { OrFits(a / 2, b / 2, n - 1); }
  }

  lemma {:induction false} AndNotFits(a: nat, b: nat, n: nat)
    requires FitsIn(a, n)
    ensures FitsIn(AndNot(a, b), n)
  {
    if n > 0 { AndNotFits(a / 2, b / 2, n - 1); }
  }

  /** The one test the code makes of a bit: mask it out and compare with zero. */
  lemma {:induction false} MaskedBit(w: nat, k: nat)
    ensures And(w, Shift(k)) != 0 <==> Bit(w, k)
  {
    if w == 0 {
      ZeroBit(k);
    } else if k > 0 {
      MaskedBit(w / 2, k - 1);
    } else {
      AndZero(w / 2);
    }
  }

  lemma {:induction false} AndZero(w: nat)
    ensures And(w, 0) == 0
  {
    if w != 0 { AndZero(w / 2); }
  }

  // ---------------------------------------------------------------------------
  // Words in a row
  // ---------------------------------------------------------------------------

  ghost predicate Words(ws: seq<nat>) {
    forall i :: 0 <= i < |ws| ==> FitsIn(ws[i], WIDTH)
  }

  predicate Has(ws: seq<nat>, i: nat) {
    i < WIDTH * |ws| && And(ws[i / WIDTH], Shift(i % WIDTH)) != 0
  }

  function With(ws: seq<nat>, i: nat): (r: seq<nat>)
    ensures |r| == |ws|
  {
    if i < WIDTH * |ws| then ws[i / WIDTH := Or(ws[i / WIDTH], Shift(i % WIDTH))] else ws
  }

  function WithoutBit(ws: seq<nat>, i: nat): (r: seq<nat>)
    ensures |r| == |ws|
  {
    if i < WIDTH * |ws| then ws[i / WIDTH := AndNot(ws[i / WIDTH], Shift(i % WIDTH))] else ws
  }

  function Count(ws: seq<nat>): nat {
    if ws == [] then 0 else Count(ws[..|ws| - 1]) + Ones(ws[|ws| - 1], WIDTH)
  }

  function Minus(a: seq<nat>, b: seq<nat>): (r: seq<nat>)
    requires |a| == |b|
    ensures |r| == |a|
  {
    if a == [] then [] else [AndNot(a[0], b[0])] + Minus(a[1..], b[1..])
  }

  predicate IsEmpty(ws: seq<nat>) {
    forall i :: 0 <= i < |ws| ==> ws[i] == 0
  }

  predicate Within(a: seq<nat>, b: seq<nat>)
    requires |a| == |b|
  {
    forall i :: 0 <= i < |a| ==> AndNot(a[i], b[i]) == 0
  }

  /** The set the words stand for. */
  ghost function Members(ws: seq<nat>): set<nat> {
    set i: nat | 0 <= i < WIDTH * |ws| && Has(ws, i)
  }

  lemma HasIsMember(ws: seq<nat>, i: nat)
    ensures Has(ws, i) <==> i in Members(ws)
  {
  }

  lemma HasIsBit(ws: seq<nat>, i: nat)
    requires i < WIDTH * |ws|
    ensures Has(ws, i) <==> Bit(ws[i / WIDTH], i % WIDTH)
  {
    MaskedBit(ws[i / WIDTH], i % WIDTH);
  }

  lemma {:induction false} WithSound(ws: seq<nat>, i: nat)
    requires Words(ws) && i < WIDTH * |ws|
    ensures Words(With(ws, i))
    ensures Members(With(ws, i)) == Members(ws) + {i}
  {
    ShiftFits(i % WIDTH, WIDTH);
    OrFits(ws[i / WIDTH], Shift(i % WIDTH), WIDTH);
    forall j: nat | j < WIDTH * |ws| ensures Has(With(ws, i), j) <==> Has(ws, j) || j == i {
      HasIsBit(ws, j);
      HasIsBit(With(ws, i), j);
      if j / WIDTH == i / WIDTH {
        OrBit(ws[i / WIDTH], Shift(i % WIDTH), j % WIDTH);
        ShiftBit(i % WIDTH, j % WIDTH);
      }
    }
  }

  lemma {:induction false} WithoutBitSound(ws: seq<nat>, i: nat)
    requires Words(ws)
    ensures Words(WithoutBit(ws, i))
    ensures Members(WithoutBit(ws, i)) == Members(ws) - {i}
  {
    if i < WIDTH * |ws| {
      AndNotFits(ws[i / WIDTH], Shift(i % WIDTH), WIDTH);
      forall j: nat | j < WIDTH * |ws| ensures Has(WithoutBit(ws, i), j) <==> Has(ws, j) && j != i {
        HasIsBit(ws, j);
        HasIsBit(WithoutBit(ws, i), j);
        if j / WIDTH == i / WIDTH {
          AndNotBit(ws[i / WIDTH], Shift(i % WIDTH), j % WIDTH);
          ShiftBit(i % WIDTH, j % WIDTH);
        }
      }
    }
  }

  lemma {:induction false} MinusAt(a: seq<nat>, b: seq<nat>, k: nat)
    requires |a| == |b| && k < |a|
    ensures Minus(a, b)[k] == AndNot(a[k], b[k])
  {
    if k > 0 { MinusAt(a[1..], b[1..], k - 1); }
  }

  lemma {:induction false} MinusSound(a: seq<nat>, b: seq<nat>)
    requires Words(a) && |a| == |b|
    ensures Words(Minus(a, b))
    ensures Members(Minus(a, b)) == Members(a) - Members(b)
  {
    forall k | 0 <= k < |a| ensures FitsIn(Minus(a, b)[k], WIDTH) {
      MinusAt(a, b, k);
      AndNotFits(a[k], b[k], WIDTH);
    }
    forall j: nat | j < WIDTH * |a| ensures Has(Minus(a, b), j) <==> Has(a, j) && !Has(b, j) {
      HasIsBit(a, j);
      HasIsBit(b, j);
      HasIsBit(Minus(a, b), j);
      MinusAt(a, b, j / WIDTH);
      AndNotBit(a[j / WIDTH], b[j / WIDTH], j % WIDTH);
    }
  }

  lemma {:induction false} IsEmptySound(ws: seq<nat>)
    requires Words(ws)
    ensures IsEmpty(ws) <==> Members(ws) == {}
  {
    if IsEmpty(ws) {
      forall i: nat | i < WIDTH * |ws| ensures !Has(ws, i) {
        HasIsBit(ws, i);
        ZeroBit(i % WIDTH);
      }
    } else {
      var k :| 0 <= k < |ws| && ws[k] != 0;
      var j := SomeBit(ws[k], WIDTH);
      HasIsBit(ws, k * WIDTH + j);
      assert k * WIDTH + j in Members(ws);
    }
  }

  lemma {:induction false} WithinSound(a: seq<nat>, b: seq<nat>)
    requires Words(a) && |a| == |b|
    ensures Within(a, b) <==> Members(a) <= Members(b)
  {
    MinusSound(a, b);
    IsEmptySound(Minus(a, b));
    forall k | 0 <= k < |a| ensures Minus(a, b)[k] == AndNot(a[k], b[k]) {
      MinusAt(a, b, k);
    }
    DifferenceEmpty(Members(a), Members(b));
  }

  lemma DifferenceEmpty(a: set<nat>, b: set<nat>)
    ensures a - b == {} <==> a <= b
  {
    if a - b == {} {
      forall x | x in a ensures x in b {
        assert x !in b ==> x in a - b;
      }
    }
  }

  // ---------------------------------------------------------------------------
  // Counting
  // ---------------------------------------------------------------------------

  /** The members among the first `n` numbers. */
  ghost function Below(ws: seq<nat>, n: nat): set<nat> {
    set i: nat | 0 <= i < n && Has(ws, i)
  }

  lemma {:induction false} OnesSplit(w: nat, n: nat)
    ensures Ones(w, n + 1) == Ones(w, n) + (if Bit(w, n) then 1 else 0)
  {
    if n > 0 {
      OnesSplit(w / 2, n - 1);
    }
  }

  lemma BelowNext(ws: seq<nat>, n: nat)
    ensures |Below(ws, n + 1)| == |Below(ws, n)| + (if Has(ws, n) then 1 else 0)
  {
    if Has(ws, n) {
      assert Below(ws, n + 1) == Below(ws, n) + {n};
    } else {
      assert Below(ws, n + 1) == Below(ws, n);
    }
  }

  lemma {:induction false} OnesCountsBelow(ws: seq<nat>, k: nat, n: nat)
    requires k < |ws| && n <= WIDTH
    ensures |Below(ws, k * WIDTH + n)| == |Below(ws, k * WIDTH)| + Ones(ws[k], n)
  {
    if n > 0 {
      OnesCountsBelow(ws, k, n - 1);
      BelowNext(ws, k * WIDTH + n - 1);
      OnesSplit(ws[k], n - 1);
      HasIsBit(ws, k * WIDTH + n - 1);
    }
  }

  lemma {:induction false} CountCountsBelow(ws: seq<nat>, k: nat)
    requires k <= |ws|
    ensures Count(ws[..k]) == |Below(ws, k * WIDTH)|
  {
    if k == 0 {
      assert Below(ws, 0) == {};
    } else {
      CountCountsBelow(ws, k - 1);
      assert ws[..k][..k - 1] == ws[..k - 1];
      OnesCountsBelow(ws, k - 1, WIDTH);
    }
  }

  /** `count` is the size of the set. */
  lemma {:induction false} CountSound(ws: seq<nat>)
    ensures Count(ws) == |Members(ws)|
  {
    CountCountsBelow(ws, |ws|);
    assert ws[..|ws|] == ws;
    assert Below(ws, |ws| * WIDTH) == Members(ws);
  }

  /** The first member at or after `i`. */
  function FirstFrom(ws: seq<nat>, i: nat): (r: Option<nat>)
    ensures r.None? ==> forall j: nat :: i <= j < WIDTH * |ws| ==> !Has(ws, j)
    ensures r.Some? ==> i <= r.value < WIDTH * |ws| && Has(ws, r.value)
    decreases WIDTH * |ws| - i
  {
    if i >= WIDTH * |ws| then None
    else if Has(ws, i) then Some(i)
    else FirstFrom(ws, i + 1)
  }

  /** The only member, when exactly one number is. */
  function Only(ws: seq<nat>): Option<nat> {
    if Count(ws) != 1 then None else FirstFrom(ws, 0)
  }

  lemma {:induction false} OnlySound(ws: seq<nat>)
    ensures match Only(ws)
            case None => |Members(ws)| != 1
            case Some(i) => Members(ws) == {i}
  {
    CountSound(ws);
    if |Members(ws)| == 1 {
      var m :| m in Members(ws);
      assert Members(ws) - {m} == {} by {
        assert |Members(ws) - {m}| == 0;
      }
      assert Members(ws) == {m};
      assert Has(ws, m) && m < WIDTH * |ws|;
      assert FirstFrom(ws, 0).Some?;
      assert FirstFrom(ws, 0).value in Members(ws);
    }
  }
}
