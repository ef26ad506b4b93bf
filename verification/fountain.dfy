/**
 Which fragments a part carries: one, for the parts numbered up to `seq_len`; past that a
 mixture of as many as the degree says, drawn by a shuffle that closes the gap each draw leaves.
 */
module Fountain {
  import opened Generator
  import opened AliasTable
  import opened BitWords
  import opened Sets
  import opened Wrappers

  /** The stream the generator yields when seeded from a part number and a checksum. */
  type Seeder = (nat, nat) -> Stream

  const BITMAP_WORDS: nat := MAX_FRAGMENTS / WIDTH

  /** `s` without item `i`, the later ones moved down. */
  function Closed(s: seq<nat>, i: nat): seq<nat>
    requires i < |s|
  {
    s[..i] + s[i + 1..]
  }

  /** The items `k` draws take from `items`, in order. */
  function Drawn(items: seq<nat>, k: nat, s: Stream, at: nat): (d: seq<nat>)
    requires k <= |items|
    ensures |d| == k
    decreases k
  {
    if k == 0 then [] else
      var i := IntIn(s(at), 0, |items| - 1);
      [items[i]] + Drawn(Closed(items, i), k - 1, s, at + 1)
  }

  /** The items those draws leave. */
  function Left(items: seq<nat>, k: nat, s: Stream, at: nat): (l: seq<nat>)
    requires k <= |items|
    ensures |l| == |items| - k
    decreases k
  {
    if k == 0 then items else Left(Closed(items, IntIn(s(at), 0, |items| - 1)), k - 1, s, at + 1)
  }

  function UpTo(n: nat): (s: seq<nat>)
    ensures |s| == n && forall i :: 0 <= i < n ==> s[i] == i
  {
    if n == 0 then [] else UpTo(n - 1) + [n - 1]
  }

  /** How many fragments part `seqNum` combines. */
  function Degree(seqNum: nat, seqLen: nat, checksum: nat, seeder: Seeder): nat
    requires 0 < seqLen
  {
    if seqNum <= seqLen then 1
    else DegreeOf(seqLen, seeder(seqNum, checksum)(0), seeder(seqNum, checksum)(1))
  }

  /** The fragments part `seqNum` combines. */
  ghost function Chosen(seqNum: nat, seqLen: nat, checksum: nat, seeder: Seeder): set<nat>
    requires 0 < seqNum && 0 < seqLen
  {
    if seqNum <= seqLen then {seqNum - 1} else
      var s := seeder(seqNum, checksum);
      DegreeInRange(seqLen, s(0), s(1));
      SetOf(Drawn(UpTo(seqLen), Degree(seqNum, seqLen, checksum, seeder), s, 2))
  }

  // ---------------------------------------------------------------------------
  // The draw is without replacement
  // ---------------------------------------------------------------------------

  lemma ClosedMultiset(s: seq<nat>, i: nat)
    requires i < |s|
    ensures multiset(s) == multiset{s[i]} + multiset(Closed(s, i))
  {
    assert s == s[..i] + [s[i]] + s[i + 1..];
  }

  lemma {:induction false} FirstDraw(items: seq<nat>, k: nat, s: Stream, at: nat) returns (x: nat, rest: seq<nat>)
    requires 0 < k <= |items|
    ensures |rest| == |items| - 1 && multiset(items) == multiset{x} + multiset(rest)
    ensures Drawn(items, k, s, at) == [x] + Drawn(rest, k - 1, s, at + 1)
    ensures Left(items, k, s, at) == Left(rest, k - 1, s, at + 1)
  {
    var i := IntIn(s(at), 0, |items| - 1);
    x, rest := items[i], Closed(items, i);
    ClosedMultiset(items, i);
  }

  lemma NothingDrawn(items: seq<nat>, s: Stream, at: nat)
    ensures Drawn(items, 0, s, at) == [] && Left(items, 0, s, at) == items
  {
  }

  lemma OneMoreDrawn(items: seq<nat>, x: nat, rest: seq<nat>, drawn: seq<nat>, left: seq<nat>)
    requires multiset(items) == multiset{x} + multiset(rest)
    requires multiset(drawn) + multiset(left) == multiset(rest)
    ensures multiset([x] + drawn) + multiset(left) == multiset(items)
  {
  }

  /** Drawn and left items together are always the items there were. */
  lemma {:induction false} DrawnAndLeft(items: seq<nat>, k: nat, s: Stream, at: nat)
    requires k <= |items|
    ensures multiset(Drawn(items, k, s, at)) + multiset(Left(items, k, s, at)) == multiset(items)
    decreases k
  {
    hide Drawn, Left, Closed, IntIn;
    if k == 0 {
      NothingDrawn(items, s, at);
    } else {
      var x, rest := FirstDraw(items, k, s, at);
      DrawnAndLeft(rest, k - 1, s, at + 1);
      OneMoreDrawn(items, x, rest, Drawn(rest, k - 1, s, at + 1), Left(rest, k - 1, s, at + 1));
    }
  }

  /** How often `x` occurs. */
  ghost function Times(s: seq<nat>, x: nat): nat {
    multiset(s)[x]
  }

  lemma {:induction false} UpToOnce(n: nat)
    ensures forall i: nat :: Times(UpTo(n), i) == if i < n then 1 else 0
  {
    if n > 0 {
      UpToOnce(n - 1);
      assert UpTo(n) == UpTo(n - 1) + [n - 1];
      forall i: nat ensures Times(UpTo(n), i) == Times(UpTo(n - 1), i) + (if i == n - 1 then 1 else 0) {}
    }
  }

  lemma {:induction false} OnceMeansSize(d: seq<nat>)
    requires forall x: nat :: Times(d, x) <= 1
    ensures |SetOf(d)| == |d|
  {
    if d != [] {
      var n := |d| - 1;
      var e, x := d[..n], d[n];
      assert d == e + [x];
      assert multiset(d) == multiset(e) + multiset{x};
      forall y: nat ensures Times(e, y) <= Times(d, y) {}
      OnceMeansSize(e);
      assert x !in e by {
        assert Times(d, x) == Times(e, x) + 1;
      }
      assert SetOf(d) == SetOf(e) + {x};
    }
  }

  /**
   A part carries a nonempty set of the fragments there are: just its own when it is pure, and
   exactly `Degree` different ones when it is a mixture.
   */
  lemma {:induction false} ChosenIsProper(seqNum: nat, seqLen: nat, checksum: nat, seeder: Seeder)
    requires 0 < seqNum && 0 < seqLen
    ensures var c := Chosen(seqNum, seqLen, checksum, seeder);
            && (forall i :: i in c ==> i < seqLen)
            && |c| == Degree(seqNum, seqLen, checksum, seeder)
            && 1 <= |c| <= seqLen
            && (seqNum <= seqLen ==> c == {seqNum - 1})
  {
    if seqNum > seqLen {
      var s := seeder(seqNum, checksum);
      DegreeInRange(seqLen, s(0), s(1));
      var k := Degree(seqNum, seqLen, checksum, seeder);
      var d, l := Drawn(UpTo(seqLen), k, s, 2), Left(UpTo(seqLen), k, s, 2);
      DrawnAndLeft(UpTo(seqLen), k, s, 2);
      UpToOnce(seqLen);
      forall x: nat ensures Times(d, x) <= 1 && (x in d ==> x < seqLen) {
        assert Times(d, x) + Times(l, x) == Times(UpTo(seqLen), x);
      }
      OnceMeansSize(d);
    }
  }

  // ---------------------------------------------------------------------------
  // The loops
  // ---------------------------------------------------------------------------

  /** Close the gap at `at` in the first `left` items. */
  method CloseGap(remaining: array<nat>, at: nat, left: nat)
    requires at < left <= remaining.Length
    modifies remaining
    ensures remaining[..left - 1] == Closed(old(remaining[..left]), at)
  {
    ghost var was := remaining[..];
    for j := at to left - 1
      invariant remaining[..j] == was[..at] + was[at + 1..j + 1]
      invariant forall i :: j <= i < remaining.Length ==> remaining[i] == was[i]
    {
      remaining[j] := remaining[j + 1];
      assert remaining[..j + 1] == was[..at] + was[at + 1..j + 1] + [was[j + 1]];
    }
  }

  /** `Bitmap::new` */
  method NewBitmap() returns (words: seq<nat>)
    ensures |words| == BITMAP_WORDS && Words(words) && Members(words) == {}
  {
    ZeroFits(WIDTH);
    words := [0, 0, 0, 0];
    IsEmptySound(words);
  }

  /** One draw: mark the item in the bitmap and close the gap it leaves. */
  method DrawOne(rng: Rng, remaining: array<nat>, left: nat, words: seq<nat>) returns (r: seq<nat>)
    requires 0 < left <= remaining.Length && |words| == BITMAP_WORDS && Words(words)
    requires forall i :: 0 <= i < left ==> remaining[i] < MAX_FRAGMENTS
    modifies rng, remaining
    ensures rng.drawn == old(rng.drawn) + 1
    ensures |r| == BITMAP_WORDS && Words(r)
    ensures forall i :: 0 <= i < left - 1 ==> remaining[i] < MAX_FRAGMENTS
    ensures var at := IntIn(rng.stream(old(rng.drawn)), 0, left - 1);
            && remaining[..left - 1] == Closed(old(remaining[..left]), at)
            && Members(r) == Members(words) + {old(remaining[..left])[at]}
  {
    var at := rng.NextInt(0, left - 1);
    WithSound(words, remaining[at]);
    r := With(words, remaining[at]);
    ghost var was := remaining[..left];
    CloseGap(remaining, at, left);
    assert forall i :: 0 <= i < left - 1 ==> remaining[i] == remaining[..left - 1][i] == Closed(was, at)[i];
  }

  lemma {:induction false} DrawnStep(items: seq<nat>, k: nat, s: Stream, at: nat)
    requires 0 < k <= |items|
    ensures var i := IntIn(s(at), 0, |items| - 1);
            SetOf(Drawn(items, k, s, at)) == {items[i]} + SetOf(Drawn(Closed(items, i), k - 1, s, at + 1))
  {
    var i := IntIn(s(at), 0, |items| - 1);
    SetOfCons(items[i], Drawn(Closed(items, i), k - 1, s, at + 1));
  }

  lemma SetOfCons(x: nat, s: seq<nat>)
    ensures SetOf([x] + s) == {x} + SetOf(s)
  {
  }

  /** One of `k` draws: what is marked and what is still to be drawn are together the same. */
  method DrawNext(rng: Rng, remaining: array<nat>, left: nat, words: seq<nat>, ghost k: nat) returns (r: seq<nat>)
    requires 0 < k <= left <= remaining.Length && |words| == BITMAP_WORDS && Words(words)
    requires forall i :: 0 <= i < left ==> remaining[i] < MAX_FRAGMENTS
    modifies rng, remaining
    ensures rng.drawn == old(rng.drawn) + 1
    ensures |r| == BITMAP_WORDS && Words(r)
    ensures forall i :: 0 <= i < left - 1 ==> remaining[i] < MAX_FRAGMENTS
    ensures Members(r) + ToDraw(remaining[..left - 1], k - 1, rng.stream, rng.drawn)
         == Members(words) + old(ToDraw(remaining[..left], k, rng.stream, rng.drawn))
  {
    ghost var items := remaining[..left];
    DrawnStep(items, k, rng.stream, rng.drawn);
    r := DrawOne(rng, remaining, left, words);
  }

  ghost function ToDraw(items: seq<nat>, k: nat, s: Stream, at: nat): set<nat>
    requires k <= |items|
  {
    SetOf(Drawn(items, k, s, at))
  }

  /** Draw `degree` of the items there are into the bitmap. */
  method DrawLoop(rng: Rng, remaining: array<nat>, n: nat, degree: nat) returns (words: seq<nat>)
    requires degree <= n <= remaining.Length
    requires forall i :: 0 <= i < n ==> remaining[i] < MAX_FRAGMENTS
    modifies rng, remaining
    ensures |words| == BITMAP_WORDS && Words(words)
    ensures Members(words) == ToDraw(old(remaining[..n]), degree, rng.stream, old(rng.drawn))
  {
    ghost var all := ToDraw(remaining[..n], degree, rng.stream, rng.drawn);
    words := NewBitmap();
    for k := 0 to degree
      invariant |words| == BITMAP_WORDS && Words(words)
      invariant forall i :: 0 <= i < n - k ==> remaining[i] < MAX_FRAGMENTS
      invariant Members(words) + ToDraw(remaining[..n - k], degree - k, rng.stream, rng.drawn) == all
    {
      words := DrawNext(rng, remaining, n - k, words, degree - k);
    }
  }

  /** Draw `degree` of the numbers below `n` into a bitmap. */
  method DrawInto(rng: Rng, n: nat, degree: nat) returns (words: seq<nat>)
    requires degree <= n <= MAX_FRAGMENTS
    modifies rng
    ensures |words| == BITMAP_WORDS && Words(words)
    ensures Members(words) == SetOf(Drawn(UpTo(n), degree, rng.stream, old(rng.drawn)))
  {
    var remaining := new nat[MAX_FRAGMENTS](i => i);
    assert remaining[..n] == UpTo(n);
    words := DrawLoop(rng, remaining, n, degree);
  }

  /** `choose_fragments` */
  method ChooseFragments(seqNum: nat, seqLen: nat, checksum: nat, seeder: Seeder) returns (r: Option<seq<nat>>)
    requires 0 < seqNum
    ensures r.None? <==> seqLen == 0 || seqLen > MAX_FRAGMENTS
    ensures r.Some? ==> |r.value| == BITMAP_WORDS && Words(r.value)
                        && Members(r.value) == Chosen(seqNum, seqLen, checksum, seeder)
  {
    hide DegreeOf, SomeGives, Drawn, Members;
    if seqLen == 0 || seqLen > MAX_FRAGMENTS {
      return None;
    }
    if seqNum <= seqLen {
      var out := NewBitmap();
      WithSound(out, seqNum - 1);
      return Some(With(out, seqNum - 1));
    }
    var rng := new Rng(seeder(seqNum, checksum));
    var degree := ChooseDegree(seqLen, rng);
    DegreeInRange(seqLen, rng.stream(0), rng.stream(1));
    var words := DrawInto(rng, seqLen, degree);
    return Some(words);
  }
}
