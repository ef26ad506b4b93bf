/**
 The two searches of Block Cutter, over arrays: breadth first for the nearest border square, and
 flooding to number the black pieces.
 */
module CutterSearch {
  import opened CutterGrid
  import opened CutterModel
  import opened CutterSafety
  import opened Sets

  ghost predicate Distinct(q: seq<nat>) {
    forall i, j :: 0 <= i < j < |q| ==> q[i] != q[j]
  }

  lemma {:induction false} DistinctSize(q: seq<nat>)
    requires Distinct(q)
    ensures |SetOf(q)| == |q|
  {
    if q != [] {
      var n := |q| - 1;
      DistinctSize(q[..n]);
      assert SetOf(q) == SetOf(q[..n]) + {q[n]};
    }
  }

  /** A queue without repeats never overruns. */
  lemma QueueHasRoom(q: seq<nat>, c: nat)
    requires Distinct(q) && (forall i :: 0 <= i < |q| ==> q[i] < CN) && c < CN && c !in q
    ensures |q| < CN && Distinct(q + [c])
  {
    DistinctSize(q);
    SubsetSize(SetOf(q) + {c}, Numbers(CN));
  }

  lemma FourBeside(c: nat)
    requires c < CN
    ensures X(c) > 0 ==> Adjacent(c, At(X(c) - 1, Y(c)))
    ensures X(c) + 1 < CW ==> Adjacent(c, At(X(c) + 1, Y(c)))
    ensures Y(c) > 0 ==> Adjacent(c, At(X(c), Y(c) - 1))
    ensures Y(c) + 1 < CH ==> Adjacent(c, At(X(c), Y(c) + 1))
  {
  }

  predicate InRange(x: int, y: int) {
    0 <= x < CW && 0 <= y < CH
  }

  // ---------------------------------------------------------------------------
  // Breadth first
  // ---------------------------------------------------------------------------

  /** The queue holds each square seen once, all of them on the ground. */
  ghost predicate Queued(ground: set<nat>, seen: seq<bool>, q: seq<nat>) {
    && |seen| == CN && Distinct(q)
    && (forall i :: 0 <= i < |q| ==> q[i] in ground && q[i] < CN)
    && (forall c: nat :: c < CN ==> (seen[c] <==> c in q))
  }

  /** `r` is `q` with the square at `(x, y)` queued, if it is on the ground and was not yet. */
  ghost predicate Offered(ground: set<nat>, q: seq<nat>, r: seq<nat>, x: int, y: int) {
    && q <= r
    && (InRange(x, y) && At(x, y) in ground ==> At(x, y) in r)
    && (forall i :: |q| <= i < |r| ==> InRange(x, y) && r[i] == At(x, y))
  }

  /** Queue the square at `(x, y)`, if it is claimed and has not been seen. */
  method Offer(grid: array<Square>, seen: array<bool>, queue: array<nat>, tail: nat, x: int, y: int) returns (t: nat)
    requires grid.Length == CN && seen.Length == CN && queue.Length == CN && tail <= CN
    requires Queued(Cells(grid[..], Filled), seen[..], queue[..tail])
    modifies seen, queue
    ensures tail <= t <= CN
    ensures Queued(Cells(grid[..], Filled), seen[..], queue[..t])
    ensures Offered(Cells(grid[..], Filled), old(queue[..tail]), queue[..t], x, y)
  {
    t := tail;
    if 0 <= x < CW && 0 <= y < CH {
      var i := At(x, y);
      if !seen[i] && grid[i] == Filled {
        QueueHasRoom(queue[..tail], i);
        seen[i] := true;
        queue[tail] := i;
        t := tail + 1;
        assert queue[..t] == old(queue[..tail]) + [i];
      }
    }
  }

  /** `r` is `q` with the neighbours of `c` on the ground queued. */
  ghost predicate Expanded(ground: set<nat>, q: seq<nat>, r: seq<nat>, c: nat) {
    && q <= r
    && (forall n :: n in ground && Adjacent(c, n) ==> n in r)
    && (forall i :: |q| <= i < |r| ==> Adjacent(c, r[i]))
  }

  lemma FourOffers(ground: set<nat>, q0: seq<nat>, q1: seq<nat>, q2: seq<nat>, q3: seq<nat>, q4: seq<nat>, c: nat)
    requires c < CN && forall n :: n in ground ==> n < CN
    requires Offered(ground, q0, q1, X(c) - 1, Y(c)) && Offered(ground, q1, q2, X(c) + 1, Y(c))
    requires Offered(ground, q2, q3, X(c), Y(c) - 1) && Offered(ground, q3, q4, X(c), Y(c) + 1)
    ensures Expanded(ground, q0, q4, c)
  {
    InGrid(c);
    FourBeside(c);
    assert q1 <= q4 && q2 <= q4;
    forall n | n in ground && Adjacent(c, n) ensures n in q4 {
      FourNeighbours(c, n);
      InGrid(n);
    }
    forall i | |q0| <= i < |q4| ensures Adjacent(c, q4[i]) {
      if i < |q1| {
        assert q4[i] == q1[i];
      } else if i < |q2| {
        assert q4[i] == q2[i];
      } else if i < |q3| {
        assert q4[i] == q3[i];
      }
    }
  }

  /** Queue the unseen claimed neighbours of `c`. */
  method Expand(grid: array<Square>, seen: array<bool>, queue: array<nat>, tail: nat, c: nat) returns (t: nat)
    requires grid.Length == CN && seen.Length == CN && queue.Length == CN && tail <= CN && c < CN
    requires Queued(Cells(grid[..], Filled), seen[..], queue[..tail])
    modifies seen, queue
    ensures tail <= t <= CN
    ensures Queued(Cells(grid[..], Filled), seen[..], queue[..t])
    ensures Expanded(Cells(grid[..], Filled), old(queue[..tail]), queue[..t], c)
  {
    hide Queued, Offered, Expanded;
    ghost var ground := Cells(grid[..], Filled);
    var x, y := c % CW, c / CW;
    ghost var q0 := queue[..tail];
    var t1 := Offer(grid, seen, queue, tail, x - 1, y);
    ghost var q1 := queue[..t1];
    var t2 := Offer(grid, seen, queue, t1, x + 1, y);
    ghost var q2 := queue[..t2];
    var t3 := Offer(grid, seen, queue, t2, x, y - 1);
    ghost var q3 := queue[..t3];
    t := Offer(grid, seen, queue, t3, x, y + 1);
    FourOffers(ground, q0, q1, q2, q3, queue[..t], c);
  }

  /** `q` is what a search from `start` has queued: all of the first `d` steps, and some of the next. */
  ghost predicate Levels(ground: set<nat>, start: nat, q: seq<nat>, head: nat, mid: nat, d: nat) {
    && head <= mid <= |q|
    && (forall c: nat :: c in q[..mid] <==> Near(ground, start, c, d))
    && (forall c: nat :: c in q ==> Near(ground, start, c, d + 1))
    && Settles(ground, q, head)
    && (d > 0 ==> forall c: nat :: Near(ground, start, c, d - 1) ==> c in q[..head])
  }

  /** Everything beside the first `head` squares has been queued. */
  ghost predicate Settles(ground: set<nat>, q: seq<nat>, head: nat)
    requires head <= |q|
  {
    forall i: nat, n: nat :: i < head && n in ground && Adjacent(q[i], n) ==> n in q
  }

  lemma {:induction false} SearchStarts(ground: set<nat>, start: nat)
    requires start in ground
    ensures Levels(ground, start, [start], 0, 1, 0)
  {
    assert [start][..1] == [start];
    NearGrows(ground, start, start, 0, 1);
  }

  /** When a level is done, the whole queue is the next one. */
  lemma {:induction false} LevelDone(ground: set<nat>, start: nat, q: seq<nat>, head: nat, d: nat)
    requires Levels(ground, start, q, head, head, d)
    ensures Levels(ground, start, q, head, |q|, d + 1)
  {
    assert q[..|q|] == q;
    forall c: nat ensures c in q <==> Near(ground, start, c, d + 1) {
      if Near(ground, start, c, d + 1) && !Near(ground, start, c, d) {
        var m: nat :| Near(ground, start, m, d) && Adjacent(m, c);
        assert m in q[..head];
      }
    }
    forall c: nat | c in q ensures Near(ground, start, c, d + 2) {
      NearGrows(ground, start, c, d + 1, d + 2);
    }
  }

  lemma {:induction false} LevelGrows(ground: set<nat>, start: nat, q: seq<nat>, head: nat, mid: nat, d: nat, r: seq<nat>)
    requires Levels(ground, start, q, head, mid, d) && head < mid
    requires Expanded(ground, q, r, q[head]) && forall i :: |q| <= i < |r| ==> r[i] in ground
    ensures Levels(ground, start, r, head + 1, mid, d)
  {
    assert r[..mid] == q[..mid] && r[..head] == q[..head];
    assert q[head] in q[..mid];
    forall c: nat | c in r ensures Near(ground, start, c, d + 1) {
      if c !in q {
        assert Near(ground, start, q[head], d);
      }
    }
    assert r[..head + 1] == q[..head] + [q[head]];
    forall i: nat, n: nat | i < head + 1 && n in ground && Adjacent(r[i], n) ensures n in r {
      assert r[i] == q[i];
    }
  }

  /** The first border square met is the nearest. */
  lemma {:induction false} FoundIsNearest(grid: seq<Square>, ground: set<nat>, start: nat, q: seq<nat>, head: nat, mid: nat, d: nat)
    requires |grid| == CN && Levels(ground, start, q, head, mid, d) && head < mid
    requires BorderCell(grid, q[head]) && forall c :: c in q[..head] ==> !BorderCell(grid, c)
    ensures NearestBorder(grid, ground, start, q[head])
  {
    assert q[head] in q[..mid];
    forall b: nat, k: nat | k < d && Near(ground, start, b, k) ensures !BorderCell(grid, b) {
      NearGrows(ground, start, b, k, d - 1);
    }
  }

  lemma {:induction false} NothingFound(grid: seq<Square>, ground: set<nat>, start: nat, q: seq<nat>, mid: nat, d: nat)
    requires |grid| == CN && Levels(ground, start, q, |q|, mid, d) && start in q
    requires forall c :: c in q ==> !BorderCell(grid, c)
    ensures NoBorderFrom(grid, ground, start)
  {
    assert Closed(ground, SetOf(q)) by {
      forall a, b | a in SetOf(q) && b in ground && Adjacent(a, b) ensures b in SetOf(q) {
        var i: nat :| i < |q| && q[i] == a;
      }
    }
    forall b: nat | Joined(ground, start, b) ensures !BorderCell(grid, b) {
      JoinedStaysIn(ground, SetOf(q), start, b);
    }
  }

  function BorderNow(grid: array<Square>, i: nat): (r: bool)
    requires grid.Length == CN && i < CN
    reads grid
    ensures r <==> BorderCell(grid[..], i)
  {
    OnBorder(grid[..], i % CW, i / CW)
  }

  /** The search: the nearest border square over claimed ground, or `start` when there is none. */
  method NearestFrom(grid: array<Square>, start: nat) returns (end: nat)
    requires grid.Length == CN && start < CN && grid[start] == Filled
    ensures end < CN && Settled(grid[..], start, end)
  {
    hide Queued, Levels, NearestBorder, NoBorderFrom, BorderCell;
    ghost var ground := Cells(grid[..], Filled);
    var seen, queue, head, tail := StartSearch(grid, start);
    ghost var mid: nat, d: nat := 1, 0;
    while head < tail
      decreases CN - head
      invariant head <= mid <= tail <= CN && queue[0] == start && tail > 0
      invariant Queued(ground, seen[..], queue[..tail])
      invariant Levels(ground, start, queue[..tail], head, mid, d)
      invariant forall c :: c in queue[..tail][..head] ==> !BorderCell(grid[..], c)
    {
      if head == mid {
        LevelDone(ground, start, queue[..tail], head, d);
        mid, d := tail, d + 1;
      }
      ghost var q := queue[..tail];
      var c := queue[head];
      InQueue(ground, seen[..], q, head);
      if BorderNow(grid, c) {
        FoundIsNearest(grid[..], ground, start, q, head, mid, d);
        return c;
      }
      tail := Expand(grid, seen, queue, tail, c);
      LevelAfter(ground, start, seen[..], q, head, mid, d, queue[..tail]);
      assert queue[..tail][..head + 1] == q[..head] + [c];
      head := head + 1;
    }
    assert queue[..tail][..head] == queue[..tail];
    assert queue[..tail][0] == start;
    NothingFound(grid[..], ground, start, queue[..tail], mid, d);
    return start;
  }

  method StartSearch(grid: array<Square>, start: nat) returns (seen: array<bool>, queue: array<nat>, head: nat, tail: nat)
    requires grid.Length == CN && start < CN && grid[start] == Filled
    ensures fresh(seen) && fresh(queue) && seen.Length == CN && queue.Length == CN && head == 0 && tail == 1 && queue[0] == start
    ensures Queued(Cells(grid[..], Filled), seen[..], queue[..1])
    ensures Levels(Cells(grid[..], Filled), start, queue[..1], 0, 1, 0)
  {
    seen := new bool[CN](i => false);
    queue := new nat[CN](i => 0);
    head, tail := 0, 1;
    queue[0] := start;
    seen[start] := true;
    assert queue[..1] == [start];
    SearchStarts(Cells(grid[..], Filled), start);
  }

  lemma InQueue(ground: set<nat>, seen: seq<bool>, q: seq<nat>, i: nat)
    requires Queued(ground, seen, q) && i < |q|
    ensures q[i] in ground && q[i] < CN
  {
  }

  lemma LevelAfter(ground: set<nat>, start: nat, seen: seq<bool>, q: seq<nat>, head: nat, mid: nat, d: nat, r: seq<nat>)
    requires Queued(ground, seen, r) && Levels(ground, start, q, head, mid, d) && head < mid && head < |q|
    requires Expanded(ground, q, r, q[head])
    ensures Levels(ground, start, r, head + 1, mid, d)
  {
    LevelGrows(ground, start, q, head, mid, d, r);
  }
}
