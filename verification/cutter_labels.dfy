/**
 Numbering the black pieces of a cut grid by flooding, and choosing which of them to keep.
 */
module CutterLabels {
  import opened CutterGrid
  import opened CutterModel
  import opened CutterSafety
  import opened CutterSearch
  import opened Sets

  // ---------------------------------------------------------------------------
  // One flood
  // ---------------------------------------------------------------------------

  /** `now` is `was` with the queued squares, black and unnumbered before, numbered `id`. */
  ghost predicate Painting(black: set<nat>, was: seq<nat>, now: seq<nat>, id: nat, q: seq<nat>) {
    && |was| == |now| == CN && Distinct(q)
    && (forall i :: 0 <= i < |q| ==> q[i] in black && q[i] < CN && was[q[i]] == 0)
    && (forall c: nat :: c < CN ==> now[c] == if c in q then id else was[c])
  }

  /** `r` is `q` with square `n` queued, if it is black, unnumbered and was not queued yet. */
  ghost predicate Visited(black: set<nat>, was: seq<nat>, q: seq<nat>, r: seq<nat>, n: int)
    requires |was| == CN
  {
    && q <= r
    && (0 <= n && n in black && n < CN && was[n] == 0 ==> n in r)
    && (forall i :: |q| <= i < |r| ==> r[i] == n)
  }

  /** `visit` */
  method Visit(grid: array<Square>, labels: array<nat>, queue: array<nat>, tail: nat, nx: nat, ny: nat, id: nat, ghost was: seq<nat>)
    returns (t: nat)
    requires grid.Length == CN && labels.Length == CN && queue.Length == CN && labels != queue && tail <= CN
    requires nx < CW && ny < CH && id > 0
    requires Painting(Cells(grid[..], Black), was, labels[..], id, queue[..tail])
    modifies labels, queue
    ensures tail <= t <= CN
    ensures Painting(Cells(grid[..], Black), was, labels[..], id, queue[..t])
    ensures Visited(Cells(grid[..], Black), was, old(queue[..tail]), queue[..t], At(nx, ny))
  {
    t := tail;
    var n := At(nx, ny);
    if grid[n] == Black && labels[n] == 0 {
      QueueHasRoom(queue[..tail], n);
      labels[n] := id;
      queue[tail] := n;
      t := tail + 1;
      assert queue[..t] == old(queue[..tail]) + [n];
    }
  }

  /** `r` is `q` with the black unnumbered neighbours of `c` queued. */
  ghost predicate Spread(black: set<nat>, was: seq<nat>, q: seq<nat>, r: seq<nat>, c: nat)
    requires |was| == CN
  {
    && q <= r
    && (forall n :: n in black && n < CN && was[n] == 0 && Adjacent(c, n) ==> n in r)
    && (forall i :: |q| <= i < |r| ==> Adjacent(c, r[i]))
  }

  /** Each visit made where there is a neighbour, nothing done where there is none. */
  ghost predicate VisitedIf(there: bool, black: set<nat>, was: seq<nat>, q: seq<nat>, r: seq<nat>, n: int)
    requires |was| == CN
  {
    if there then Visited(black, was, q, r, n) else r == q
  }

  lemma FourVisits(black: set<nat>, was: seq<nat>, q0: seq<nat>, q1: seq<nat>, q2: seq<nat>, q3: seq<nat>, q4: seq<nat>, c: nat)
    requires c < CN && |was| == CN
    requires VisitedIf(X(c) > 0, black, was, q0, q1, c - 1) && VisitedIf(X(c) + 1 < CW, black, was, q1, q2, c + 1)
    requires VisitedIf(Y(c) > 0, black, was, q2, q3, c - CW) && VisitedIf(Y(c) + 1 < CH, black, was, q3, q4, c + CW)
    ensures Spread(black, was, q0, q4, c)
  {
    assert q1 <= q4 && q2 <= q4 && q3 <= q4;
    forall n | n in black && n < CN && was[n] == 0 && Adjacent(c, n) ensures n in q4 {
      FourNeighbours(c, n);
    }
    forall i | |q0| <= i < |q4| ensures Adjacent(c, q4[i]) {
      if i < |q1| {
        assert q4[i] == q1[i];
      } else if i < |q2| {
        assert q4[i] == q2[i];
      } else if i < |q3| {
        assert q4[i] == q3[i];
      }
    }
  }

  /** Visit a neighbour, where there is one. */
  method VisitIf(there: bool, grid: array<Square>, labels: array<nat>, queue: array<nat>, tail: nat, nx: int, ny: int, id: nat,
                 ghost was: seq<nat>)
    returns (t: nat)
    requires grid.Length == CN && labels.Length == CN && queue.Length == CN && labels != queue && tail <= CN && id > 0
    requires there ==> InRange(nx, ny)
    requires Painting(Cells(grid[..], Black), was, labels[..], id, queue[..tail])
    modifies labels, queue
    ensures tail <= t <= CN
    ensures Painting(Cells(grid[..], Black), was, labels[..], id, queue[..t])
    ensures VisitedIf(there, Cells(grid[..], Black), was, old(queue[..tail]), queue[..t], ny * CW + nx)
  {
    hide Painting, Visited;
    t := tail;
    if there {
      t := Visit(grid, labels, queue, tail, nx, ny, id, was);
    }
  }

  /** Visit the neighbours of `c`. */
  method VisitAround(grid: array<Square>, labels: array<nat>, queue: array<nat>, tail: nat, c: nat, id: nat, ghost was: seq<nat>)
    returns (t: nat)
    requires grid.Length == CN && labels.Length == CN && queue.Length == CN && labels != queue && tail <= CN
    requires c < CN && id > 0 && |was| == CN
    requires Painting(Cells(grid[..], Black), was, labels[..], id, queue[..tail])
    modifies labels, queue
    ensures tail <= t <= CN
    ensures Painting(Cells(grid[..], Black), was, labels[..], id, queue[..t])
    ensures Spread(Cells(grid[..], Black), was, old(queue[..tail]), queue[..t], c)
  {
    hide Painting, VisitedIf, Spread;
    ghost var black := Cells(grid[..], Black);
    t := tail;
    var cx, cy := c % CW, c / CW;
    ghost var q0 := queue[..t];
    t := VisitIf(cx > 0, grid, labels, queue, t, cx - 1, cy, id, was);
    ghost var q1 := queue[..t];
    t := VisitIf(cx + 1 < CW, grid, labels, queue, t, cx + 1, cy, id, was);
    ghost var q2 := queue[..t];
    t := VisitIf(cy > 0, grid, labels, queue, t, cx, cy - 1, id, was);
    ghost var q3 := queue[..t];
    t := VisitIf(cy + 1 < CH, grid, labels, queue, t, cx, cy + 1, id, was);
    FourVisits(black, was, q0, q1, q2, q3, queue[..t], c);
  }

  /** The queue holds part of `start`'s piece, and everything beside its first `head` squares. */
  ghost predicate Flooding(black: set<nat>, start: nat, q: seq<nat>, head: nat) {
    && head <= |q| && start in q
    && (forall c :: c in q ==> Joined(black, start, c))
    && Settles(black, q, head)
  }

  /** None of `start`'s piece has a number yet. */
  ghost predicate Unnumbered(black: set<nat>, start: nat, labels: seq<nat>) {
    |labels| == CN && forall c: nat :: c < CN && Joined(black, start, c) ==> labels[c] == 0
  }

  lemma FloodGrows(black: set<nat>, start: nat, was: seq<nat>, q: seq<nat>, head: nat, r: seq<nat>)
    requires |was| == CN && Flooding(black, start, q, head) && head < |q| && Spread(black, was, q, r, q[head])
    requires forall c :: c in black ==> c < CN
    requires forall c :: c in r ==> c in black
    requires Unnumbered(black, start, was)
    ensures Flooding(black, start, r, head + 1)
  {
    assert q[head] in q;
    forall c | c in r ensures Joined(black, start, c) {
      if c !in q {
        OneStep(black, q[head], c);
        JoinedThenJoined(black, start, q[head], c);
      }
    }
    forall i: nat, n: nat | i < head + 1 && n in black && Adjacent(r[i], n) ensures n in r {
      assert r[i] == q[i];
      assert q[i] in q;
      OneStep(black, q[i], n);
      JoinedThenJoined(black, start, q[i], n);
    }
  }

  lemma FloodIsPiece(black: set<nat>, start: nat, q: seq<nat>)
    requires Flooding(black, start, q, |q|) && Distinct(q)
    ensures SetOf(q) == Piece(black, start) && |q| == |Piece(black, start)|
  {
    DistinctSize(q);
    assert Closed(black, SetOf(q)) by {
      forall a, b | a in SetOf(q) && b in black && Adjacent(a, b) ensures b in SetOf(q) {
        var i: nat :| i < |q| && q[i] == a;
      }
    }
    forall c | c in Piece(black, start) ensures c in q {
      JoinedStaysIn(black, SetOf(q), start, c);
    }
    forall c | c in q ensures c in Piece(black, start) {
      JoinedOnGround(black, start, c);
    }
  }

  /** `now` is `was` with the piece of `start` numbered `id`. */
  ghost predicate Numbered(black: set<nat>, was: seq<nat>, now: seq<nat>, start: nat, id: nat) {
    |was| == |now| == CN && forall c: nat :: c < CN ==> now[c] == if Joined(black, start, c) then id else was[c]
  }

  lemma PaintedIsNumbered(black: set<nat>, was: seq<nat>, now: seq<nat>, start: nat, id: nat, q: seq<nat>)
    requires Painting(black, was, now, id, q) && SetOf(q) == Piece(black, start)
    ensures Numbered(black, was, now, start, id)
  {
    forall c: nat | c < CN ensures c in q <==> Joined(black, start, c) {
      if Joined(black, start, c) {
        JoinedOnGround(black, start, c);
        assert c in Piece(black, start);
      }
      if c in q {
        assert c in SetOf(q);
      }
    }
  }

  /** Number the piece of `start`, and count its squares. */
  method Flood(grid: array<Square>, labels: array<nat>, queue: array<nat>, start: nat, id: nat) returns (cells: nat)
    requires grid.Length == CN && labels.Length == CN && queue.Length == CN && labels != queue && id > 0
    requires start < CN && grid[start] == Black
    requires Unnumbered(Cells(grid[..], Black), start, labels[..])
    modifies labels, queue
    ensures Numbered(Cells(grid[..], Black), old(labels[..]), labels[..], start, id)
    ensures cells == |Piece(Cells(grid[..], Black), start)|
  {
    hide Painting, Flooding, Spread, Piece, Numbered, Unnumbered;
    ghost var black, was := Cells(grid[..], Black), labels[..];
    ghost var piece := Piece(black, start);
    var head, tail := FloodStart(grid, labels, queue, start, id);
    cells := 0;
    while head < tail
      decreases CN - head
      invariant cells == head <= tail <= CN
      invariant Painting(black, was, labels[..], id, queue[..tail])
      invariant Flooding(black, start, queue[..tail], head)
    {
      ghost var q := queue[..tail];
      var ci := queue[head];
      head := head + 1;
      cells := cells + 1;
      OnBlackGround(black, was, labels[..], id, q);
      assert ci == q[head - 1];
      tail := VisitAround(grid, labels, queue, tail, ci, id, was);
      OnBlackGround(black, was, labels[..], id, queue[..tail]);
      FloodGrows(black, start, was, q, head - 1, queue[..tail]);
    }
    OnBlackGround(black, was, labels[..], id, queue[..tail]);
    FloodIsPiece(black, start, queue[..tail]);
    PaintedIsNumbered(black, was, labels[..], start, id, queue[..tail]);
  }

  lemma OnBlackGround(black: set<nat>, was: seq<nat>, now: seq<nat>, id: nat, q: seq<nat>)
    requires Painting(black, was, now, id, q)
    ensures Distinct(q)
    ensures forall i :: 0 <= i < |q| ==> q[i] < CN
    ensures forall c :: c in q ==> c in black
  {
  }

  method FloodStart(grid: array<Square>, labels: array<nat>, queue: array<nat>, start: nat, id: nat) returns (head: nat, tail: nat)
    requires grid.Length == CN && labels.Length == CN && queue.Length == CN && labels != queue && id > 0
    requires start < CN && grid[start] == Black && Unnumbered(Cells(grid[..], Black), start, labels[..])
    modifies labels, queue
    ensures head == 0 && tail == 1
    ensures Painting(Cells(grid[..], Black), old(labels[..]), labels[..], id, queue[..1])
    ensures Flooding(Cells(grid[..], Black), start, queue[..1], 0)
  {
    JoinedSelf(Cells(grid[..], Black), start);
    head, tail := 0, 0;
    queue[tail] := start;
    tail := tail + 1;
    labels[start] := id;
    assert queue[..1] == [start];
  }

  // ---------------------------------------------------------------------------
  // All the pieces
  // ---------------------------------------------------------------------------

  /** The pieces met before square `upTo` are numbered. */
  ghost predicate LabelledTo(black: set<nat>, labels: seq<nat>, firsts: seq<nat>, upTo: nat) {
    && Labelled(black, labels, firsts)
    && (forall k: nat :: k < |firsts| ==> Least(black, firsts[k]) && firsts[k] < upTo)
    && (forall j: nat, k: nat :: j < k < |firsts| ==> firsts[j] < firsts[k])
    && (forall c: nat :: c in black && c < upTo ==> c < CN && labels[c] != 0)
  }

  lemma NextIsLeast(black: set<nat>, labels: seq<nat>, firsts: seq<nat>, start: nat)
    requires LabelledTo(black, labels, firsts, start) && start in black && start < CN && labels[start] == 0
    requires forall c :: c in black ==> c < CN
    ensures Least(black, start)
    ensures Unnumbered(black, start, labels)
  {
    forall c: nat | Joined(black, start, c) ensures start <= c && c < CN && labels[c] == 0 {
      JoinedOnGround(black, start, c);
      LabelsAgree(black, labels, firsts, start, c);
    }
  }

  lemma NextLabelled(black: set<nat>, was: seq<nat>, firsts: seq<nat>, start: nat, now: seq<nat>)
    requires LabelledTo(black, was, firsts, start) && start in black && start < CN && was[start] == 0
    requires forall c :: c in black ==> c < CN
    requires Numbered(black, was, now, start, |firsts| + 1)
    ensures LabelledTo(black, now, firsts + [start], start + 1)
  {
    NextIsLeast(black, was, firsts, start);
    JoinedSelf(black, start);
    var all := firsts + [start];
    forall c: nat, k: nat | c < CN && k < |all| ensures now[c] == k + 1 <==> Joined(black, all[k], c) {
      if Joined(black, start, c) {
        JoinedOnGround(black, start, c);
        assert c in Piece(black, start);
      }
    }
  }

  /** Number the pieces in the order they are met, as many as there are numbers for, and count their squares. */
  method LabelPieces(grid: array<Square>, labels: array<nat>, compCells: array<nat>) returns (n: nat, ghost firsts: seq<nat>)
    requires grid.Length == CN && labels.Length == CN && compCells.Length == MAX_COMP && labels != compCells
    requires forall c: nat :: c < CN ==> labels[c] == 0
    modifies labels, compCells
    ensures n == |firsts| && Labelled(Cells(grid[..], Black), labels[..], firsts)
    ensures InOrder(Cells(grid[..], Black), labels[..], firsts)
    ensures forall k: nat :: k < n ==> compCells[k] == |Piece(Cells(grid[..], Black), firsts[k])|
  {
    hide Labelled, LabelledTo, Piece, Least, Unnumbered, InOrder;
    ghost var black := Cells(grid[..], Black);
    var queue := new nat[CN](i => 0);
    n, firsts := 0, [];
    NothingLabelled(black, labels[..]);
    for start: nat := 0 to CN
      invariant n == |firsts| <= MAX_COMP
      invariant LabelledTo(black, labels[..], firsts, start)
      invariant forall k: nat :: k < n ==> compCells[k] == |Piece(black, firsts[k])|
    {
      if grid[start] != Black || labels[start] != 0 {
        SkipLabelled(black, labels[..], firsts, start);
        continue;
      }
      if n >= MAX_COMP {
        FullIsInOrder(black, labels[..], firsts, start);
        return;
      }
      ghost var was := labels[..];
      n := n + 1;
      NextIsLeast(black, was, firsts, start);
      var cells := Flood(grid, labels, queue, start, n);
      compCells[n - 1] := cells;
      NextLabelled(black, was, firsts, start, labels[..]);
      firsts := firsts + [start];
    }
    AllIsInOrder(black, labels[..], firsts);
  }

  lemma NothingLabelled(black: set<nat>, labels: seq<nat>)
    requires |labels| == CN && forall c: nat :: c < CN ==> labels[c] == 0
    ensures LabelledTo(black, labels, [], 0)
  {
  }

  lemma SkipLabelled(black: set<nat>, labels: seq<nat>, firsts: seq<nat>, start: nat)
    requires LabelledTo(black, labels, firsts, start) && start < CN && (start !in black || labels[start] != 0)
    ensures LabelledTo(black, labels, firsts, start + 1)
  {
  }

  lemma FullIsInOrder(black: set<nat>, labels: seq<nat>, firsts: seq<nat>, start: nat)
    requires LabelledTo(black, labels, firsts, start) && |firsts| == MAX_COMP
    ensures Labelled(black, labels, firsts) && InOrder(black, labels, firsts)
  {
  }

  lemma AllIsInOrder(black: set<nat>, labels: seq<nat>, firsts: seq<nat>)
    requires LabelledTo(black, labels, firsts, CN) && |firsts| <= MAX_COMP
    ensures Labelled(black, labels, firsts) && InOrder(black, labels, firsts)
  {
  }

  // ---------------------------------------------------------------------------
  // The winner
  // ---------------------------------------------------------------------------

  /** How many enemies stand on each piece. */
  method CountEnemies(labels: array<nat>, enemies: seq<Mover>, n: nat) returns (compEnemy: array<nat>)
    requires labels.Length == CN && OnGrid(enemies) && n <= MAX_COMP
    ensures fresh(compEnemy) && compEnemy.Length == MAX_COMP
    ensures forall k: nat :: k < MAX_COMP ==> compEnemy[k] == Standing(labels[..], enemies, k + 1)
  {
    compEnemy := new nat[MAX_COMP](i => 0);
    for i := 0 to |enemies|
      invariant forall k: nat :: k < MAX_COMP ==> compEnemy[k] == Standing(labels[..], enemies[..i], k + 1)
    {
      var e := enemies[i];
      assert e in enemies;
      assert enemies[..i + 1][..i] == enemies[..i];
      var l := labels[At(e.x, e.y)];
      if l != 0 && l <= MAX_COMP {
        compEnemy[l - 1] := compEnemy[l - 1] + 1;
      }
    }
    assert enemies[..|enemies|] == enemies;
  }

  /** The first piece no other beats. */
  method PickWinner(compEnemy: array<nat>, compCells: array<nat>, n: nat) returns (winner: nat)
    requires compEnemy.Length == compCells.Length == MAX_COMP && n <= MAX_COMP
    requires forall k: nat :: k < n ==> compCells[k] > 0
    ensures if n == 0 then winner == 0 else 1 <= winner <= n
    ensures forall k: nat :: k < n ==> !Beats((compEnemy[k], compCells[k]), (compEnemy[winner - 1], compCells[winner - 1]))
    ensures forall k: nat :: k + 1 < winner ==> Beats((compEnemy[winner - 1], compCells[winner - 1]), (compEnemy[k], compCells[k]))
  {
    winner := 0;
    var best := (0, 0);
    for i := 0 to n
      invariant winner <= i && (i > 0 ==> winner > 0)
      invariant best == if winner == 0 then (0, 0) else (compEnemy[winner - 1], compCells[winner - 1])
      invariant forall k: nat :: k < i ==> !Beats((compEnemy[k], compCells[k]), best)
      invariant forall k: nat :: k + 1 < winner ==> Beats(best, (compEnemy[k], compCells[k]))
    {
      var key := (compEnemy[i], compCells[i]);
      if key.0 > best.0 || (key.0 == best.0 && key.1 > best.1) {
        best := key;
        winner := i + 1;
      }
    }
  }
}
