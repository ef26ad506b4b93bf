/**
 What holds in every state of every run of Block Cutter, and what a cut leaves.
 */
module CutterSafety {
  import opened CutterGrid
  import opened CutterModel
  import opened Sets

  // ---------------------------------------------------------------------------
  // The invariant
  // ---------------------------------------------------------------------------

  /** The claimed ground is in one piece, and so is the claimed ground with the line. */
  ghost predicate OnePiece(grid: seq<Square>) {
    Connected(Cells(grid, Filled)) && Connected(Cells(grid, Filled) + Cells(grid, Trail))
  }

  ghost predicate OnBlack(grid: seq<Square>, e: Mover) {
    e.x < CW && e.y < CH && |grid| == CN && grid[At(e.x, e.y)] == Black && Bouncing(e)
  }

  ghost predicate EnemiesOnBlack(grid: seq<Square>, enemies: seq<Mover>) {
    forall e :: e in enemies ==> OnBlack(grid, e)
  }

  ghost predicate Orthogonal(dx: int, dy: int) {
    (dx == 0 && -1 <= dy <= 1) || (dy == 0 && -1 <= dx <= 1)
  }

  /** Drawing, the player is on the line; otherwise there is no line, and the player is on the border. */
  ghost predicate Footing(grid: seq<Square>, px: nat, py: nat, trailing: bool)
    requires |grid| == CN && px < CW && py < CH
  {
    if trailing then grid[At(px, py)] == Trail
    else Cells(grid, Trail) == {} && grid[At(px, py)] == Filled && (Cells(grid, Black) != {} ==> OnBorder(grid, px, py))
  }

  ghost predicate Inv(g: Game) {
    && g.Shaped() && Walled(g.grid) && OnePiece(g.grid)
    && EnemiesOnBlack(g.grid, g.enemies) && |g.enemies| <= MAX_ENEMIES
    && Orthogonal(g.dx, g.dy)
    && Footing(g.grid, g.px, g.py, g.trailing)
  }

  // ---------------------------------------------------------------------------
  // The start
  // ---------------------------------------------------------------------------

  /** From any square of the edge the corner can be reached along the edge. */
  lemma {:induction false} EdgeReachesCorner(edge: set<nat>, i: nat)
    requires forall c: nat :: c in edge <==> c < CN && OnEdge(c)
    requires i in edge
    ensures Attached(edge, {0}, i)
    decreases X(i) + Y(i)
  {
    InGrid(i);
    InGrid(0);
    if i == 0 {
      assert 0 in edge;
      AttachedSelf(edge, {0}, 0);
    } else {
      var x, y := X(i), Y(i);
      var j := if (y == 0 || y == CH - 1) && x > 0 then At(x - 1, y) else At(x, y - 1);
      assert j in edge && Adjacent(j, i) && Adjacent(i, j);
      EdgeReachesCorner(edge, j);
      AttachedNext(edge, {0}, i, j);
    }
  }

  lemma {:induction false} EdgeIsOnePiece(edge: set<nat>)
    requires forall c: nat :: c in edge <==> c < CN && OnEdge(c)
    ensures Connected(edge)
  {
    assert Connected({0}) by {
      JoinedSelf({0}, 0);
    }
    InGrid(0);
    assert 0 in edge;
    forall c | c in edge ensures Attached(edge, {0}, c) {
      EdgeReachesCorner(edge, c);
    }
    ConnectedGrows({0}, edge);
  }

  lemma {:induction false} NewLevelIsSafe(g: Game, h: Game)
    requires NewLevel(g, h)
    ensures Inv(h)
  {
    var edge := Cells(h.grid, Filled);
    forall c: nat ensures c in edge <==> c < CN && OnEdge(c) {}
    EdgeIsOnePiece(edge);
    assert Cells(h.grid, Trail) == {};
    assert edge + {} == edge;
    forall e | e in h.enemies ensures OnBlack(h.grid, e) {
      InGrid(At(e.x, e.y));
    }
    InGrid(At(CW / 2, 0));
    var below := At(CW / 2, 1);
    assert Cell(h.grid, CW / 2, 1) == Black;
    assert BlackInRow(h.grid, CW / 2, 1);
  }

  // ---------------------------------------------------------------------------
  // Moving to the border
  // ---------------------------------------------------------------------------

  lemma {:induction false} BorderReachable(grid: seq<Square>, start: nat) returns (f: nat)
    requires Walled(grid) && Connected(Cells(grid, Filled)) && Cells(grid, Trail) == {}
    requires start < CN && grid[start] == Filled && Cells(grid, Black) != {}
    ensures Joined(Cells(grid, Filled), start, f) && BorderCell(grid, f)
  {
    var i :| i in Cells(grid, Black);
    f := BlackHasBorder(grid, i);
  }

  /** Once the line is gone, the nearest border square is found whenever any black is left. */
  lemma {:induction false} BorderIsFound(g: Game, h: Game)
    requires g.Shaped() && Walled(g.grid) && OnePiece(g.grid) && Cells(g.grid, Trail) == {}
    requires g.grid[g.Player()] == Filled && MovedToBorder(g, h)
    ensures h.grid[h.Player()] == Filled
    ensures Cells(g.grid, Black) != {} ==> OnBorder(g.grid, h.px, h.py)
    ensures Cells(g.grid, Black) != {} ==> NearestBorder(g.grid, Cells(g.grid, Filled), g.Player(), h.Player())
  {
    var ground, start, end := Cells(g.grid, Filled), g.Player(), h.Player();
    InGrid(end);
    if NearestBorder(g.grid, ground, start, end) {
      var d: nat :| Near(ground, start, end, d);
      NearOnGround(ground, start, end, d);
    } else if Cells(g.grid, Black) != {} {
      var f := BorderReachable(g.grid, start);
      assert false;
    }
  }

  lemma {:induction false} MoveKeepsInv(g: Game, h: Game)
    requires g.Shaped() && Walled(g.grid) && OnePiece(g.grid) && Cells(g.grid, Trail) == {}
    requires EnemiesOnBlack(g.grid, g.enemies) && |g.enemies| <= MAX_ENEMIES && Orthogonal(g.dx, g.dy) && !g.trailing
    requires g.grid[g.Player()] == Filled && MovedToBorder(g, h)
    ensures Inv(h)
  {
    BorderIsFound(g, h);
  }

  // ---------------------------------------------------------------------------
  // Closing a cut
  // ---------------------------------------------------------------------------

  /** What is captured: the labelled black that did not win. */
  ghost predicate Captured(black: set<nat>, labels: seq<nat>, winner: nat, i: nat)
    requires |labels| == CN
  {
    i in black && i < CN && labels[i] != 0 && labels[i] != winner
  }

  lemma LabelsAgree(black: set<nat>, labels: seq<nat>, firsts: seq<nat>, a: nat, b: nat)
    requires Labelled(black, labels, firsts) && a < CN && b < CN && Joined(black, a, b)
    ensures labels[a] == labels[b]
  {
    JoinedBack(black, a, b);
    if labels[a] > 0 {
      JoinedThenJoined(black, firsts[labels[a] - 1], a, b);
    }
    if labels[b] > 0 {
      JoinedThenJoined(black, firsts[labels[b] - 1], b, a);
    }
  }

  /** Going left from captured ground, ground that was claimed before is met. */
  lemma {:induction false} CapturedIsAttached(grid: seq<Square>, labels: seq<nat>, firsts: seq<nat>, winner: nat,
                                              was: set<nat>, now: set<nat>, i: nat)
    requires Walled(grid) && Labelled(Cells(grid, Black), labels, firsts)
    requires was == Cells(grid, Filled) + Cells(grid, Trail)
    requires forall c: nat :: c in now <==> c in was || Captured(Cells(grid, Black), labels, winner, c)
    requires Captured(Cells(grid, Black), labels, winner, i)
    ensures Attached(now, was, i)
    decreases X(i)
  {
    var black := Cells(grid, Black);
    InGrid(i);
    assert !OnEdge(i);
    var l: nat := i - 1;
    assert X(l) == X(i) - 1 && Adjacent(i, l);
    if grid[l] == Black {
      OneStep(black, i, l);
      LabelsAgree(black, labels, firsts, i, l);
      CapturedIsAttached(grid, labels, firsts, winner, was, now, l);
    } else {
      assert l in was;
      AttachedSelf(now, was, l);
    }
    AttachedNext(now, was, i, l);
  }

  /** A cut leaves the claimed ground in one piece and the enemies on black. */
  lemma {:induction false} CutKeepsGround(g: Game, h: Game)
    requires g.Shaped() && Walled(g.grid) && OnePiece(g.grid) && EnemiesOnBlack(g.grid, g.enemies)
    requires CutClosed(g, h)
    ensures Walled(h.grid) && OnePiece(h.grid) && Cells(h.grid, Trail) == {}
    ensures EnemiesOnBlack(h.grid, h.enemies) && |h.enemies| <= |g.enemies|
  {
    var labels: seq<nat>, firsts: seq<nat>, winner: nat :| CutAs(g, h, labels, firsts, winner);
    var black, was, now := Cells(g.grid, Black), Cells(g.grid, Filled) + Cells(g.grid, Trail), Cells(h.grid, Filled);
    forall c: nat ensures c in now <==> c in was || Captured(black, labels, winner, c) {}
    forall c | c in now ensures Attached(now, was, c) {
      if c in was {
        AttachedSelf(now, was, c);
      } else {
        CapturedIsAttached(g.grid, labels, firsts, winner, was, now, c);
      }
    }
    ConnectedGrows(was, now);
    assert Cells(h.grid, Trail) == {};
    assert now + {} == now;
    forall e | e in h.enemies ensures OnBlack(h.grid, e) {
      assert OnBlack(g.grid, e);
      assert LabelAt(labels, e) == winner;
    }
  }

  // ---------------------------------------------------------------------------
  // Every operation keeps the invariant
  // ---------------------------------------------------------------------------

  lemma {:induction false} RespawnKeepsInv(g: Game, h: Game)
    requires Inv(g) && Respawned(g, h)
    ensures Inv(h)
  {
    var m: Game :| TrailDropped(g, m) && MovedToBorder(m, h);
    assert Cells(m.grid, Trail) == {};
    assert Cells(m.grid, Filled) == Cells(g.grid, Filled);
    assert Cells(m.grid, Filled) + {} == Cells(m.grid, Filled);
    forall e | e in m.enemies ensures OnBlack(m.grid, e) {
      assert OnBlack(g.grid, e);
    }
    InGrid(At(CW / 2, 0));
    MoveKeepsInv(m, h);
  }

  /** Drawing one more square of line. */
  lemma {:induction false} DrawKeepsInv(g: Game, x: nat, y: nat, h: Game)
    requires Inv(g) && x < CW && y < CH && g.grid[At(x, y)] == Black && Adjacent(g.Player(), At(x, y))
    requires !EnemyAt(g.enemies, x, y)
    requires h == g.(px := x, py := y, grid := g.grid[At(x, y) := Trail], trailing := true)
    ensures Inv(h)
  {
    var i := At(x, y);
    var claimed := Cells(g.grid, Filled) + Cells(g.grid, Trail);
    assert Cells(h.grid, Filled) == Cells(g.grid, Filled);
    assert Cells(h.grid, Filled) + Cells(h.grid, Trail) == claimed + {i};
    assert g.Player() in claimed;
    ConnectedPlusOne(claimed, g.Player(), i);
    forall e | e in h.enemies ensures OnBlack(h.grid, e) {
      assert OnBlack(g.grid, e);
      InGrid(i);
      assert At(e.x, e.y) != i;
    }
  }

  lemma NextTo(px: nat, py: nat, x: nat, y: nat, dx: int, dy: int)
    requires px < CW && py < CH && x < CW && y < CH && x == px + dx && y == py + dy
    requires Orthogonal(dx, dy) && (dx != 0 || dy != 0)
    ensures Adjacent(At(px, py), At(x, y))
  {
  }

  lemma {:induction false} CloseKeepsInv(g: Game, x: nat, y: nat, m: Game, h: Game)
    requires Inv(g) && x < CW && y < CH && g.grid[At(x, y)] == Filled
    requires CutClosed(g.(px := x, py := y, trailing := false), m) && m.Shaped() && MovedToBorder(m, h)
    ensures Inv(h)
  {
    CutKeepsGround(g.(px := x, py := y, trailing := false), m);
    ClaimedStays(g.(px := x, py := y, trailing := false), m, At(x, y));
    MoveKeepsInv(m, h);
  }

  lemma ClaimedStays(g: Game, m: Game, i: nat)
    requires g.Shaped() && OnGrid(g.enemies) && CutClosed(g, m) && i < CN && g.grid[i] == Filled
    ensures |m.grid| == CN && m.grid[i] == Filled
    ensures m == g.(grid := m.grid, enemies := m.enemies)
  {
  }

  lemma {:induction false} PlayerStepKeepsInv(g: Game, h: Game)
    requires Inv(g) && PlayerStepped(g, h)
    ensures Inv(h)
  {
    var (x, y) := Ahead(g);
    if (g.dx != 0 || g.dy != 0) && 0 <= x < CW && 0 <= y < CH && !EnemyAt(g.enemies, x, y) {
      var target := g.grid[At(x, y)];
      NextTo(g.px, g.py, x, y, g.dx, g.dy);
      if target == Black {
        DrawKeepsInv(g, x, y, h);
      } else if g.trailing && target == Filled {
        var m: Game :| CutClosed(g.(px := x, py := y, trailing := false), m) && m.Shaped() && MovedToBorder(m, h);
        CloseKeepsInv(g, x, y, m, h);
      }
    }
  }

  lemma BouncedStaysOnBlack(grid: seq<Square>, e: Mover)
    requires Walled(grid) && OnBlack(grid, e)
    ensures Bounced(grid, e).x >= 0 && Bounced(grid, e).y >= 0 && OnBlack(grid, Bounced(grid, e))
  {
  }

  lemma {:induction false} EnemyStepKeepsInv(g: Game, h: Game)
    requires Inv(g) && EnemiesStepped(g, h)
    ensures Inv(h)
  {
    var n: nat :| EnemiesSteppedTo(g, h, n);
    forall i: nat | i < |h.enemies| ensures OnBlack(h.grid, h.enemies[i]) {
      assert OnBlack(g.grid, g.enemies[i]);
      BouncedStaysOnBlack(g.grid, g.enemies[i]);
    }
  }

  /** An enemy is never where the player is drawing: only the line itself is ever breached. */
  lemma {:induction false} OnlyTheLineIsBreached(g: Game, h: Game)
    requires Inv(g) && EnemiesStepped(g, h) && h.dead && !g.dead
    ensures exists i: nat :: i < |g.enemies| && Breaches(g.grid, g.enemies[i])
  {
    EnemyStepKeepsInv(g, h);
    forall i: nat | i < |h.enemies| ensures !Caught(h, h.enemies[i]) {
      assert OnBlack(h.grid, h.enemies[i]);
    }
  }

  /** A step of the enemies, square by square: how far it got, and where each of them is now. */
  lemma {:induction false} SteppedIsSwept(g: Game, h: Game) returns (n: nat)
    requires Inv(g) && EnemiesStepped(g, h)
    ensures Swept(g, h, n)
  {
    hide Breaches, Bounced, TouchesLine, Moved;
    n :| EnemiesSteppedTo(g, h, n) && (
      || (n == |g.enemies| && h.dead == g.dead)
      || (n < |g.enemies| && Breaches(g.grid, g.enemies[n]) && h.dead)
      || (0 < n && Caught(h, h.enemies[n - 1]) && h.dead));
    EnemyStepKeepsInv(g, h);
    forall i: nat | i < |g.enemies| ensures !Caught(h, h.enemies[i]) {
      assert OnBlack(h.grid, h.enemies[i]);
    }
    forall i: nat | i < |g.enemies|
      ensures Breaches(g.grid, g.enemies[i]) <==> TouchesLine(g.grid, g.enemies[i])
      ensures Moved(g.grid, g.enemies[i], Bounced(g.grid, g.enemies[i]))
    {
      assert OnBlack(g.grid, g.enemies[i]);
      BreachesIff(g.grid, g.enemies[i]);
      BouncedMoves(g.grid, g.enemies[i]);
    }
  }

  // ---------------------------------------------------------------------------
  // Runs
  // ---------------------------------------------------------------------------

  datatype Op = Turn | PlayerStep | EnemyStep | Respawn | Level

  ghost predicate Step(op: Op, g: Game, h: Game) {
    && g.Shaped() && OnGrid(g.enemies)
    && match op
       case Turn => Turned(g, h)
       case PlayerStep => PlayerStepped(g, h)
       case EnemyStep => EnemiesStepped(g, h)
       case Respawn => Respawned(g.(dead := false), h)
       case Level => exists level: nat :: NewLevel(g.(level := level), h)
  }

  lemma {:induction false} StepKeepsInv(op: Op, g: Game, h: Game)
    requires Inv(g) && Step(op, g, h)
    ensures Inv(h)
  {
    hide PlayerStepped, EnemiesStepped, Respawned, NewLevel;
    match op
    case Turn =>
    case PlayerStep => PlayerStepKeepsInv(g, h);
    case EnemyStep => EnemyStepKeepsInv(g, h);
    case Respawn => RespawnKeepsInv(g.(dead := false), h);
    case Level =>
      var level: nat :| NewLevel(g.(level := level), h);
      NewLevelIsSafe(g.(level := level), h);
  }

  /** A run: a first level, and then any operations in any order. */
  ghost predicate Run(games: seq<Game>, ops: seq<Op>) {
    && |games| == |ops| + 1
    && (exists g: Game :: NewLevel(g, games[0]))
    && forall k :: 0 <= k < |ops| ==> Step(ops[k], games[k], games[k + 1])
  }

  /** In every state of every run the claimed ground is in one piece, and everyone stands where they may. */
  lemma {:induction false} RunsAreSafe(games: seq<Game>, ops: seq<Op>, k: nat)
    requires Run(games, ops) && k < |games|
    ensures Inv(games[k])
  {
    hide Inv, Step, NewLevel;
    if k == 0 {
      var g: Game :| NewLevel(g, games[0]);
      NewLevelIsSafe(g, games[0]);
    } else {
      RunsAreSafe(games, ops, k - 1);
      StepKeepsInv(ops[k - 1], games[k - 1], games[k]);
    }
  }

  // ---------------------------------------------------------------------------
  // What a cut leaves
  // ---------------------------------------------------------------------------

  /** The least squares of the pieces: one for each piece. */
  ghost function Leasts(black: set<nat>): set<nat> {
    set c | c in black && Least(black, c)
  }

  ghost function EnemiesOn(enemies: seq<Mover>, s: set<nat>): (r: seq<Mover>)
    requires OnGrid(enemies)
    ensures forall e :: e in r <==> e in enemies && At(e.x, e.y) in s
  {
    if enemies == [] then []
    else
      var last := enemies[|enemies| - 1];
      EnemiesOn(enemies[..|enemies| - 1], s) + (if At(last.x, last.y) in s then [last] else [])
  }

  /** What pieces are compared by: the enemies on them, and then their squares. */
  ghost function Score(black: set<nat>, enemies: seq<Mover>, a: nat): (nat, nat)
    requires OnGrid(enemies)
  {
    (|EnemiesOn(enemies, Piece(black, a))|, |Piece(black, a)|)
  }

  lemma {:induction false} LeastOf(s: set<nat>) returns (m: nat)
    requires s != {}
    ensures m in s && forall c :: c in s ==> m <= c
  {
    m :| m in s;
    assert s == (s - {m}) + {m};
    if s - {m} != {} {
      var n := LeastOf(s - {m});
      if n < m {
        m := n;
      }
    }
  }

  ghost predicate Within(s: set<nat>) {
    forall c: nat :: c in s ==> c < CN
  }

  lemma LabelledPiece(black: set<nat>, labels: seq<nat>, firsts: seq<nat>, k: nat)
    requires Labelled(black, labels, firsts) && k < |firsts| && Within(black)
    ensures SquaresOf(labels, k + 1) == Piece(black, firsts[k])
  {
    forall c: nat ensures c in SquaresOf(labels, k + 1) <==> c in Piece(black, firsts[k]) {
      if Joined(black, firsts[k], c) {
        JoinedOnGround(black, firsts[k], c);
      }
    }
  }

  lemma {:induction false} SurvivingAreOn(labels: seq<nat>, enemies: seq<Mover>, id: nat)
    requires |labels| == CN && OnGrid(enemies)
    ensures Surviving(labels, enemies, id) == EnemiesOn(enemies, SquaresOf(labels, id))
  {
    if enemies != [] {
      SurvivingAreOn(labels, enemies[..|enemies| - 1], id);
    }
  }

  lemma {:induction false} KeyIsScore(black: set<nat>, labels: seq<nat>, firsts: seq<nat>, enemies: seq<Mover>, k: nat)
    requires Labelled(black, labels, firsts) && k < |firsts| && OnGrid(enemies) && Within(black)
    ensures Key(labels, enemies, k + 1) == Score(black, enemies, firsts[k])
  {
    LabelledPiece(black, labels, firsts, k);
    SurvivingAreOn(labels, enemies, k + 1);
  }

  lemma {:induction false} PieceOfMember(black: set<nat>, a: nat, b: nat)
    requires Joined(black, a, b)
    ensures Piece(black, a) == Piece(black, b)
  {
    JoinedBack(black, a, b);
    forall c ensures c in Piece(black, a) <==> c in Piece(black, b) {
      if c in Piece(black, a) {
        JoinedThenJoined(black, b, a, c);
      }
      if c in Piece(black, b) {
        JoinedThenJoined(black, a, b, c);
      }
    }
  }

  lemma {:induction false} IncreasingSize(firsts: seq<nat>)
    requires forall j: nat, k: nat :: j < k < |firsts| ==> firsts[j] < firsts[k]
    ensures |SetOf(firsts)| == |firsts|
  {
    if firsts != [] {
      var n := |firsts| - 1;
      IncreasingSize(firsts[..n]);
      assert SetOf(firsts) == SetOf(firsts[..n]) + {firsts[n]};
    }
  }

  /** Every piece has a least square. */
  lemma {:induction false} PieceHasLeast(black: set<nat>, c: nat) returns (m: nat)
    requires c in black
    ensures Least(black, m) && Joined(black, c, m)
  {
    JoinedSelf(black, c);
    assert c in Piece(black, c);
    m := LeastOf(Piece(black, c));
    PieceOfMember(black, c, m);
    forall d: nat | Joined(black, m, d) ensures m <= d {
      JoinedOnGround(black, m, d);
      assert d in Piece(black, c);
    }
  }

  /** Every black square is labelled exactly when there are no more pieces than labels. */
  lemma {:induction false} AllLabelledIff(black: set<nat>, labels: seq<nat>, firsts: seq<nat>)
    requires Labelled(black, labels, firsts) && InOrder(black, labels, firsts) && Within(black)
    ensures (forall c :: c in black ==> labels[c] != 0) <==> |Leasts(black)| <= MAX_COMP
  {
    IncreasingSize(firsts);
    if c :| c in black && labels[c] == 0 {
      var m := PieceHasLeast(black, c);
      LabelsAgree(black, labels, firsts, c, m);
      assert SetOf(firsts) + {m} <= Leasts(black);
      SubsetSize(SetOf(firsts) + {m}, Leasts(black));
      assert m !in SetOf(firsts);
    } else {
      forall m | m in Leasts(black) ensures m in SetOf(firsts) {
        var f := firsts[labels[m] - 1];
        JoinedBack(black, f, m);
        assert f == m;
      }
      SubsetSize(Leasts(black), SetOf(firsts));
    }
  }

  /** `a`'s piece is what a cut should leave: no piece has a better score, and one before it has a worse. */
  ghost predicate BestPiece(black: set<nat>, enemies: seq<Mover>, a: nat)
    requires OnGrid(enemies)
  {
    Least(black, a) && forall b: nat :: Least(black, b) ==> Outdone(black, enemies, b, a)
  }

  /** The piece of `b` has fewer enemies than that of `a`, or as many and fewer squares, or as many of both and does not come first. */
  ghost predicate Outdone(black: set<nat>, enemies: seq<Mover>, b: nat, a: nat)
    requires OnGrid(enemies)
  {
    var foes, others := |EnemiesOn(enemies, Piece(black, a))|, |EnemiesOn(enemies, Piece(black, b))|;
    || others < foes
    || (others == foes && |Piece(black, b)| < |Piece(black, a)|)
    || (others == foes && |Piece(black, b)| == |Piece(black, a)| && a <= b)
  }

  lemma OutdoneIff(black: set<nat>, enemies: seq<Mover>, b: nat, a: nat)
    requires OnGrid(enemies)
    ensures Outdone(black, enemies, b, a) <==>
            && !Beats(Score(black, enemies, b), Score(black, enemies, a))
            && (b < a ==> Beats(Score(black, enemies, a), Score(black, enemies, b)))
  {
  }

  // ---------------------------------------------------------------------------
  // More pieces than labels
  // ---------------------------------------------------------------------------

  /** The pieces met before square `a`, by their least squares. */
  ghost function Before(black: set<nat>, a: nat): set<nat> {
    set m | m in Leasts(black) && m < a
  }

  /** `a`'s piece is among the first `MAX_COMP`: it gets a label, and can be chosen or captured. */
  ghost predicate Counted(black: set<nat>, a: nat) {
    Least(black, a) && |Before(black, a)| < MAX_COMP
  }

  /** The squares of the pieces there were no labels for. */
  ghost function Uncounted(black: set<nat>): set<nat> {
    set c | c in black && forall a: nat :: Counted(black, a) ==> !Joined(black, a, c)
  }

  lemma {:induction false} FirstsAreCounted(black: set<nat>, labels: seq<nat>, firsts: seq<nat>, a: nat)
    requires Labelled(black, labels, firsts) && InOrder(black, labels, firsts) && Within(black)
    ensures a in firsts <==> Counted(black, a)
  {
    IncreasingSize(firsts);
    if k: nat :| k < |firsts| && firsts[k] == a {
      IncreasingSize(firsts[..k]);
      forall m | m in Before(black, a) ensures m in SetOf(firsts[..k]) {
        LeastIsFirst(black, labels, firsts, m);
        var j: nat := labels[m] - 1;
        assert j < k && firsts[..k][j] == m;
      }
      SubsetSize(Before(black, a), SetOf(firsts[..k]));
    } else if Least(black, a) {
      if labels[a] != 0 {
        LeastIsFirst(black, labels, firsts, a);
      } else {
        assert SetOf(firsts) <= Before(black, a);
        SubsetSize(SetOf(firsts), Before(black, a));
      }
    }
  }

  /** A labelled least square is the one its piece was found by. */
  lemma {:induction false} LeastIsFirst(black: set<nat>, labels: seq<nat>, firsts: seq<nat>, m: nat)
    requires Labelled(black, labels, firsts) && InOrder(black, labels, firsts) && Within(black)
    requires Least(black, m) && (labels[m] != 0 || (exists k: nat :: k < |firsts| && m < firsts[k]))
    ensures labels[m] != 0 && firsts[labels[m] - 1] == m
  {
    if labels[m] == 0 {
      var k: nat :| k < |firsts| && m < firsts[k];
    }
    JoinedBack(black, firsts[labels[m] - 1], m);
  }

  /** `a`'s piece is the best of those counted, and the first of equals. */
  ghost predicate BestCounted(black: set<nat>, enemies: seq<Mover>, a: nat)
    requires OnGrid(enemies)
  {
    Counted(black, a) && forall b: nat :: Counted(black, b) ==> Outdone(black, enemies, b, a)
  }

  /**
   However many pieces there are: what stays black is the best of the counted pieces and all of the
   uncounted ones, and an enemy survives exactly when it stands on that best piece. One on an
   uncounted piece is gone although its ground stays black.
   */
  lemma {:induction false} CutKeepsCounted(g: Game, h: Game) returns (a: nat)
    requires g.Shaped() && OnGrid(g.enemies) && CutClosed(g, h) && Cells(g.grid, Black) != {}
    ensures BestCounted(Cells(g.grid, Black), g.enemies, a)
    ensures Cells(h.grid, Black) == Piece(Cells(g.grid, Black), a) + Uncounted(Cells(g.grid, Black))
    ensures h.enemies == EnemiesOn(g.enemies, Piece(Cells(g.grid, Black), a))
    ensures forall e :: e in g.enemies && At(e.x, e.y) in Uncounted(Cells(g.grid, Black)) ==> e !in h.enemies
  {
    hide BestCounted, Surviving, EnemiesOn, Wins, InOrder, Counted;
    var labels: seq<nat>, firsts: seq<nat>, winner: nat :| CutAs(g, h, labels, firsts, winner);
    var black := Cells(g.grid, Black);
    SomethingWins(black, labels, firsts, g.enemies, winner);
    a := firsts[winner - 1];
    LabelledPiece(black, labels, firsts, winner - 1);
    SurvivingAreOn(labels, g.enemies, winner);
    forall c: nat | c in black ensures labels[c] == 0 <==> c in Uncounted(black) {
      ZeroIsUncounted(black, labels, firsts, c);
    }
    assert forall c: nat :: c in Piece(black, a) <==> c in black && labels[c] == winner;
    BestOfFirsts(g, labels, firsts, winner);
  }

  /** With no more pieces than labels every piece is counted. */
  lemma {:induction false} FewAreCounted(black: set<nat>)
    requires |Leasts(black)| <= MAX_COMP
    ensures forall a: nat :: Least(black, a) <==> Counted(black, a)
    ensures Uncounted(black) == {}
  {
    forall a: nat | Least(black, a) ensures Counted(black, a) {
      SubsetSize(Before(black, a), Leasts(black) - {a});
    }
    forall c | c in black ensures c !in Uncounted(black) {
      var m := PieceHasLeast(black, c);
      JoinedBack(black, c, m);
    }
  }

  /**
   With no more pieces than labels, a cut leaves exactly one of the pieces there were: the best by
   enemies and then by squares, the first of equals; and the enemies left are those on it, in order.
   */
  lemma {:induction false} CutKeepsBestPiece(g: Game, h: Game) returns (a: nat)
    requires g.Shaped() && OnGrid(g.enemies) && CutClosed(g, h)
    requires Cells(g.grid, Black) != {} && |Leasts(Cells(g.grid, Black))| <= MAX_COMP
    ensures BestPiece(Cells(g.grid, Black), g.enemies, a)
    ensures Cells(h.grid, Black) == Piece(Cells(g.grid, Black), a)
    ensures h.enemies == EnemiesOn(g.enemies, Piece(Cells(g.grid, Black), a))
  {
    hide CutClosed, Counted, Uncounted, Least, Outdone, Piece, EnemiesOn;
    a := CutKeepsCounted(g, h);
    FewAreCounted(Cells(g.grid, Black));
  }

  lemma {:induction false} SomethingWins(black: set<nat>, labels: seq<nat>, firsts: seq<nat>, enemies: seq<Mover>, winner: nat)
    requires Labelled(black, labels, firsts) && InOrder(black, labels, firsts) && Within(black) && black != {}
    requires OnGrid(enemies) && Wins(labels, enemies, |firsts|, winner)
    ensures 0 < winner <= |firsts|
  {
    var c :| c in black;
    assert labels[c] <= |firsts|;
  }

  lemma {:induction false} ZeroIsUncounted(black: set<nat>, labels: seq<nat>, firsts: seq<nat>, c: nat)
    requires Labelled(black, labels, firsts) && InOrder(black, labels, firsts) && Within(black) && c in black
    ensures labels[c] == 0 <==> c in Uncounted(black)
  {
    hide Counted, InOrder;
    if labels[c] != 0 {
      FirstsAreCounted(black, labels, firsts, firsts[labels[c] - 1]);
    } else {
      forall a: nat | Counted(black, a) ensures !Joined(black, a, c) {
        FirstsAreCounted(black, labels, firsts, a);
        var k: nat :| k < |firsts| && firsts[k] == a;
        assert labels[c] != k + 1;
      }
    }
  }

  lemma {:induction false} BestOfFirsts(g: Game, labels: seq<nat>, firsts: seq<nat>, winner: nat)
    requires g.Shaped() && OnGrid(g.enemies)
    requires Labelled(Cells(g.grid, Black), labels, firsts) && InOrder(Cells(g.grid, Black), labels, firsts)
    requires 0 < winner <= |firsts| && Wins(labels, g.enemies, |firsts|, winner)
    ensures BestCounted(Cells(g.grid, Black), g.enemies, firsts[winner - 1])
  {
    var black, a := Cells(g.grid, Black), firsts[winner - 1];
    hide Counted, Key, Score, Beats, Outdone;
    FirstsAreCounted(black, labels, firsts, a);
    KeyIsScore(black, labels, firsts, g.enemies, winner - 1);
    forall b: nat | Counted(black, b) ensures Outdone(black, g.enemies, b, a) {
      OutdoneIff(black, g.enemies, b, a);
      FirstsAreCounted(black, labels, firsts, b);
      var k: nat :| k < |firsts| && firsts[k] == b;
      KeyIsScore(black, labels, firsts, g.enemies, k);
      assert !Beats(Key(labels, g.enemies, k + 1), Key(labels, g.enemies, winner));
    }
  }

  /** With more pieces than labels, what is left is not one piece. */
  lemma {:induction false} OverflowLeavesMore(g: Game, h: Game, a: nat)
    requires g.Shaped() && OnGrid(g.enemies) && CutClosed(g, h)
    requires |Leasts(Cells(g.grid, Black))| > MAX_COMP
    ensures Cells(h.grid, Black) != Piece(Cells(g.grid, Black), a)
  {
    var labels: seq<nat>, firsts: seq<nat>, winner: nat :| CutAs(g, h, labels, firsts, winner);
    var black := Cells(g.grid, Black);
    AllLabelledIff(black, labels, firsts);
    var c :| c in black && labels[c] == 0;
    var f := firsts[winner - 1];
    JoinedSelf(black, f);
    assert f in Cells(h.grid, Black) && c in Cells(h.grid, Black);
    if Joined(black, a, f) && Joined(black, a, c) {
      JoinedBack(black, a, f);
      JoinedThenJoined(black, f, a, c);
    }
  }

  /** A square of the grid whose black is one square in four: those with both coordinates odd. */
  predicate OddSquare(i: nat) {
    X(i) % 2 == 1 && Y(i) % 2 == 1 && !OnEdge(i)
  }

  ghost predicate Checkered(grid: seq<Square>) {
    |grid| == CN && forall i: nat :: i < CN ==> grid[i] == if OddSquare(i) then Black else Filled
  }

  /** The first squares of the second and fourth rows, every other one. */
  function Spot(i: nat): nat {
    if i < 31 then CW + 1 + 2 * i else 3 * CW + 1 + 2 * (i - 31)
  }

  lemma SpotIsOdd(i: nat)
    requires i < 49
    ensures Spot(i) < CN && OddSquare(Spot(i)) && Spot(i) < Spot(i + 1)
  {
    if i < 31 {
      assert At(1 + 2 * i, 1) == Spot(i);
    } else {
      assert At(1 + 2 * (i - 31), 3) == Spot(i);
    }
  }

  ghost function Spots(n: nat): (s: set<nat>)
    requires n <= 49
    ensures |s| == n && forall c :: c in s ==> c < Spot(n) && c < CN && OddSquare(c)
  {
    if n == 0 then {} else
      SpotIsOdd(n - 1);
      Spots(n - 1) + {Spot(n - 1)}
  }

  lemma {:induction false} FilledReachesEdge(filled: set<nat>, edge: set<nat>, i: nat)
    requires forall c: nat :: c in filled <==> c < CN && !OddSquare(c)
    requires forall c: nat :: c in edge <==> c < CN && OnEdge(c)
    requires i in filled
    ensures Attached(filled, edge, i)
    decreases if Y(i) % 2 == 1 then X(i) + CW else X(i)
  {
    assert edge <= filled;
    InGrid(i);
    if OnEdge(i) {
      AttachedSelf(filled, edge, i);
    } else {
      var j := if Y(i) % 2 == 0 then At(X(i) - 1, Y(i)) else At(X(i), Y(i) - 1);
      FilledReachesEdge(filled, edge, j);
      AttachedNext(filled, edge, i, j);
    }
  }

  lemma {:induction false} CheckeredGround(grid: seq<Square>)
    requires Checkered(grid)
    ensures Walled(grid) && OnePiece(grid) && Cells(grid, Trail) == {}
    ensures grid[At(CW / 2, 0)] == Filled && OnBorder(grid, CW / 2, 0)
  {
    hide OddSquare;
    OddIsInside();
    var filled, edge := Cells(grid, Filled), set c: nat | c < CN && OnEdge(c);
    EdgeIsOnePiece(edge);
    forall c | c in filled ensures Attached(filled, edge, c) {
      FilledReachesEdge(filled, edge, c);
    }
    ConnectedGrows(edge, filled);
    assert Cells(grid, Trail) == {} && filled + {} == filled;
    assert Cell(grid, CW / 2 + 1, 1) == Black;
    assert BlackInRow(grid, CW / 2, 1);
  }

  lemma OddIsInside()
    ensures forall i: nat :: OddSquare(i) ==> !OnEdge(i)
    ensures OddSquare(At(CW / 2 + 1, 1)) && OnEdge(At(CW / 2, 0))
  {
  }

  lemma {:induction false} CheckeredLeasts(grid: seq<Square>)
    requires Checkered(grid)
    ensures |Leasts(Cells(grid, Black))| > MAX_COMP
  {
    hide OddSquare, Least, Spot;
    var black := Cells(grid, Black);
    forall a | a in black ensures Least(black, a) {
      OddIsAlone(black, a);
    }
    SpotsAreLeast(black);
    SubsetSize(Spots(49), Leasts(black));
  }

  lemma {:induction false} SpotsAreLeast(black: set<nat>)
    requires forall c: nat :: c in black <==> c < CN && OddSquare(c)
    requires forall a :: a in black ==> Least(black, a)
    ensures Spots(49) <= Leasts(black)
  {
    hide OddSquare, Least, Spot;
  }

  lemma {:induction false} OddIsAlone(black: set<nat>, a: nat)
    requires forall c: nat :: c in black <==> c < CN && OddSquare(c)
    requires a in black
    ensures Least(black, a)
  {
    OddAreApart(black, a);
    forall c: nat | Joined(black, a, c) ensures a <= c {
      JoinedStaysIn(black, {a}, a, c);
    }
  }

  lemma OddAreApart(black: set<nat>, a: nat)
    requires forall c: nat :: c in black <==> c < CN && OddSquare(c)
    requires a in black
    ensures Closed(black, {a})
  {
    hide Adjacent, OnEdge;
    forall b | b in black ensures !Adjacent(a, b) {
      if Adjacent(a, b) {
        FourNeighbours(a, b);
      }
    }
  }

  /** A game may meet more pieces than there are labels: a state as sound as any, with far more. */
  lemma {:induction false} ManyPieces() returns (g: Game)
    ensures Inv(g) && |Leasts(Cells(g.grid, Black))| > MAX_COMP
  {
    hide OnePiece, Checkered;
    var grid := CheckeredExists();
    CheckeredGround(grid);
    CheckeredLeasts(grid);
    g := Game(grid, CW / 2, 0, 0, 0, false, [], 1, false);
  }

  lemma CheckeredExists() returns (grid: seq<Square>)
    ensures Checkered(grid)
  {
    grid := seq(CN, (i: nat) => if OddSquare(i) then Black else Filled);
  }
}
