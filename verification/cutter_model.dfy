/**
 Block Cutter as a state machine: what each operation does to the game, what every state of every
 run looks like, and what a cut keeps.
 */
module CutterModel {
  import opened CutterGrid

  /** Most black pieces one cut labels; any past them stay black. */
  const MAX_COMP: nat := 48
  const MAX_ENEMIES: nat := 16

  datatype Mover = Mover(x: nat, y: nat, vx: int, vy: int)

  datatype Game = Game(grid: seq<Square>, px: nat, py: nat, dx: int, dy: int, trailing: bool, enemies: seq<Mover>,
                       level: nat, dead: bool) {
    ghost predicate Shaped() {
      |grid| == CN && px < CW && py < CH
    }

    function Player(): nat
      requires px < CW && py < CH
    {
      At(px, py)
    }
  }

  // ---------------------------------------------------------------------------
  // Moving to the border
  // ---------------------------------------------------------------------------

  /** `end` is a border square, and no border square is fewer steps of `ground` from `start`. */
  ghost predicate NearestBorder(grid: seq<Square>, ground: set<nat>, start: nat, end: nat)
    requires |grid| == CN
  {
    BorderCell(grid, end) && exists d: nat :: Near(ground, start, end, d) && NoneCloser(grid, ground, start, d)
  }

  ghost predicate NoneCloser(grid: seq<Square>, ground: set<nat>, start: nat, d: nat)
    requires |grid| == CN
  {
    forall b: nat, k: nat :: k < d && Near(ground, start, b, k) ==> !BorderCell(grid, b)
  }

  ghost predicate NoBorderFrom(grid: seq<Square>, ground: set<nat>, start: nat)
    requires |grid| == CN
  {
    forall b: nat :: Joined(ground, start, b) ==> !BorderCell(grid, b)
  }

  /** The nearest border square over claimed ground; where the player is, when there is none. */
  ghost predicate Settled(grid: seq<Square>, start: nat, end: nat)
    requires |grid| == CN
  {
    var ground := Cells(grid, Filled);
    NearestBorder(grid, ground, start, end) || (end == start && NoBorderFrom(grid, ground, start))
  }

  ghost predicate MovedToBorder(g: Game, h: Game)
    requires g.Shaped()
  {
    h.Shaped() && h == g.(px := h.px, py := h.py) && Settled(g.grid, g.Player(), h.Player())
  }

  lemma HereIsNearest(grid: seq<Square>, start: nat)
    requires |grid| == CN && start < CN && grid[start] == Filled && BorderCell(grid, start)
    ensures Settled(grid, start, start)
  {
    assert Near(Cells(grid, Filled), start, start, 0);
  }

  /** A player already on the border stays. */
  lemma {:induction false} BorderPlayerStays(g: Game, h: Game)
    requires g.Shaped() && MovedToBorder(g, h) && g.grid[g.Player()] == Filled && OnBorder(g.grid, g.px, g.py)
    ensures h == g
  {
    var ground, start := Cells(g.grid, Filled), g.Player();
    assert Near(ground, start, start, 0);
    assert Joined(ground, start, start);
    InGrid(start);
    InGrid(h.Player());
  }

  // ---------------------------------------------------------------------------
  // Closing a cut
  // ---------------------------------------------------------------------------

  /** `labels` numbers the pieces of `black` whose least squares are `firsts`, from one. */
  ghost predicate Labelled(black: set<nat>, labels: seq<nat>, firsts: seq<nat>) {
    && |labels| == CN
    && (forall c: nat :: c < CN ==> labels[c] <= |firsts|)
    && (forall c: nat, k: nat :: c < CN && k < |firsts| ==> (labels[c] == k + 1 <==> Joined(black, firsts[k], c)))
  }

  /** `a` is the least square of its piece. */
  ghost predicate Least(black: set<nat>, a: nat) {
    a in black && forall c: nat :: Joined(black, a, c) ==> a <= c
  }

  /** The pieces are numbered in the order of their least squares, and only a full count leaves any out. */
  ghost predicate InOrder(black: set<nat>, labels: seq<nat>, firsts: seq<nat>)
    requires |labels| == CN
  {
    && |firsts| <= MAX_COMP
    && (forall k: nat :: k < |firsts| ==> Least(black, firsts[k]))
    && (forall j: nat, k: nat :: j < k < |firsts| ==> firsts[j] < firsts[k])
    && (forall c: nat :: c in black && c < CN && labels[c] == 0 ==> |firsts| == MAX_COMP && firsts[MAX_COMP - 1] < c)
  }

  /** How many of the enemies stand on `id`. */
  ghost function Standing(labels: seq<nat>, enemies: seq<Mover>, id: nat): nat
    requires |labels| == CN && OnGrid(enemies)
  {
    if enemies == [] then 0
    else Standing(labels, enemies[..|enemies| - 1], id) + (if LabelAt(labels, enemies[|enemies| - 1]) == id then 1 else 0)
  }

  ghost predicate OnGrid(enemies: seq<Mover>) {
    forall e :: e in enemies ==> e.x < CW && e.y < CH
  }

  function LabelAt(labels: seq<nat>, e: Mover): nat
    requires |labels| == CN && e.x < CW && e.y < CH
  {
    labels[At(e.x, e.y)]
  }

  ghost function SquaresOf(labels: seq<nat>, id: nat): set<nat>
    requires |labels| == CN
  {
    set c: nat | 0 <= c < CN && labels[c] == id
  }

  /** More enemies, or as many and more squares. */
  predicate Beats(a: (nat, nat), b: (nat, nat)) {
    a.0 > b.0 || (a.0 == b.0 && a.1 > b.1)
  }

  ghost function Key(labels: seq<nat>, enemies: seq<Mover>, id: nat): (nat, nat)
    requires |labels| == CN && OnGrid(enemies)
  {
    (Standing(labels, enemies, id), |SquaresOf(labels, id)|)
  }

  /** The first of the pieces `1..n` that none beats; zero when there is none. */
  ghost predicate Wins(labels: seq<nat>, enemies: seq<Mover>, n: nat, winner: nat)
    requires |labels| == CN && OnGrid(enemies)
  {
    if n == 0 then winner == 0
    else
      && 1 <= winner <= n
      && (forall id: nat :: 1 <= id <= n ==> !Beats(Key(labels, enemies, id), Key(labels, enemies, winner)))
      && (forall id: nat :: 1 <= id < winner ==> Beats(Key(labels, enemies, winner), Key(labels, enemies, id)))
  }

  /** The enemies standing on `winner`, in order. */
  ghost function Surviving(labels: seq<nat>, enemies: seq<Mover>, winner: nat): (r: seq<Mover>)
    requires |labels| == CN && OnGrid(enemies)
    ensures |r| <= |enemies|
    ensures forall e :: e in r <==> e in enemies && LabelAt(labels, e) == winner
    ensures winner > 0 ==> |r| == Standing(labels, enemies, winner)
  {
    if enemies == [] then []
    else
      var last := enemies[|enemies| - 1];
      var before := Surviving(labels, enemies[..|enemies| - 1], winner);
      if LabelAt(labels, last) == winner then before + [last] else before
  }

  /** The square after the cut: black where it was and was not captured, claimed everywhere else. */
  function AfterCut(q: Square, l: nat, winner: nat): Square {
    if q == Black && (l == 0 || l == winner) then Black else Filled
  }

  ghost predicate CutAs(g: Game, h: Game, labels: seq<nat>, firsts: seq<nat>, winner: nat)
    requires g.Shaped() && OnGrid(g.enemies)
  {
    var black := Cells(g.grid, Black);
    && Labelled(black, labels, firsts) && InOrder(black, labels, firsts)
    && Wins(labels, g.enemies, |firsts|, winner)
    && |h.grid| == CN && (forall i: nat :: i < CN ==> h.grid[i] == AfterCut(g.grid[i], labels[i], winner))
    && h == g.(grid := h.grid, enemies := Surviving(labels, g.enemies, winner))
  }

  ghost predicate CutClosed(g: Game, h: Game)
    requires g.Shaped() && OnGrid(g.enemies)
  {
    exists labels, firsts, winner :: CutAs(g, h, labels, firsts, winner)
  }

  // ---------------------------------------------------------------------------
  // The other operations
  // ---------------------------------------------------------------------------

  ghost predicate Bouncing(e: Mover) {
    (e.vx == 1 || e.vx == -1) && (e.vy == 1 || e.vy == -1)
  }

  /** A new level: the edge claimed, everything within it black, the enemies anywhere in the black. */
  ghost predicate NewLevel(g: Game, h: Game) {
    && |h.grid| == CN && (forall i: nat :: i < CN ==> h.grid[i] == if OnEdge(i) then Filled else Black)
    && h == Game(h.grid, CW / 2, 0, 0, 0, false, h.enemies, g.level, g.dead)
    && |h.enemies| == (if g.level <= MAX_ENEMIES then g.level else MAX_ENEMIES)
    && (forall e :: e in h.enemies ==> 1 <= e.x < CW - 1 && 1 <= e.y < CH - 1 && Bouncing(e))
  }

  /** One of the four keys: a direction along one axis. */
  ghost predicate Turned(g: Game, h: Game) {
    h == g.(dx := h.dx, dy := h.dy) && ((h.dx == 0 && (h.dy == 1 || h.dy == -1)) || (h.dy == 0 && (h.dx == 1 || h.dx == -1)))
  }

  ghost predicate Respawned(g: Game, h: Game)
    requires g.Shaped()
  {
    exists m: Game :: TrailDropped(g, m) && MovedToBorder(m, h)
  }

  ghost predicate TrailDropped(g: Game, m: Game)
    requires g.Shaped()
  {
    && |m.grid| == CN && (forall i: nat :: i < CN ==> m.grid[i] == if g.grid[i] == Trail then Black else g.grid[i])
    && m == Game(m.grid, CW / 2, 0, 0, 0, false, g.enemies, g.level, g.dead)
  }

  ghost predicate EnemyAt(enemies: seq<Mover>, x: int, y: int) {
    exists e :: e in enemies && e.x == x && e.y == y
  }

  /** The square the player is heading for. */
  function Ahead(g: Game): (int, int) {
    (g.px + g.dx, g.py + g.dy)
  }

  /** One step of the player. */
  ghost predicate PlayerStepped(g: Game, h: Game)
    requires g.Shaped() && OnGrid(g.enemies)
  {
    var (x, y) := Ahead(g);
    if g.dx == 0 && g.dy == 0 then h == g
    else if x < 0 || y < 0 || x >= CW || y >= CH then h == g.(dx := 0, dy := 0)
    else if EnemyAt(g.enemies, x, y) then h == g.(dead := true)
    else
      var target := g.grid[At(x, y)];
      if g.trailing then
        match target
        case Trail => h == g.(dead := true)
        case Filled => exists m: Game :: CutClosed(g.(px := x, py := y, trailing := false), m) && m.Shaped() && MovedToBorder(m, h)
        case Black => h == g.(px := x, py := y, grid := g.grid[At(x, y) := Trail])
      else
        match target
        case Trail => h == g
        case Filled => h == if OnBorder(g.grid, x, y) then g.(px := x, py := y) else g.(dx := 0, dy := 0)
        case Black => h == g.(px := x, py := y, grid := g.grid[At(x, y) := Trail], trailing := true)
  }

  /** One of the three squares an enemy is heading for is on the line. */
  predicate Breaches(grid: seq<Square>, e: Mover)
    requires |grid| == CN
  {
    Cell(grid, e.x + e.vx, e.y) == Trail || Cell(grid, e.x, e.y + e.vy) == Trail || Cell(grid, e.x + e.vx, e.y + e.vy) == Trail
  }

  /** An enemy's bounce: each axis that is blocked is reflected, and then it moves if it can. */
  function Bounced(grid: seq<Square>, e: Mover): Mover
    requires |grid| == CN
  {
    var vx := if Cell(grid, e.x + e.vx, e.y) != Black then -e.vx else e.vx;
    var vy := if Cell(grid, e.x, e.y + e.vy) != Black then -e.vy else e.vy;
    if Cell(grid, e.x + vx, e.y + vy) == Black then Mover(e.x + vx, e.y + vy, vx, vy) else Mover(e.x, e.y, vx, vy)
  }

  /** The first `n` enemies have moved, and the game has been stopped by the `n`th or not at all. */
  ghost predicate EnemiesSteppedTo(g: Game, h: Game, n: nat)
    requires g.Shaped()
  {
    && n <= |g.enemies| == |h.enemies|
    && h == g.(enemies := h.enemies, dead := h.dead)
    && (forall i: nat :: i < n ==> !Breaches(g.grid, g.enemies[i]) && h.enemies[i] == Bounced(g.grid, g.enemies[i]))
    && (forall i: nat :: n <= i < |g.enemies| ==> h.enemies[i] == g.enemies[i])
  }

  ghost predicate Caught(h: Game, e: Mover) {
    h.trailing && e.x == h.px && e.y == h.py
  }

  ghost predicate EnemiesStepped(g: Game, h: Game)
    requires g.Shaped()
  {
    exists n: nat :: EnemiesSteppedTo(g, h, n) && (
        || (n == |g.enemies| && h.dead == g.dead)
        || (n < |g.enemies| && Breaches(g.grid, g.enemies[n]) && h.dead)
        || (0 < n && Caught(h, h.enemies[n - 1]) && h.dead))
  }

  // ---------------------------------------------------------------------------
  // What an enemy does, square by square
  // ---------------------------------------------------------------------------

  /** `(x, y)` is a square of the grid, and on the line. */
  ghost predicate LineAt(grid: seq<Square>, x: int, y: int)
    requires |grid| == CN
  {
    0 <= x < CW && 0 <= y < CH && grid[y * CW + x] == Trail
  }

  /** The enemy has the line beside it or ahead of it. */
  ghost predicate TouchesLine(grid: seq<Square>, e: Mover)
    requires |grid| == CN
  {
    LineAt(grid, e.x + e.vx, e.y) || LineAt(grid, e.x, e.y + e.vy) || LineAt(grid, e.x + e.vx, e.y + e.vy)
  }

  /**
   `e` became `f`: each part of its velocity is turned round exactly when the square it points at along
   its own axis is not black, and it goes where it is then headed if that is black, and else stays.
   */
  ghost predicate Moved(grid: seq<Square>, e: Mover, f: Mover)
    requires |grid| == CN
  {
    && f.vx == (if BlackAt(grid, e.x + e.vx, e.y) then e.vx else -e.vx)
    && f.vy == (if BlackAt(grid, e.x, e.y + e.vy) then e.vy else -e.vy)
    && (if BlackAt(grid, e.x + f.vx, e.y + f.vy) then f.x == e.x + f.vx && f.y == e.y + f.vy else f.x == e.x && f.y == e.y)
  }

  /** Every enemy has moved, none of them beside the line; or all have up to the first that is, and the run is over. */
  ghost predicate Swept(g: Game, h: Game, n: nat)
    requires g.Shaped()
  {
    && n <= |g.enemies| == |h.enemies| && h == g.(enemies := h.enemies, dead := h.dead)
    && (forall i: nat :: i < n ==> !TouchesLine(g.grid, g.enemies[i]) && Moved(g.grid, g.enemies[i], h.enemies[i]))
    && (forall i: nat :: n <= i < |g.enemies| ==> h.enemies[i] == g.enemies[i])
    && (if n == |g.enemies| then h.dead == g.dead else TouchesLine(g.grid, g.enemies[n]) && h.dead)
  }

  lemma BreachesIff(grid: seq<Square>, e: Mover)
    requires |grid| == CN
    ensures Breaches(grid, e) <==> TouchesLine(grid, e)
  {
  }

  lemma BouncedMoves(grid: seq<Square>, e: Mover)
    requires |grid| == CN
    ensures Moved(grid, e, Bounced(grid, e))
  {
  }
}
