/**
 Block Cutter as it is played: one grid of squares updated in place. Every method is tied to the
 operation of `CutterModel` it is, and so keeps what `CutterSafety` proves of every run.
 */
module BlockCutter {
  import opened CutterGrid
  import opened CutterModel
  import opened CutterSafety
  import opened CutterSearch
  import opened CutterLabels

  /** `sys::below`, as the numbers it goes on to give: the `i`th, below `n`. */
  type Below = (nat, nat) -> nat

  ghost predicate InBounds(below: Below) {
    forall i: nat, n: nat :: n > 0 ==> below(i, n) < n
  }

  class Cutter {
    const grid: array<Square>
    var px: nat
    var py: nat
    var dx: int
    var dy: int
    var trailing: bool
    var enemies: seq<Mover>
    var level: nat
    var dead: bool

    ghost predicate Valid()
      reads this
    {
      grid.Length == CN && px < CW && py < CH
    }

    ghost function Now(): Game
      reads this, grid
    {
      Game(grid[..], px, py, dx, dy, trailing, enemies, level, dead)
    }

    constructor (below: Below)
      requires InBounds(below)
      ensures Valid() && fresh(grid) && Inv(Now()) && level == 1 && !dead && exists g: Game :: NewLevel(g, Now())
    {
      grid := new Square[CN](i => Black);
      px, py, dx, dy := 0, 0, 0, 0;
      trailing, dead := false, false;
      enemies := [];
      level := 1;
      new;
      ghost var g := Now();
      StartLevel(below);
      NewLevelIsSafe(g, Now());
    }

    /** Claim the edge and leave the rest black. */
    method ClearGrid()
      requires Valid()
      modifies grid
      ensures forall i: nat :: i < CN ==> grid[i] == if OnEdge(i) then Filled else Black
    {
      for i := 0 to CN
        invariant forall j: nat :: j < i ==> grid[j] == Black
      {
        grid[i] := Black;
      }
      for x := 0 to CW
        invariant forall j: nat :: j < CN ==> grid[j] == if X(j) < x && (Y(j) == 0 || Y(j) == CH - 1) then Filled else Black
      {
        grid[At(x, 0)] := Filled;
        grid[At(x, CH - 1)] := Filled;
        RowEnds(x);
      }
      for y := 0 to CH
        invariant forall j: nat :: j < CN ==>
                    grid[j] == if Y(j) == 0 || Y(j) == CH - 1 || (Y(j) < y && (X(j) == 0 || X(j) == CW - 1)) then Filled else Black
      {
        grid[At(0, y)] := Filled;
        grid[At(CW - 1, y)] := Filled;
        ColumnEnds(y);
      }
    }

    static lemma RowEnds(x: nat)
      requires x < CW
      ensures forall j: nat :: j < CN && X(j) == x && Y(j) == 0 ==> j == At(x, 0)
      ensures forall j: nat :: j < CN && X(j) == x && Y(j) == CH - 1 ==> j == At(x, CH - 1)
    {
    }

    static lemma ColumnEnds(y: nat)
      requires y < CH
      ensures forall j: nat :: j < CN && Y(j) == y && X(j) == 0 ==> j == At(0, y)
      ensures forall j: nat :: j < CN && Y(j) == y && X(j) == CW - 1 ==> j == At(CW - 1, y)
    {
    }

    /** Enemy `i` of a new level, from four draws: its square, and which way it goes on each axis. */
    static ghost function Placed(below: Below, i: nat): Mover {
      Mover(1 + below(4 * i, CW - 2), 1 + below(4 * i + 1, CH - 2),
            if below(4 * i + 2, 2) == 0 then -1 else 1, if below(4 * i + 3, 2) == 0 then -1 else 1)
    }

    /** `new_level` */
    method StartLevel(below: Below)
      requires Valid() && InBounds(below)
      modifies this, grid
      ensures Valid() && NewLevel(old(Now()), Now())
      ensures forall i: nat :: i < |enemies| ==> enemies[i] == Placed(below, i)
    {
      ClearGrid();
      px, py, dx, dy := CW / 2, 0, 0, 0;
      trailing := false;
      enemies := [];
      var n := if level <= MAX_ENEMIES then level else MAX_ENEMIES;
      for i: nat := 0 to n
        invariant forall j: nat :: j < i && j < |enemies| ==> enemies[j] == Placed(below, j)
        invariant |enemies| == i && forall e :: e in enemies ==> 1 <= e.x < CW - 1 && 1 <= e.y < CH - 1 && Bouncing(e)
        invariant Valid() && forall j: nat :: j < CN ==> grid[j] == if OnEdge(j) then Filled else Black
        invariant px == CW / 2 && py == 0 && dx == 0 && dy == 0 && !trailing && level == old(level) && dead == old(dead)
      {
        var x, y := 1 + below(4 * i, CW - 2), 1 + below(4 * i + 1, CH - 2);
        var vx := if below(4 * i + 2, 2) == 0 then -1 else 1;
        var vy := if below(4 * i + 3, 2) == 0 then -1 else 1;
        enemies := enemies + [Mover(x, y, vx, vy)];
      }
    }

    /** One of the keys `5`, `8`, `7` and `9`. */
    method Turn(x: int, y: int)
      requires Valid() && ((x == 0 && (y == 1 || y == -1)) || (y == 0 && (x == 1 || x == -1)))
      modifies this`dx, this`dy
      ensures Valid() && Turned(old(Now()), Now())
    {
      dx, dy := x, y;
    }

    /** Move the player to the nearest border square over claimed ground. */
    method MoveToBorder()
      requires Valid() && grid[At(px, py)] == Filled
      modifies this`px, this`py
      ensures Valid() && MovedToBorder(old(Now()), Now())
    {
      InGrid(At(px, py));
      if OnBorder(grid[..], px, py) {
        HereIsNearest(grid[..], At(px, py));
        return;
      }
      var end := NearestFrom(grid, At(px, py));
      InGrid(end);
      px, py := end % CW, end / CW;
    }

    /** Every square of one kind becomes another. */
    method Replace(from: Square, to: Square)
      requires Valid()
      modifies grid
      ensures forall i: nat :: i < CN ==> grid[i] == if old(grid[i]) == from then to else old(grid[i])
    {
      for i := 0 to CN
        invariant forall j: nat :: j < i ==> grid[j] == if old(grid[j]) == from then to else old(grid[j])
        invariant forall j: nat :: i <= j < CN ==> grid[j] == old(grid[j])
      {
        if grid[i] == from {
          grid[i] := to;
        }
      }
    }

    /** After a death: the line is gone, and the player starts again from the border. */
    method Respawn()
      requires Valid() && Walled(grid[..])
      modifies this, grid
      ensures Valid() && Respawned(old(Now()), Now())
    {
      Replace(Trail, Black);
      px, py, dx, dy := CW / 2, 0, 0, 0;
      trailing := false;
      ghost var m := Now();
      InGrid(At(CW / 2, 0));
      MoveToBorder();
      assert TrailDropped(old(Now()), m) && MovedToBorder(m, Now());
    }

    /** Number the pieces of the black, and say which is to be kept. */
    method ChooseSide(labels: array<nat>) returns (winner: nat, ghost firsts: seq<nat>)
      requires Valid() && OnGrid(enemies) && labels.Length == CN && forall c: nat :: c < CN ==> labels[c] == 0
      modifies labels
      ensures Labelled(Cells(grid[..], Black), labels[..], firsts) && InOrder(Cells(grid[..], Black), labels[..], firsts)
      ensures Wins(labels[..], enemies, |firsts|, winner)
    {
      hide Labelled, InOrder, OnGrid;
      var compCells := new nat[MAX_COMP](i => 0);
      var n;
      n, firsts := LabelPieces(grid, labels, compCells);
      SizesAreLabels(Cells(grid[..], Black), labels[..], firsts);
      var compEnemy := CountEnemies(labels, enemies, n);
      winner := PickWinner(compEnemy, compCells, n);
      WinnerWins(labels[..], enemies, n, winner, compEnemy[..], compCells[..]);
    }

    static lemma SizesAreLabels(black: set<nat>, labels: seq<nat>, firsts: seq<nat>)
      requires Labelled(black, labels, firsts) && InOrder(black, labels, firsts)
      requires forall c :: c in black ==> c < CN
      ensures |firsts| <= MAX_COMP
      ensures forall k: nat :: k < |firsts| ==> |Piece(black, firsts[k])| == |SquaresOf(labels, k + 1)| > 0
    {
      forall k: nat | k < |firsts| ensures |Piece(black, firsts[k])| == |SquaresOf(labels, k + 1)| > 0 {
        LabelledPiece(black, labels, firsts, k);
        JoinedSelf(black, firsts[k]);
        assert firsts[k] in Piece(black, firsts[k]);
        assert Piece(black, firsts[k]) != {};
      }
    }

    static lemma WinnerWins(labels: seq<nat>, enemies: seq<Mover>, n: nat, winner: nat, compEnemy: seq<nat>, compCells: seq<nat>)
      requires |labels| == CN && OnGrid(enemies) && n <= MAX_COMP == |compEnemy| == |compCells|
      requires forall k: nat :: k < n ==> compEnemy[k] == Standing(labels, enemies, k + 1)
      requires forall k: nat :: k < n ==> compCells[k] == |SquaresOf(labels, k + 1)|
      requires if n == 0 then winner == 0 else 1 <= winner <= n
      requires forall k: nat :: k < n ==> !Beats((compEnemy[k], compCells[k]), (compEnemy[winner - 1], compCells[winner - 1]))
      requires forall k: nat :: k + 1 < winner ==> Beats((compEnemy[winner - 1], compCells[winner - 1]), (compEnemy[k], compCells[k]))
      ensures Wins(labels, enemies, n, winner)
    {
      forall id: nat | 1 <= id <= n ensures Key(labels, enemies, id) == (compEnemy[id - 1], compCells[id - 1]) {
        var k: nat := id - 1;
        assert compEnemy[k] == Standing(labels, enemies, k + 1);
      }
    }

    /** Claim every numbered piece but the winner. */
    method Capture(labels: array<nat>, winner: nat)
      requires Valid() && labels.Length == CN
      modifies grid
      ensures forall i: nat :: i < CN ==>
                grid[i] == if old(grid[i]) == Black && labels[i] != 0 && labels[i] != winner then Filled else old(grid[i])
    {
      for i := 0 to CN
        invariant forall j: nat :: j < i ==>
                    grid[j] == if old(grid[j]) == Black && labels[j] != 0 && labels[j] != winner then Filled else old(grid[j])
        invariant forall j: nat :: i <= j < CN ==> grid[j] == old(grid[j])
      {
        if grid[i] == Black && labels[i] != 0 && labels[i] != winner {
          grid[i] := Filled;
        }
      }
    }

    /** Keep the enemies that stand on the winner. */
    method RetainOn(labels: array<nat>, winner: nat)
      requires Valid() && labels.Length == CN && OnGrid(enemies)
      modifies this`enemies
      ensures enemies == Surviving(labels[..], old(enemies), winner)
    {
      var was := enemies;
      var kept := [];
      for i := 0 to |was|
        invariant kept == Surviving(labels[..], was[..i], winner)
      {
        assert was[..i + 1][..i] == was[..i];
        assert was[i] in was;
        if labels[At(was[i].x, was[i].y)] == winner {
          kept := kept + [was[i]];
        }
      }
      assert was[..|was|] == was;
      enemies := kept;
    }

    /** Close a finished line: it is claimed, and so is every side of the black but one. */
    method CloseCut()
      requires Valid() && OnGrid(enemies)
      modifies this`enemies, grid
      ensures Valid() && CutClosed(old(Now()), Now())
    {
      ghost var g := Now();
      Replace(Trail, Filled);
      assert Cells(grid[..], Black) == Cells(g.grid, Black);
      var labels := new nat[CN](i => 0);
      var winner; ghost var firsts;
      winner, firsts := ChooseSide(labels);
      Capture(labels, winner);
      RetainOn(labels, winner);
      assert CutAs(g, Now(), labels[..], firsts, winner);
    }

    predicate EnemyIsAt(x: int, y: int)
      reads this
      ensures EnemyIsAt(x, y) <==> EnemyAt(enemies, x, y)
    {
      exists i :: 0 <= i < |enemies| && enemies[i].x == x && enemies[i].y == y
    }

    /** One movement step in the current direction, laying or closing the line. */
    method StepPlayer()
      requires Valid() && Inv(Now())
      modifies this, grid
      ensures Valid() && PlayerStepped(old(Now()), Now()) && Inv(Now())
    {
      ghost var g := Now();
      StepWithin();
      PlayerStepKeepsInv(g, Now());
    }

    method StepWithin()
      requires Valid() && OnGrid(enemies)
      modifies this, grid
      ensures Valid() && PlayerStepped(old(Now()), Now())
    {
      if dx == 0 && dy == 0 {
        return;
      }
      var nx, ny := px + dx, py + dy;
      if nx < 0 || ny < 0 || nx >= CW || ny >= CH {
        dx, dy := 0, 0;
        return;
      }
      if EnemyIsAt(nx, ny) {
        dead := true;
        return;
      }
      var target := grid[At(nx, ny)];
      if trailing {
        match target
        case Trail =>
          dead := true;
        case Filled =>
          Close(nx, ny);
        case Black =>
          grid[At(nx, ny)] := Trail;
          px, py := nx, ny;
      } else {
        match target
        case Filled =>
          if OnBorder(grid[..], nx, ny) {
            px, py := nx, ny;
          } else {
            dx, dy := 0, 0;
          }
        case Black =>
          grid[At(nx, ny)] := Trail;
          px, py := nx, ny;
          trailing := true;
        case Trail =>
      }
    }

    /** Step off the line onto claimed ground. */
    method Close(nx: nat, ny: nat)
      requires Valid() && OnGrid(enemies) && nx < CW && ny < CH && grid[At(nx, ny)] == Filled
      modifies this, grid
      ensures Valid()
      ensures exists m: Game ::
                CutClosed(old(Now()).(px := nx, py := ny, trailing := false), m) && m.Shaped() && MovedToBorder(m, Now())
    {
      px, py := nx, ny;
      trailing := false;
      ghost var g := Now();
      CloseCut();
      ghost var m := Now();
      ClaimedStays(g, m, At(nx, ny));
      MoveToBorder();
      assert CutClosed(g, m) && m.Shaped() && MovedToBorder(m, Now());
    }

    /** One step of every enemy, until one of them reaches the line. */
    method StepEnemies()
      requires Valid() && Inv(Now())
      modifies this`enemies, this`dead
      ensures Valid() && EnemiesStepped(old(Now()), Now()) && Inv(Now())
      ensures exists n: nat :: Swept(old(Now()), Now(), n)
    {
      ghost var g := Now();
      SweepEnemies();
      EnemyStepKeepsInv(g, Now());
      ghost var n := SteppedIsSwept(g, Now());
    }

    /** The line is in one of the three squares the enemy could move to. */
    method Touches(e: Mover) returns (r: bool)
      requires Valid()
      ensures r == Breaches(grid[..], e)
    {
      hide Cell;
      return Cell(grid[..], e.x + e.vx, e.y) == Trail
          || Cell(grid[..], e.x, e.y + e.vy) == Trail
          || Cell(grid[..], e.x + e.vx, e.y + e.vy) == Trail;
    }

    /** Turn round on each axis that is blocked, and move if the way is then clear. */
    method Bounce(e: Mover) returns (f: Mover)
      requires Valid()
      ensures f == Bounced(grid[..], e)
    {
      var vx, vy := e.vx, e.vy;
      if Cell(grid[..], e.x + vx, e.y) != Black {
        vx := -vx;
      }
      if Cell(grid[..], e.x, e.y + vy) != Black {
        vy := -vy;
      }
      var tx, ty := e.x + vx, e.y + vy;
      if Cell(grid[..], tx, ty) == Black {
        return Mover(tx, ty, vx, vy);
      }
      return Mover(e.x, e.y, vx, vy);
    }

    method SweepEnemies()
      requires Valid() && Walled(grid[..]) && EnemiesOnBlack(grid[..], enemies)
      modifies this`enemies, this`dead
      ensures Valid() && EnemiesStepped(old(Now()), Now())
    {
      hide Bounced, Breaches, OnBlack, Walled;
      ghost var g := Now();
      for i: nat := 0 to |enemies|
        invariant Valid() && EnemiesSteppedTo(g, Now(), i) && dead == g.dead
      {
        var e := enemies[i];
        assert e in g.enemies;
        var breach := Touches(e);
        if breach {
          dead := true;
          assert EnemiesSteppedTo(g, Now(), i);
          return;
        }
        BouncedStaysOnBlack(grid[..], e);
        var moved := Bounce(e);
        enemies := enemies[i := moved];
        if trailing && enemies[i].x == px && enemies[i].y == py {
          dead := true;
          assert EnemiesSteppedTo(g, Now(), i + 1);
          return;
        }
      }
    }
  }
}
