/**
 The ground Block Cutter is played on: a grid of squares, which of them touch, how far apart they
 are on foot, and what it is for a stretch of ground to be in one piece.
 */
module CutterGrid {
  const CW: nat := 64
  const CH: nat := 32
  const CN: nat := CW * CH

  datatype Square = Black | Filled | Trail

  function X(i: nat): nat { i % CW }

  function Y(i: nat): nat { i / CW }

  function At(x: nat, y: nat): (i: nat)
    requires x < CW && y < CH
    ensures i < CN && X(i) == x && Y(i) == y
  {
    y * CW + x
  }

  lemma InGrid(i: nat)
    requires i < CN
    ensures X(i) < CW && Y(i) < CH && At(X(i), Y(i)) == i
  {
  }

  /** One step apart, up, down, left or right. */
  ghost predicate Adjacent(i: nat, j: nat) {
    j == i + CW || i == j + CW || (j == i + 1 && X(i) + 1 < CW) || (i == j + 1 && X(j) + 1 < CW)
  }

  /** A square's neighbours are the four beside it. */
  lemma FourNeighbours(c: nat, n: nat)
    requires c < CN && n < CN && Adjacent(c, n)
    ensures (Y(n) == Y(c) && (X(n) == X(c) - 1 || X(n) == X(c) + 1)) || (X(n) == X(c) && (Y(n) == Y(c) - 1 || Y(n) == Y(c) + 1))
  {
  }

  /** The squares of one kind. */
  ghost function Cells(grid: seq<Square>, q: Square): set<nat> {
    set i: nat | 0 <= i < |grid| && grid[i] == q
  }

  // ---------------------------------------------------------------------------
  // Walking
  // ---------------------------------------------------------------------------

  /** `b` is at most `k` steps from `a`, walking on `ground` only. */
  ghost predicate Near(ground: set<nat>, a: nat, b: nat, k: nat)
    decreases k
  {
    if k == 0 then a == b && a in ground
    else Near(ground, a, b, k - 1) || (b in ground && exists m: nat :: Near(ground, a, m, k - 1) && Adjacent(m, b))
  }

  /** `b` can be walked to from `a`. */
  ghost predicate Joined(ground: set<nat>, a: nat, b: nat) {
    exists k: nat :: Near(ground, a, b, k)
  }

  lemma {:induction false} NearOnGround(ground: set<nat>, a: nat, b: nat, k: nat)
    requires Near(ground, a, b, k)
    ensures a in ground && b in ground
    decreases k
  {
    if k > 0 {
      if Near(ground, a, b, k - 1) {
        NearOnGround(ground, a, b, k - 1);
      } else {
        var m: nat :| Near(ground, a, m, k - 1) && Adjacent(m, b);
        NearOnGround(ground, a, m, k - 1);
      }
    }
  }

  lemma {:induction false} NearGrows(ground: set<nat>, a: nat, b: nat, k: nat, l: nat)
    requires Near(ground, a, b, k) && k <= l
    ensures Near(ground, a, b, l)
    decreases l
  {
    if k < l {
      NearGrows(ground, a, b, k, l - 1);
    }
  }

  lemma {:induction false} NearThenNear(ground: set<nat>, a: nat, b: nat, c: nat, k: nat, l: nat)
    requires Near(ground, a, b, k) && Near(ground, b, c, l)
    ensures Near(ground, a, c, k + l)
    decreases l
  {
    if l > 0 {
      if Near(ground, b, c, l - 1) {
        NearThenNear(ground, a, b, c, k, l - 1);
      } else {
        var m: nat :| Near(ground, b, m, l - 1) && Adjacent(m, c);
        NearThenNear(ground, a, b, m, k, l - 1);
      }
    }
  }

  lemma {:induction false} OneStep(ground: set<nat>, a: nat, b: nat)
    requires a in ground && b in ground && Adjacent(a, b)
    ensures Near(ground, a, b, 1) && Joined(ground, a, b)
  {
    assert Near(ground, a, a, 0);
    assert Near(ground, a, b, 1);
  }

  /** A walk can be taken back. */
  lemma {:induction false} NearBack(ground: set<nat>, a: nat, b: nat, k: nat)
    requires Near(ground, a, b, k)
    ensures Near(ground, b, a, k)
    decreases k
  {
    if k > 0 {
      if Near(ground, a, b, k - 1) {
        NearBack(ground, a, b, k - 1);
      } else {
        var m: nat :| Near(ground, a, m, k - 1) && Adjacent(m, b);
        NearBack(ground, a, m, k - 1);
        NearOnGround(ground, a, m, k - 1);
        OneStep(ground, b, m);
        NearThenNear(ground, b, m, a, 1, k - 1);
      }
    }
  }

  lemma {:induction false} NearWider(ground: set<nat>, wider: set<nat>, a: nat, b: nat, k: nat)
    requires Near(ground, a, b, k) && ground <= wider
    ensures Near(wider, a, b, k)
    decreases k
  {
    if k > 0 {
      if Near(ground, a, b, k - 1) {
        NearWider(ground, wider, a, b, k - 1);
      } else {
        var m: nat :| Near(ground, a, m, k - 1) && Adjacent(m, b);
        NearWider(ground, wider, a, m, k - 1);
      }
    }
  }

  lemma JoinedSelf(ground: set<nat>, a: nat)
    requires a in ground
    ensures Joined(ground, a, a)
  {
    assert Near(ground, a, a, 0);
  }

  lemma JoinedOnGround(ground: set<nat>, a: nat, b: nat)
    requires Joined(ground, a, b)
    ensures a in ground && b in ground
  {
    var k: nat :| Near(ground, a, b, k);
    NearOnGround(ground, a, b, k);
  }

  lemma JoinedBack(ground: set<nat>, a: nat, b: nat)
    requires Joined(ground, a, b)
    ensures Joined(ground, b, a)
  {
    var k: nat :| Near(ground, a, b, k);
    NearBack(ground, a, b, k);
  }

  lemma JoinedThenJoined(ground: set<nat>, a: nat, b: nat, c: nat)
    requires Joined(ground, a, b) && Joined(ground, b, c)
    ensures Joined(ground, a, c)
  {
    var k: nat :| Near(ground, a, b, k);
    var l: nat :| Near(ground, b, c, l);
    NearThenNear(ground, a, b, c, k, l);
  }

  lemma JoinedWider(ground: set<nat>, wider: set<nat>, a: nat, b: nat)
    requires Joined(ground, a, b) && ground <= wider
    ensures Joined(wider, a, b)
  {
    var k: nat :| Near(ground, a, b, k);
    NearWider(ground, wider, a, b, k);
  }

  /** No step over `ground` leads out of `s`. */
  ghost predicate Closed(ground: set<nat>, s: set<nat>) {
    forall a, b :: a in s && b in ground && Adjacent(a, b) ==> b in s
  }

  lemma {:induction false} NearStaysIn(ground: set<nat>, s: set<nat>, a: nat, b: nat, k: nat)
    requires Closed(ground, s) && a in s && Near(ground, a, b, k)
    ensures b in s
    decreases k
  {
    if k > 0 {
      if Near(ground, a, b, k - 1) {
        NearStaysIn(ground, s, a, b, k - 1);
      } else {
        var m: nat :| Near(ground, a, m, k - 1) && Adjacent(m, b);
        NearStaysIn(ground, s, a, m, k - 1);
      }
    }
  }

  lemma JoinedStaysIn(ground: set<nat>, s: set<nat>, a: nat, b: nat)
    requires Closed(ground, s) && a in s && Joined(ground, a, b)
    ensures b in s
  {
    var k: nat :| Near(ground, a, b, k);
    NearStaysIn(ground, s, a, b, k);
  }

  // ---------------------------------------------------------------------------
  // One piece
  // ---------------------------------------------------------------------------

  ghost predicate Connected(s: set<nat>) {
    forall a, b :: a in s && b in s ==> Joined(s, a, b)
  }

  /** Ground every part of which can be walked to from ground in one piece is in one piece. */
  lemma ConnectedGrows(s: set<nat>, t: set<nat>)
    requires Connected(s) && s <= t
    requires forall c :: c in t ==> Attached(t, s, c)
    ensures Connected(t)
  {
    forall a, b | a in t && b in t ensures Joined(t, a, b) {
      assert Attached(t, s, a) && Attached(t, s, b);
      var f: nat :| f in s && Joined(t, a, f);
      var g: nat :| g in s && Joined(t, b, g);
      JoinedWider(s, t, f, g);
      JoinedBack(t, b, g);
      JoinedThenJoined(t, a, f, g);
      JoinedThenJoined(t, a, g, b);
    }
  }

  /** `c` can be walked to, over `t`, from somewhere in `s`. */
  ghost predicate Attached(t: set<nat>, s: set<nat>, c: nat) {
    exists f: nat :: f in s && Joined(t, c, f)
  }

  lemma AttachedSelf(t: set<nat>, s: set<nat>, c: nat)
    requires c in s && s <= t
    ensures Attached(t, s, c)
  {
    JoinedSelf(t, c);
  }

  lemma AttachedNext(t: set<nat>, s: set<nat>, c: nat, d: nat)
    requires c in t && d in t && Adjacent(c, d) && Attached(t, s, d)
    ensures Attached(t, s, c)
  {
    var f: nat :| f in s && Joined(t, d, f);
    OneStep(t, c, d);
    JoinedThenJoined(t, c, d, f);
  }

  /** One more square beside ground in one piece. */
  lemma ConnectedPlusOne(s: set<nat>, a: nat, b: nat)
    requires Connected(s) && a in s && Adjacent(a, b)
    ensures Connected(s + {b})
  {
    var t := s + {b};
    forall c | c in t ensures Attached(t, s, c) {
      if c in s {
        AttachedSelf(t, s, c);
      } else {
        AttachedSelf(t, s, a);
        assert Adjacent(b, a);
        AttachedNext(t, s, b, a);
      }
    }
    ConnectedGrows(s, t);
  }

  /** The piece of `ground` that `a` is in. */
  ghost function Piece(ground: set<nat>, a: nat): set<nat> {
    set c | c in ground && Joined(ground, a, c)
  }

  // ---------------------------------------------------------------------------
  // The edge of the grid and the border of the black
  // ---------------------------------------------------------------------------

  predicate OnEdge(i: nat) {
    X(i) == 0 || X(i) == CW - 1 || Y(i) == 0 || Y(i) == CH - 1
  }

  /** The outermost squares are claimed. */
  ghost predicate Walled(grid: seq<Square>) {
    |grid| == CN && forall i: nat :: i < CN && OnEdge(i) ==> grid[i] == Filled
  }

  /** The square at `(x, y)`; off the grid reads as claimed. */
  function Cell(grid: seq<Square>, x: int, y: int): Square
    requires |grid| == CN
  {
    if x < 0 || y < 0 || x >= CW || y >= CH then Filled else grid[At(x, y)]
  }

  predicate BlackInRow(grid: seq<Square>, x: int, y: int)
    requires |grid| == CN
  {
    Cell(grid, x - 1, y) == Black || Cell(grid, x, y) == Black || Cell(grid, x + 1, y) == Black
  }

  /** One of the nine squares around `(x, y)` is black. */
  predicate OnBorder(grid: seq<Square>, x: int, y: int)
    requires |grid| == CN
  {
    BlackInRow(grid, x, y - 1) || BlackInRow(grid, x, y) || BlackInRow(grid, x, y + 1)
  }

  /** `(x, y)` is a square of the grid, and black. */
  ghost predicate BlackAt(grid: seq<Square>, x: int, y: int)
    requires |grid| == CN
  {
    0 <= x < CW && 0 <= y < CH && grid[y * CW + x] == Black
  }

  /** A border square is one with a black square among the nine around it. */
  lemma OnBorderIff(grid: seq<Square>, x: int, y: int)
    requires |grid| == CN
    ensures OnBorder(grid, x, y) <==> exists dx, dy :: -1 <= dx <= 1 && -1 <= dy <= 1 && BlackNear(grid, x, y, dx, dy)
  {
    hide Cell, BlackAt;
    if dx, dy :| -1 <= dx <= 1 && -1 <= dy <= 1 && BlackNear(grid, x, y, dx, dy) {
      BlackRow(grid, x, y, dy);
    }
    if OnBorder(grid, x, y) {
      var dy := if BlackInRow(grid, x, y - 1) then -1 else if BlackInRow(grid, x, y) then 0 else 1;
      BlackRow(grid, x, y, dy);
    }
  }

  lemma BlackRow(grid: seq<Square>, x: int, y: int, dy: int)
    requires |grid| == CN
    ensures BlackInRow(grid, x, y + dy)
       <==> BlackNear(grid, x, y, -1, dy) || BlackNear(grid, x, y, 0, dy) || BlackNear(grid, x, y, 1, dy)
  {
    CellIsBlack(grid, x - 1, y + dy);
    CellIsBlack(grid, x, y + dy);
    CellIsBlack(grid, x + 1, y + dy);
  }

  lemma CellIsBlack(grid: seq<Square>, x: int, y: int)
    requires |grid| == CN
    ensures Cell(grid, x, y) == Black <==> BlackAt(grid, x, y)
  {
  }

  ghost predicate BlackNear(grid: seq<Square>, x: int, y: int, dx: int, dy: int)
    requires |grid| == CN
  {
    BlackAt(grid, x + dx, y + dy)
  }

  ghost predicate BorderCell(grid: seq<Square>, i: nat)
    requires |grid| == CN
  {
    i < CN && OnBorder(grid, X(i), Y(i))
  }

  /** Going left from a black square, claimed ground is met, and the first of it is on the border. */
  lemma {:induction false} BlackHasBorder(grid: seq<Square>, i: nat) returns (f: nat)
    requires Walled(grid) && i < CN && grid[i] == Black && Cells(grid, Trail) == {}
    ensures f < CN && grid[f] == Filled && BorderCell(grid, f)
    decreases X(i)
  {
    InGrid(i);
    assert !OnEdge(i);
    var l: nat := i - 1;
    assert X(l) == X(i) - 1 && Y(l) == Y(i);
    if grid[l] == Black {
      f := BlackHasBorder(grid, l);
    } else {
      assert grid[l] != Trail by {
        assert l !in Cells(grid, Trail);
      }
      f := l;
      BesideBlack(grid, l);
    }
  }

  lemma BesideBlack(grid: seq<Square>, l: nat)
    requires |grid| == CN && l + 1 < CN && X(l) + 1 < CW && grid[l + 1] == Black
    ensures BorderCell(grid, l)
  {
    InGrid(l + 1);
    assert BlackInRow(grid, X(l), Y(l));
  }
}
