/**
 The heap's free list as a value: an address-ordered sequence of blocks that never touch.

 Everything the allocator does to its list is fixed by the set of free addresses: two
 well-formed lists over the same addresses are the same list (`CanonicalForm`).
 */
module FreeList {
  const ALIGN: nat := 4
  const HEADER: nat := 8
  const MIN_BLOCK: nat := 8

  /** A whole number of words. */
  predicate Aligned(n: nat) {
    n == 0 || (ALIGN <= n && Aligned(n - ALIGN))
  }

  lemma {:induction false} AlignedIsMultiple(n: nat)
    ensures Aligned(n) <==> n % ALIGN == 0
  {
    if ALIGN <= n {
      AlignedIsMultiple(n - ALIGN);
    }
  }

  lemma {:induction false} AlignedPlus(m: nat, n: nat)
    requires Aligned(m) && Aligned(n)
    ensures Aligned(m + n)
  {
    if 0 < m {
      AlignedPlus(m - ALIGN, n);
    }
  }

  lemma {:induction false} AlignedMinus(m: nat, n: nat)
    requires Aligned(m) && Aligned(n) && n <= m
    ensures Aligned(m - n)
  {
    if 0 < n {
      AlignedMinus(m - ALIGN, n - ALIGN);
    }
  }

  lemma {:induction false} AlignedSum(m: nat, n: nat)
    requires Aligned(m) && Aligned(n)
    ensures Aligned(m + n) && (n <= m ==> Aligned(m - n))
  {
    AlignedPlus(m, n);
    if n <= m {
      AlignedMinus(m, n);
    }
  }

  datatype Block = Block(at: nat, size: nat) {
    function End(): nat { at + size }

    predicate Holds(a: int) { at <= a < at + size }

    /** Non-null, word-aligned, a whole number of words, and able to hold a list node. */
    predicate Ok() { 0 < at && Aligned(at) && Aligned(size) && MIN_BLOCK <= size }
  }

  /** `a` is one of the bytes of the blocks in `f`. */
  ghost predicate Covers(f: seq<Block>, a: int) {
    exists i :: 0 <= i < |f| && f[i].Holds(a)
  }

  /** Strictly ascending, and no block reaches the one after it. */
  ghost predicate Apart(f: seq<Block>) {
    forall i, j :: 0 <= i < j < |f| ==> f[i].End() < f[j].at
  }

  ghost predicate WellFormed(f: seq<Block>) {
    && (forall i :: 0 <= i < |f| ==> f[i].Ok())
    && Apart(f)
  }

  /** No byte of `b` is on the list. */
  ghost predicate Clear(f: seq<Block>, b: Block) {
    forall i :: 0 <= i < |f| ==> f[i].End() <= b.at || b.End() <= f[i].at
  }

  function SumSizes(f: seq<Block>): nat {
    if f == [] then 0 else f[0].size + SumSizes(f[1..])
  }

  lemma {:induction false} SumSizesConcat(f: seq<Block>, g: seq<Block>)
    ensures SumSizes(f + g) == SumSizes(f) + SumSizes(g)
  {
    if f == [] {
      assert f + g == g;
    } else {
      assert (f + g)[1..] == f[1..] + g;
      SumSizesConcat(f[1..], g);
    }
  }

  // ---------------------------------------------------------------------------
  // The list is a function of the free bytes
  // ---------------------------------------------------------------------------

  lemma {:induction false} CoversConcat(f: seq<Block>, g: seq<Block>, a: int)
    ensures Covers(f + g, a) <==> Covers(f, a) || Covers(g, a)
  {
    if Covers(f, a) {
      var i :| 0 <= i < |f| && f[i].Holds(a);
      assert (f + g)[i].Holds(a);
    }
    if Covers(g, a) {
      var i :| 0 <= i < |g| && g[i].Holds(a);
      assert (f + g)[|f| + i].Holds(a);
    }
  }

  lemma {:induction false} CoversOne(b: Block, a: int)
    ensures Covers([b], a) <==> b.Holds(a)
  {
    assert b.Holds(a) ==> [b][0].Holds(a);
  }

  lemma {:induction false} WellFormedConcat(f: seq<Block>, g: seq<Block>)
    requires WellFormed(f) && WellFormed(g)
    requires f != [] && g != [] ==> f[|f| - 1].End() < g[0].at
    ensures WellFormed(f + g)
  {
    var h := f + g;
    forall i, j | 0 <= i < j < |h| ensures h[i].End() < h[j].at {
      if i < |f| <= j {
        assert f[i].End() <= f[|f| - 1].End() && g[0].at <= g[j - |f|].at;
      }
    }
  }

  lemma {:induction false} WellFormedSplit(f: seq<Block>, k: nat)
    requires WellFormed(f) && k <= |f|
    ensures WellFormed(f[..k]) && WellFormed(f[k..]) && f == f[..k] + f[k..]
  {
  }

  lemma {:induction false} CoversTail(f: seq<Block>, a: int)
    requires WellFormed(f) && f != []
    ensures Covers(f[1..], a) <==> Covers(f, a) && !f[0].Holds(a)
  {
    CoversConcat([f[0]], f[1..], a);
    CoversOne(f[0], a);
    assert f == [f[0]] + f[1..];
  }

  /** The first block of a well-formed list is fixed by the bytes the list covers. */
  lemma {:induction false} SameFirstBlock(f: seq<Block>, g: seq<Block>)
    requires WellFormed(f) && WellFormed(g) && f != [] && g != []
    requires forall a :: Covers(f, a) <==> Covers(g, a)
    ensures f[0].at <= g[0].at && (f[0].at == g[0].at ==> f[0].size <= g[0].size)
  {
    assert g[0].Holds(g[0].at);
    assert Covers(g, g[0].at) && Covers(f, g[0].at);
    if f[0].at == g[0].at && g[0].size < f[0].size {
      var e := g[0].End();
      assert f[0].Holds(e);
      assert Covers(f, e);
    }
  }

  lemma {:induction false} SameTails(f: seq<Block>, g: seq<Block>)
    requires WellFormed(f) && WellFormed(g) && f != [] && g != [] && f[0] == g[0]
    requires forall a :: Covers(f, a) <==> Covers(g, a)
    ensures WellFormed(f[1..]) && WellFormed(g[1..])
    ensures forall a :: Covers(f[1..], a) <==> Covers(g[1..], a)
  {
    forall a ensures Covers(f[1..], a) <==> Covers(g[1..], a) {
      CoversTail(f, a);
      CoversTail(g, a);
    }
  }

  /** Two well-formed lists over the same bytes are the same list. */
  lemma {:induction false} CanonicalForm(f: seq<Block>, g: seq<Block>)
    requires WellFormed(f) && WellFormed(g)
    requires forall a :: Covers(f, a) <==> Covers(g, a)
    ensures f == g
  {
    if f == [] {
      if g != [] {
        assert g[0].Holds(g[0].at);
        assert Covers(g, g[0].at);
      }
    } else {
      assert f[0].Holds(f[0].at);
      assert Covers(f, f[0].at) && Covers(g, f[0].at);
      SameFirstBlock(f, g);
      SameFirstBlock(g, f);
      SameTails(f, g);
      CanonicalForm(f[1..], g[1..]);
      assert f == [f[0]] + f[1..] && g == [g[0]] + g[1..];
    }
  }

  // ---------------------------------------------------------------------------
  // Putting an extent on the list, and cutting one out of a block
  // ---------------------------------------------------------------------------

  /** How many blocks start at or before `base`. */
  function Position(f: seq<Block>, base: nat): (k: nat)
    requires WellFormed(f)
    ensures k <= |f|
    ensures forall i :: 0 <= i < k ==> f[i].at <= base
    ensures forall i :: k <= i < |f| ==> base < f[i].at
  {
    if f == [] || base < f[0].at then 0 else
      assert forall i :: 0 <= i < |f[1..]| ==> f[1..][i] == f[i + 1];
      1 + Position(f[1..], base)
  }

  /** `f` with the extent `b` added at place `k`, merged with whichever neighbours it touches. */
  function Merged(f: seq<Block>, k: nat, b: Block): seq<Block>
    requires k <= |f|
  {
    var down := 0 < k && f[k - 1].End() == b.at;
    var up := k < |f| && b.End() == f[k].at;
    var lo := if down then f[k - 1].at else b.at;
    var hi := if up then f[k].End() else b.End();
    f[..if down then k - 1 else k] + [Block(lo, if lo <= hi then hi - lo else 0)] + f[if up then k + 1 else k..]
  }

  function Inserted(f: seq<Block>, b: Block): seq<Block>
    requires WellFormed(f)
  {
    Merged(f, Position(f, b.at), b)
  }

  lemma CoversNone(a: int)
    ensures !Covers([], a)
  {
  }

  lemma {:induction false} CoversThree(pre: seq<Block>, mid: seq<Block>, post: seq<Block>, a: int)
    ensures Covers(pre + mid + post, a) <==> Covers(pre, a) || Covers(mid, a) || Covers(post, a)
  {
    CoversConcat(pre + mid, post, a);
    CoversConcat(pre, mid, a);
  }

  lemma {:induction false} SumSizesThree(pre: seq<Block>, mid: seq<Block>, post: seq<Block>)
    ensures SumSizes(pre + mid + post) == SumSizes(pre) + SumSizes(mid) + SumSizes(post)
  {
    SumSizesConcat(pre + mid, post);
    SumSizesConcat(pre, mid);
  }

  lemma {:induction false} WellFormedThree(pre: seq<Block>, mid: seq<Block>, post: seq<Block>)
    requires WellFormed(pre) && WellFormed(mid) && WellFormed(post)
    requires pre != [] && mid != [] ==> pre[|pre| - 1].End() < mid[0].at
    requires mid != [] && post != [] ==> mid[|mid| - 1].End() < post[0].at
    requires pre != [] && post != [] ==> pre[|pre| - 1].End() < post[0].at
    ensures WellFormed(pre + mid + post)
  {
    WellFormedConcat(pre, mid);
    WellFormedConcat(pre + mid, post);
  }

  /** Where an insertion at place `k` starts and stops replacing blocks. */
  function MergeFrom(f: seq<Block>, k: nat, b: Block): nat
    requires k <= |f|
  {
    if 0 < k && f[k - 1].End() == b.at then k - 1 else k
  }

  function MergeTo(f: seq<Block>, k: nat, b: Block): nat
    requires k <= |f|
  {
    if k < |f| && b.End() == f[k].at then k + 1 else k
  }

  /** The one block an insertion leaves in the place of those it merges. */
  lemma {:induction false} MergedMiddle(f: seq<Block>, k: nat, b: Block) returns (mid: Block)
    requires WellFormed(f) && b.Ok() && k <= |f|
    requires 0 < k ==> f[k - 1].End() <= b.at
    requires k < |f| ==> b.End() <= f[k].at
    ensures mid.at == (if MergeFrom(f, k, b) < k then f[k - 1].at else b.at)
    ensures mid.End() == (if k < MergeTo(f, k, b) then f[k].End() else b.End())
    ensures Merged(f, k, b) == f[..MergeFrom(f, k, b)] + [mid] + f[MergeTo(f, k, b)..]
  {
    mid := Merged(f, k, b)[MergeFrom(f, k, b)];
  }

  lemma {:induction false} MergedCovers(f: seq<Block>, k: nat, b: Block, a: int)
    requires WellFormed(f) && b.Ok() && k <= |f|
    requires 0 < k ==> f[k - 1].End() <= b.at
    requires k < |f| ==> b.End() <= f[k].at
    ensures Covers(Merged(f, k, b), a) <==> Covers(f, a) || b.Holds(a)
  {
    hide Covers, WellFormed, Merged;
    var m, n := MergeFrom(f, k, b), MergeTo(f, k, b);
    var mid := MergedMiddle(f, k, b);
    RunInList(f, m, k, n);
    CoversThree(f[..m], f[m..n], f[n..], a);
    CoversThree(f[..m], [mid], f[n..], a);
    CoversOne(mid, a);
    CoversConcat(f[m..k], f[k..n], a);
    if m < k {
      CoversOne(f[m], a);
      assert f[m..k] == [f[m]];
    }
    if k < n {
      CoversOne(f[k], a);
      assert f[k..n] == [f[k]];
    }
    CoversNone(a);
  }

  lemma RunInList(f: seq<Block>, m: nat, k: nat, n: nat)
    requires m <= k <= n <= |f|
    ensures f == f[..m] + f[m..n] + f[n..] && f[m..n] == f[m..k] + f[k..n]
  {
  }

  lemma {:induction false} MergedMiddleSize(f: seq<Block>, k: nat, b: Block, mid: Block)
    requires k <= |f|
    requires 0 < k ==> f[k - 1].End() <= b.at
    requires k < |f| ==> b.End() <= f[k].at
    requires mid.at == (if MergeFrom(f, k, b) < k then f[k - 1].at else b.at)
    requires mid.End() == (if k < MergeTo(f, k, b) then f[k].End() else b.End())
    ensures mid.size == b.size + SumSizes(f[MergeFrom(f, k, b)..MergeTo(f, k, b)])
  {
    var run := f[MergeFrom(f, k, b)..MergeTo(f, k, b)];
    SumOfFew(run);
    assert MergeFrom(f, k, b) < k ==> run[0] == f[k - 1];
    assert k < MergeTo(f, k, b) ==> run[|run| - 1] == f[k];
  }

  lemma {:induction false} MergedSum(f: seq<Block>, k: nat, b: Block)
    requires WellFormed(f) && b.Ok() && k <= |f|
    requires 0 < k ==> f[k - 1].End() <= b.at
    requires k < |f| ==> b.End() <= f[k].at
    ensures SumSizes(Merged(f, k, b)) == SumSizes(f) + b.size
  {
    hide WellFormed, SumSizes, Merged;
    var m, n := MergeFrom(f, k, b), MergeTo(f, k, b);
    var mid := MergedMiddle(f, k, b);
    MergedMiddleSize(f, k, b, mid);
    ReplacedSum(f[..m], f[m..n], mid, f[n..]);
    RunInList(f, m, k, n);
  }

  lemma {:induction false} ReplacedSum(pre: seq<Block>, run: seq<Block>, mid: Block, post: seq<Block>)
    ensures SumSizes(pre + [mid] + post) + SumSizes(run) == SumSizes(pre + run + post) + mid.size
  {
    SumSizesThree(pre, run, post);
    SumSizesThree(pre, [mid], post);
    SumOfFew([mid]);
  }

  lemma {:induction false} MergedWellFormed(f: seq<Block>, k: nat, b: Block)
    requires WellFormed(f) && b.Ok() && k <= |f|
    requires 0 < k ==> f[k - 1].End() <= b.at
    requires k < |f| ==> b.End() <= f[k].at
    ensures WellFormed(Merged(f, k, b))
  {
    hide Merged, Aligned;
    var m, n := MergeFrom(f, k, b), MergeTo(f, k, b);
    var mid := MergedMiddle(f, k, b);
    assert mid.size == b.size + (if m < k then f[m].size else 0) + (if k < n then f[k].size else 0);
    AlignedSum(b.size, if m < k then f[m].size else 0);
    AlignedSum(b.size + (if m < k then f[m].size else 0), if k < n then f[k].size else 0);
    ReplacedWellFormed(f, m, mid, n);
  }

  lemma {:induction false} ReplacedWellFormed(f: seq<Block>, m: nat, mid: Block, n: nat)
    requires WellFormed(f) && m <= n <= |f| && mid.Ok()
    requires 0 < m ==> f[m - 1].End() < mid.at
    requires n < |f| ==> mid.End() < f[n].at
    ensures WellFormed(f[..m] + [mid] + f[n..])
  {
    WellFormedThree(f[..m], [mid], f[n..]);
  }

  lemma {:induction false} InsertedSound(f: seq<Block>, b: Block)
    requires WellFormed(f) && b.Ok() && Clear(f, b)
    ensures WellFormed(Inserted(f, b))
    ensures forall a :: Covers(Inserted(f, b), a) <==> Covers(f, a) || b.Holds(a)
    ensures SumSizes(Inserted(f, b)) == SumSizes(f) + b.size
  {
    var k := Position(f, b.at);
    MergedWellFormed(f, k, b);
    MergedSum(f, k, b);
    forall a ensures Covers(Inserted(f, b), a) <==> Covers(f, a) || b.Holds(a) {
      MergedCovers(f, k, b, a);
    }
  }

  lemma {:induction false} SumOfFew(f: seq<Block>)
    ensures |f| == 0 ==> SumSizes(f) == 0
    ensures |f| == 1 ==> SumSizes(f) == f[0].size
    ensures |f| == 2 ==> SumSizes(f) == f[0].size + f[1].size
  {
    if 1 <= |f| <= 2 {
      assert SumSizes(f) == f[0].size + SumSizes(f[1..]);
      assert |f| == 2 ==> f[1..] == [f[1]];
    }
  }

  /** The list piece for the bytes `lo..hi`: nothing when there are none. */
  function Piece(lo: nat, hi: nat): seq<Block>
  {
    if lo < hi then [Block(lo, hi - lo)] else []
  }

  /** What a cut leaves of its own block. */
  function Remains(b: Block, cut: Block): seq<Block> {
    Piece(b.at, cut.at) + Piece(cut.End(), b.End())
  }

  /** `f` with the bytes of `cut` taken out of block `k`. */
  function Carved(f: seq<Block>, k: nat, cut: Block): seq<Block>
    requires k < |f|
  {
    f[..k] + Remains(f[k], cut) + f[k + 1..]
  }

  /** `cut` lies in block `b`, and what it leaves on either side is nothing or a whole block. */
  predicate Cuttable(b: Block, cut: Block) {
    && b.at <= cut.at && cut.End() <= b.End()
    && (cut.at == b.at || b.at + MIN_BLOCK <= cut.at)
    && (cut.End() == b.End() || cut.End() + MIN_BLOCK <= b.End())
  }

  lemma {:induction false} CoversPiece(lo: nat, hi: nat, a: int)
    ensures Covers(Piece(lo, hi), a) <==> lo <= a < hi
  {
    if lo < hi {
      CoversOne(Block(lo, hi - lo), a);
    }
  }

  lemma {:induction false} RemainsCovers(b: Block, cut: Block, a: int)
    requires Cuttable(b, cut)
    ensures Covers(Remains(b, cut), a) <==> b.Holds(a) && !cut.Holds(a)
  {
    CoversConcat(Piece(b.at, cut.at), Piece(cut.End(), b.End()), a);
    CoversPiece(b.at, cut.at, a);
    CoversPiece(cut.End(), b.End(), a);
  }

  lemma {:induction false} PieceOk(lo: nat, hi: nat)
    requires 0 < lo && Aligned(lo) && Aligned(hi)
    requires lo == hi || lo + MIN_BLOCK <= hi
    ensures WellFormed(Piece(lo, hi)) && SumSizes(Piece(lo, hi)) == hi - lo
  {
    AlignedSum(hi, lo);
    SumOfFew(Piece(lo, hi));
  }

  lemma {:induction false} RemainsWellFormed(b: Block, cut: Block)
    requires b.Ok() && cut.Ok() && Cuttable(b, cut)
    ensures var mid := Remains(b, cut);
            && WellFormed(mid) && SumSizes(mid) + cut.size == b.size
            && (mid != [] ==> b.at <= mid[0].at && mid[|mid| - 1].End() <= b.End())
  {
    AlignedSum(cut.at, cut.size);
    AlignedSum(b.at, b.size);
    PieceOk(b.at, cut.at);
    PieceOk(cut.End(), b.End());
    WellFormedConcat(Piece(b.at, cut.at), Piece(cut.End(), b.End()));
    SumSizesConcat(Piece(b.at, cut.at), Piece(cut.End(), b.End()));
  }

  lemma {:induction false} CarvedCovers(f: seq<Block>, k: nat, cut: Block, a: int)
    requires WellFormed(f) && k < |f| && cut.Ok() && Cuttable(f[k], cut)
    ensures Covers(Carved(f, k, cut), a) <==> Covers(f, a) && !cut.Holds(a)
  {
    var pre, mid, post := f[..k], Remains(f[k], cut), f[k + 1..];
    assert f == pre + [f[k]] + post;
    RemainsCovers(f[k], cut, a);
    CoversThree(pre, mid, post, a);
    CoversThree(pre, [f[k]], post, a);
    CoversOne(f[k], a);
    assert cut.Holds(a) ==> f[k].Holds(a);
  }

  lemma {:induction false} CarvedSum(f: seq<Block>, k: nat, cut: Block)
    requires WellFormed(f) && k < |f| && cut.Ok() && Cuttable(f[k], cut)
    ensures SumSizes(Carved(f, k, cut)) + cut.size == SumSizes(f)
  {
    var pre, mid, post := f[..k], Remains(f[k], cut), f[k + 1..];
    assert f == pre + [f[k]] + post;
    RemainsWellFormed(f[k], cut);
    SumSizesThree(pre, mid, post);
    SumSizesThree(pre, [f[k]], post);
    SumOfFew([f[k]]);
  }

  lemma {:induction false} CarvedSound(f: seq<Block>, k: nat, cut: Block)
    requires WellFormed(f) && k < |f| && cut.Ok() && Cuttable(f[k], cut)
    ensures WellFormed(Carved(f, k, cut))
    ensures forall a :: Covers(Carved(f, k, cut), a) <==> Covers(f, a) && !cut.Holds(a)
    ensures SumSizes(Carved(f, k, cut)) + cut.size == SumSizes(f)
  {
    hide WellFormed, Covers, SumSizes, Carved, Cuttable;
    forall a ensures Covers(Carved(f, k, cut), a) <==> Covers(f, a) && !cut.Holds(a) {
      CarvedCovers(f, k, cut, a);
    }
    CarvedSum(f, k, cut);
    CarvedWellFormed(f, k, cut);
  }

  lemma {:induction false} CarvedWellFormed(f: seq<Block>, k: nat, cut: Block)
    requires WellFormed(f) && k < |f| && cut.Ok() && Cuttable(f[k], cut)
    ensures WellFormed(Carved(f, k, cut))
  {
    RemainsWellFormed(f[k], cut);
    WellFormedThree(f[..k], Remains(f[k], cut), f[k + 1..]);
  }

  /** A stretch of free bytes lies inside one block: nothing free is split between two. */
  lemma {:induction false} StretchInOneBlock(f: seq<Block>, lo: int, hi: int) returns (k: nat)
    requires WellFormed(f) && lo < hi
    requires forall a :: lo <= a < hi ==> Covers(f, a)
    ensures k < |f| && f[k].at <= lo && hi <= f[k].End()
  {
    assert Covers(f, lo);
    k :| k < |f| && f[k].Holds(lo);
    assert f[k].End() < hi ==> Covers(f, f[k].End());
  }
}
