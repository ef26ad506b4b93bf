/**
 What holds of the heap over every run: free blocks and live extents partition the regions,
 a refusal means there really is no room, the list depends on the free bytes alone, and a
 lent region comes back exactly when it can.
 */
module HeapSafety {
  import opened Arithmetic
  import opened FreeList
  import opened Wrappers
  import opened HeapModel

  // ---------------------------------------------------------------------------
  // Every operation keeps the invariant
  // ---------------------------------------------------------------------------

  lemma {:induction false} AllSeparatePlus(bs: seq<Block>, b: Block)
    requires AllSeparate(bs) && Clear(bs, b)
    ensures AllSeparate(bs + [b])
  {
  }

  lemma {:induction false} AllSeparateWithout(bs: seq<Block>, i: nat)
    requires AllSeparate(bs) && i < |bs|
    ensures AllSeparate(Without(bs, i))
  {
  }

  /** Of separate blocks, dropping one drops exactly its bytes. */
  lemma {:induction false} CoversWithout(bs: seq<Block>, i: nat, a: int)
    requires AllSeparate(bs) && i < |bs|
    ensures Covers(Without(bs, i), a) <==> Covers(bs, a) && !bs[i].Holds(a)
  {
    assert bs == bs[..i] + [bs[i]] + bs[i + 1..];
    CoversThree(bs[..i], [bs[i]], bs[i + 1..], a);
    CoversConcat(bs[..i], bs[i + 1..], a);
    CoversOne(bs[i], a);
    if Covers(bs[..i], a) {
      var j :| 0 <= j < i && bs[j].Holds(a);
      assert Separate(bs[j], bs[i]);
    }
    if Covers(bs[i + 1..], a) {
      var j :| 0 <= j < |bs[i + 1..]| && bs[i + 1..][j].Holds(a);
      assert Separate(bs[i], bs[i + 1 + j]);
    }
  }

  lemma {:induction false} SumWithout(bs: seq<Block>, i: nat)
    requires i < |bs|
    ensures SumSizes(bs) == SumSizes(Without(bs, i)) + bs[i].size
  {
    assert bs == bs[..i] + [bs[i]] + bs[i + 1..];
    SumSizesThree(bs[..i], [bs[i]], bs[i + 1..]);
    SumSizesConcat(bs[..i], bs[i + 1..]);
    SumOfFew([bs[i]]);
  }

  lemma {:induction false} BlocksWithout(live: seq<Extent>, i: nat)
    requires i < |live|
    ensures Blocks(Without(live, i)) == Without(Blocks(live), i)
  {
  }

  lemma {:induction false} SumPlus(bs: seq<Block>, b: Block)
    ensures SumSizes(bs + [b]) == SumSizes(bs) + b.size
  {
    SumSizesConcat(bs, [b]);
    SumOfFew([b]);
  }

  lemma {:induction false} CoversPlus(bs: seq<Block>, b: Block, a: int)
    ensures Covers(bs + [b], a) <==> Covers(bs, a) || b.Holds(a)
  {
    CoversConcat(bs, [b], a);
    CoversOne(b, a);
  }

  /** Lending a region that no byte of the heap's regions is in. */
  lemma {:induction false} AddKeepsInv(s: State, r: Block, t: State)
    requires Inv(s) && r.Ok() && r.End() <= s.limit && Added(s, r, t)
    requires forall a :: r.Holds(a) ==> !Covers(s.regions, a)
    ensures Inv(t)
  {
    assert forall a :: r.Holds(a) ==> !Covers(s.free, a);
    GainIsInsert(s, t, r);
    ClearOfUncovered(s.regions, r);
    AllSeparatePlus(s.regions, r);
    SumPlus(s.regions, r);
    forall a
      ensures Covers(t.regions, a) <==> Covers(s.regions, a) || r.Holds(a)
      ensures Covers([r], a) <==> r.Holds(a)
    {
      CoversPlus(s.regions, r, a);
      CoversOne(r, a);
    }
  }

  /** The extent a fitting block gives up is a valid one, at the alignment asked for. */
  lemma {:induction false} ExtentInOk(b: Block, want: nat, align: nat)
    requires b.Ok() && 0 < align && Aligned(align) && 0 < want && Aligned(want)
    requires Fits(b, want, align)
    ensures ExtentIn(b, want, align).Ok()
    ensures Cuttable(b, ExtentIn(b, want, align).block)
    ensures ExtentIn(b, want, align).Ptr() == Payload(b, align)
  {
    var p, needed := Payload(b, align), Needed(b, want, align);
    MultipleOfAligned(p, align);
    assert Aligned(HEADER) && Aligned(MIN_BLOCK);
    AlignedSum(p, b.at);
    AlignedSum(p - b.at, HEADER);
    AlignedSum(p - b.at, want);
  }

  lemma {:induction false} TakeKeepsInv(s: State, k: nat, want: nat, align: nat, p: nat, t: State)
    requires Inv(s) && 0 < align && Aligned(align) && 0 < want && Aligned(want)
    requires k < |s.free| && Fits(s.free[k], want, align) && TookFrom(s, s.free[k], want, align, p, t)
    ensures Inv(t)
  {
    var e := ExtentIn(s.free[k], want, align);
    ExtentInOk(s.free[k], want, align);
    LossIsCarve(s, t, k, e.block);
    FreeIsClearOfLive(s, k, e.block);
    AllSeparatePlus(Blocks(s.live), e.block);
    assert Blocks(t.live) == Blocks(s.live) + [e.block];
    SumPlus(Blocks(s.live), e.block);
    TakePartition(s, k, e.block, t.free, Blocks(t.live));
  }

  lemma {:induction false} FreeIsClearOfLive(s: State, k: nat, b: Block)
    requires Inv(s) && k < |s.free| && b.Ok() && (forall a :: b.Holds(a) ==> s.free[k].Holds(a))
    ensures Clear(Blocks(s.live), b)
  {
    forall a | b.Holds(a) ensures !Covers(Blocks(s.live), a) {
      assert s.free[k].Holds(a);
      assert Covers(s.free, a);
    }
    ClearOfUncovered(Blocks(s.live), b);
  }

  lemma {:induction false} TakePartition(s: State, k: nat, b: Block, free: seq<Block>, live: seq<Block>)
    requires Partition(s.free, Blocks(s.live), s.regions)
    requires k < |s.free| && (forall a :: b.Holds(a) ==> s.free[k].Holds(a))
    requires forall a :: Covers(free, a) <==> (Covers(s.free, a) || Covers([], a)) && !Covers([b], a)
    requires live == Blocks(s.live) + [b]
    ensures Partition(free, live, s.regions)
  {
    forall a
      ensures Covers(live, a) <==> Covers(Blocks(s.live), a) || b.Holds(a)
      ensures Covers([b], a) <==> b.Holds(a)
      ensures b.Holds(a) ==> Covers(s.free, a)
    {
      CoversPlus(Blocks(s.live), b, a);
      CoversOne(b, a);
    }
  }

  lemma {:induction false} AllocKeepsInv(s: State, want: nat, align: nat, result: Option<nat>, t: State)
    requires Inv(s) && 0 < align && Aligned(align) && 0 < want && Aligned(want)
    requires Allocated(s, want, align, result, t)
    ensures Inv(t)
  {
    if result.Some? {
      var k: nat :| Tightest(s.free, k, want, align) && TookFrom(s, s.free[k], want, align, result.value, t);
      TakeKeepsInv(s, k, want, align, result.value, t);
    }
  }

  lemma {:induction false} FreeKeepsInv(s: State, i: nat, t: State)
    requires Inv(s) && i < |s.live| && Freed(s, i, t)
    ensures Inv(t)
  {
    var b := s.live[i].block;
    var bs := Blocks(s.live);
    BlocksWithout(s.live, i);
    SumWithout(bs, i);
    AllSeparateWithout(bs, i);
    forall a
      ensures Covers(Blocks(t.live), a) <==> Covers(bs, a) && !b.Holds(a)
      ensures Covers([b], a) <==> b.Holds(a)
      ensures b.Holds(a) ==> Covers(bs, a)
    {
      CoversWithout(bs, i, a);
      CoversOne(b, a);
      assert bs[i] == b;
    }
    GainIsInsert(s, t, b);
  }

  lemma {:induction false} RemoveKeepsInv(s: State, i: nat, ok: bool, t: State)
    requires Inv(s) && i < |s.regions| && Removed(s, i, ok, t)
    ensures Inv(t)
  {
    if ok {
      var r := s.regions[i];
      var k :| 0 <= k < |s.free| && Cuttable(s.free[k], r);
      LossIsCarve(s, t, k, r);
      SumWithout(s.regions, i);
      AllSeparateWithout(s.regions, i);
      forall a
        ensures Covers(t.regions, a) <==> Covers(s.regions, a) && !r.Holds(a)
        ensures Covers([r], a) <==> r.Holds(a)
        ensures r.Holds(a) ==> Covers(s.free, a)
      {
        CoversWithout(s.regions, i, a);
        CoversOne(r, a);
        assert r.Holds(a) ==> s.free[k].Holds(a);
      }
    }
  }

  datatype Op =
    | Add(region: Block)
    | Alloc(want: nat, align: nat, result: Option<nat>)
    | Free(index: nat)
    | Remove(index: nat, ok: bool)
    | WipeFree

  /** One call, made as the heap's safety contracts ask. */
  ghost predicate Step(s: State, op: Op, t: State) {
    match op
    case Add(r) => r.Ok() && r.End() <= s.limit && (forall a :: r.Holds(a) ==> !Covers(s.regions, a)) && Added(s, r, t)
    case Alloc(want, align, result) =>
      && 0 < align && Aligned(align) && 0 < want && Aligned(want)
      && Allocated(s, want, align, result, t)
    case Free(i) => i < |s.live| && Freed(s, i, t)
    case Remove(i, ok) => i < |s.regions| && Removed(s, i, ok, t)
    case WipeFree => t == s
  }

  ghost predicate RunFrom(s: State, ops: seq<Op>, states: seq<State>) {
    && |states| == |ops| + 1
    && states[0] == s
    && forall i :: 0 <= i < |ops| ==> Step(states[i], ops[i], states[i + 1])
  }

  /** A run of a heap that starts with no memory. */
  ghost predicate Run(ops: seq<Op>, states: seq<State>) {
    states != [] && Bare(states[0]) && RunFrom(states[0], ops, states)
  }

  /** Every state of every run: sorted, coalesced, partitioned, and the books balance. */
  lemma {:induction false} RunsAreSafe(ops: seq<Op>, states: seq<State>, n: nat)
    requires Run(ops, states) && n < |states|
    ensures Inv(states[n])
    decreases n
  {
    if n == 0 {
      BareInv(states[0]);
    } else {
      RunsAreSafe(ops, states, n - 1);
      var s, op, t := states[n - 1], ops[n - 1], states[n];
      assert Step(s, op, t);
      match op
      case Add(r) => AddKeepsInv(s, r, t);
      case Alloc(want, align, result) => AllocKeepsInv(s, want, align, result, t);
      case Free(i) => FreeKeepsInv(s, i, t);
      case Remove(i, ok) => RemoveKeepsInv(s, i, ok, t);
      case WipeFree =>
    }
  }

  // ---------------------------------------------------------------------------
  // A refusal means there is no room
  // ---------------------------------------------------------------------------

  /** Some block fits exactly when some aligned payload anywhere has room for it and its header. */
  lemma {:induction false} SomeBlockFitsIffRoom(f: seq<Block>, want: nat, align: nat)
    requires WellFormed(f) && 0 < align && 0 < want
    ensures (exists k :: 0 <= k < |f| && Fits(f[k], want, align))
       <==> HasRoom(f, want, align)
  {
    if k :| 0 <= k < |f| && Fits(f[k], want, align) {
      var p := Payload(f[k], align);
      forall a | p - HEADER <= a < p + want ensures Covers(f, a) {
        assert f[k].Holds(a);
      }
      assert RoomAt(f, p, want);
    }
    if p: nat :| p % align == 0 && RoomAt(f, p, want) {
      var k := StretchInOneBlock(f, p - HEADER, p + want);
      AlignUpIsLeast(f[k].at + HEADER, align, p);
      assert Fits(f[k], want, align);
    }
  }

  /** What `largest_free` reports is exact: at word alignment, a request fits up to it and no further. */
  lemma {:induction false} LargestFreeIsExact(f: seq<Block>, largest: nat, want: nat)
    requires WellFormed(f) && 0 < want
    requires forall i :: 0 <= i < |f| ==> f[i].size - HEADER <= largest
    requires largest == 0 || exists i :: 0 <= i < |f| && f[i].size - HEADER == largest
    ensures want <= largest <==> HasRoom(f, want, ALIGN)
  {
    SomeBlockFitsIffRoom(f, want, ALIGN);
    forall i | 0 <= i < |f| ensures Needed(f[i], want, ALIGN) == HEADER + want {
      AlignedIsMultiple(f[i].at);
      AlignUpIsLeast(f[i].at + HEADER, ALIGN, f[i].at + HEADER);
    }
    if want <= largest {
      var i :| 0 <= i < |f| && f[i].size - HEADER == largest;
      assert Fits(f[i], want, ALIGN);
    }
  }

  // ---------------------------------------------------------------------------
  // The list depends on the free bytes alone
  // ---------------------------------------------------------------------------

  /** Two extents freed in either order leave the same list. */
  lemma {:induction false} FreesCommute(f: seq<Block>, b: Block, c: Block)
    requires WellFormed(f) && b.Ok() && c.Ok() && Clear(f, b) && Clear(f, c) && Separate(b, c)
    ensures WellFormed(Inserted(f, b)) && WellFormed(Inserted(f, c))
    ensures Inserted(Inserted(f, b), c) == Inserted(Inserted(f, c), b)
  {
    InsertedTwice(f, b, c);
    InsertedTwice(f, c, b);
    CanonicalForm(Inserted(Inserted(f, b), c), Inserted(Inserted(f, c), b));
  }

  lemma {:induction false} InsertedTwice(f: seq<Block>, b: Block, c: Block)
    requires WellFormed(f) && b.Ok() && c.Ok() && Clear(f, b) && Clear(f, c) && Separate(b, c)
    ensures WellFormed(Inserted(f, b)) && WellFormed(Inserted(Inserted(f, b), c))
    ensures forall a :: Covers(Inserted(Inserted(f, b), c), a) <==> Covers(f, a) || b.Holds(a) || c.Holds(a)
  {
    InsertedSound(f, b);
    forall a | c.Holds(a) ensures !Covers(Inserted(f, b), a) {
      UncoveredOfClear(f, c, a);
    }
    ClearOfUncovered(Inserted(f, b), c);
    InsertedSound(Inserted(f, b), c);
  }

  /** Freeing extent `i` and then `j`, or `j` and then `i`, ends in the same state. */
  lemma {:induction false} FreedStepsCommute(s: State, i: nat, j: nat, si: State, t: State, sj: State, u: State)
    requires Inv(s) && j < i < |s.live|
    requires Freed(s, i, si) && Freed(si, j, t)
    requires Freed(s, j, sj) && Freed(sj, i - 1, u)
    ensures t == u
  {
    hide Inv, FreeBytes;
    FreeKeepsInv(s, i, si);
    FreeKeepsInv(s, j, sj);
    FreedUsed(s, i, si);
    FreedUsed(si, j, t);
    FreedUsed(s, j, sj);
    FreedUsed(sj, i - 1, u);
    WithoutTwo(s.live, i, j);
    SameGains(s, si, t, s.live[i].block, sj, u, s.live[j].block);
  }

  lemma WithoutTwo<T>(xs: seq<T>, i: nat, j: nat)
    requires j < i < |xs|
    ensures Without(Without(xs, i), j) == Without(Without(xs, j), i - 1)
  {
    var both := xs[..j] + xs[j + 1..i] + xs[i + 1..];
    assert Without(Without(xs, i), j) == both;
    assert Without(Without(xs, j), i - 1) == both;
  }

  lemma {:induction false} FreedUsed(s: State, i: nat, t: State)
    requires Inv(s) && i < |s.live| && Freed(s, i, t)
    ensures t.used + s.live[i].block.size == s.used
  {
    SumWithout(Blocks(s.live), i);
  }

  lemma SameGains(s: State, si: State, t: State, b: Block, sj: State, u: State, c: Block)
    requires FreeBytes(s, si, [b], []) && FreeBytes(si, t, [c], [])
    requires FreeBytes(s, sj, [c], []) && FreeBytes(sj, u, [b], [])
    ensures t.free == u.free
  {
    CanonicalForm(t.free, u.free);
  }

  /** The list a heap starts with when it is lent `regions` one by one. */
  ghost function StartList(regions: seq<Block>): (f: seq<Block>)
    requires AllOk(regions) && AllSeparate(regions)
    ensures WellFormed(f) && forall a :: Covers(f, a) <==> Covers(regions, a)
    decreases |regions|
  {
    if regions == [] then [] else
      var last := |regions| - 1;
      var f := StartList(regions[..last]);
      assert Clear(f, regions[last]) by {
        forall a | regions[last].Holds(a) ensures !Covers(regions[..last], a) {
          assert forall i :: 0 <= i < last ==> Separate(regions[i], regions[last]);
        }
        ClearOfUncovered(f, regions[last]);
      }
      assert forall a :: Covers(Inserted(f, regions[last]), a) <==> Covers(regions, a) by {
        InsertedSound(f, regions[last]);
        assert regions == regions[..last] + [regions[last]];
        forall a ensures Covers(regions, a) <==> Covers(regions[..last], a) || regions[last].Holds(a) {
          CoversPlus(regions[..last], regions[last], a);
        }
      }
      InsertedSound(f, regions[last]);
      Inserted(f, regions[last])
  }

  /**
   Whenever nothing is handed out, whatever happened before and in whatever order blocks were
   freed, the free list is exactly the one the current regions would give a fresh heap.
   */
  lemma {:induction false} AllFreedRestoresStart(ops: seq<Op>, states: seq<State>, n: nat)
    requires Run(ops, states) && n < |states| && states[n].live == []
    ensures AllOk(states[n].regions) && AllSeparate(states[n].regions)
    ensures states[n].free == StartList(states[n].regions)
    ensures states[n].used == 0
  {
    RunsAreSafe(ops, states, n);
    var s := states[n];
    assert Blocks(s.live) == [];
    CanonicalForm(s.free, StartList(s.regions));
  }

  // ---------------------------------------------------------------------------
  // A lent region comes back exactly when it can
  // ---------------------------------------------------------------------------

  ghost predicate AllFree(f: seq<Block>, lo: int, hi: int) {
    forall a :: lo <= a < hi ==> Covers(f, a)
  }

  /**
   A region can go exactly when every byte of it is free and, on each side, either the next
   byte is not free or there are enough free bytes for a block.
   */
  lemma {:induction false} RemovableIffAllFree(s: State, i: nat)
    requires Inv(s) && i < |s.regions|
    ensures var r := s.regions[i];
            Removable(s, i) <==>
            && AllFree(s.free, r.at, r.End())
            && (Covers(s.free, r.at - 1) ==> AllFree(s.free, r.at - MIN_BLOCK, r.at))
            && (Covers(s.free, r.End()) ==> AllFree(s.free, r.End(), r.End() + MIN_BLOCK))
  {
    var f, r := s.free, s.regions[i];
    forall k | 0 <= k < |f| && Cuttable(f[k], r) ensures AllFree(f, r.at, r.End()) {
      assert forall a :: r.at <= a < r.End() ==> f[k].Holds(a);
    }
    if AllFree(f, r.at, r.End()) {
      var k := StretchInOneBlock(f, r.at, r.End());
      NeighbourBefore(f, k, r);
      NeighbourAfter(f, k, r);
      forall j | 0 <= j < |f| && Cuttable(f[j], r) ensures j == k {
        assert f[j].Holds(r.at) && f[k].Holds(r.at);
      }
    }
  }

  lemma {:induction false} NeighbourBefore(f: seq<Block>, k: nat, r: Block)
    requires WellFormed(f) && r.Ok() && k < |f| && f[k].at <= r.at && r.End() <= f[k].End()
    ensures (r.at == f[k].at || f[k].at + MIN_BLOCK <= r.at)
       <==> (Covers(f, r.at - 1) ==> AllFree(f, r.at - MIN_BLOCK, r.at))
  {
    if r.at != f[k].at {
      assert f[k].Holds(r.at - 1);
      if f[k].at + MIN_BLOCK <= r.at {
        assert forall a :: r.at - MIN_BLOCK <= a < r.at ==> f[k].Holds(a);
      } else {
        assert !Covers(f, f[k].at - 1);
      }
    } else {
      assert !Covers(f, r.at - 1);
    }
  }

  lemma {:induction false} NeighbourAfter(f: seq<Block>, k: nat, r: Block)
    requires WellFormed(f) && r.Ok() && k < |f| && f[k].at <= r.at && r.End() <= f[k].End()
    ensures (r.End() == f[k].End() || r.End() + MIN_BLOCK <= f[k].End())
       <==> (Covers(f, r.End()) ==> AllFree(f, r.End(), r.End() + MIN_BLOCK))
  {
    assert !Covers(f, f[k].End());
    if r.End() != f[k].End() {
      assert f[k].Holds(r.End());
      if r.End() + MIN_BLOCK <= f[k].End() {
        assert forall a :: r.End() <= a < r.End() + MIN_BLOCK ==> f[k].Holds(a);
      }
    }
  }

  /**
   Once a region has been taken back, no byte of it is free, handed out or lent -- then, and
   after any further run that does not lend those bytes again.
   */
  lemma {:induction false} TakenBackStaysOut(s: State, i: nat, t: State, ops: seq<Op>, later: seq<State>, a: int)
    requires Inv(s) && i < |s.regions| && Removed(s, i, true, t) && s.regions[i].Holds(a)
    requires RunFrom(t, ops, later)
    requires forall j :: 0 <= j < |ops| && ops[j].Add? ==> !ops[j].region.Holds(a)
    ensures var u := later[|ops|];
            Inv(u) && !Covers(u.regions, a) && !Covers(u.free, a) && !Covers(Blocks(u.live), a)
    decreases |ops|
  {
    if ops == [] {
      RemoveKeepsInv(s, i, true, t);
      CoversWithout(s.regions, i, a);
    } else {
      var n := |ops| - 1;
      RunPrefix(t, ops, later);
      TakenBackStaysOut(s, i, t, ops[..n], later[..n + 1], a);
      assert Step(later[n], ops[n], later[n + 1]);
      OutStaysOut(later[n], ops[n], later[n + 1], a);
    }
  }

  lemma {:induction false} RunPrefix(s: State, ops: seq<Op>, states: seq<State>)
    requires RunFrom(s, ops, states) && ops != []
    ensures RunFrom(s, ops[..|ops| - 1], states[..|ops|])
  {
    var n := |ops| - 1;
    forall i | 0 <= i < n ensures Step(states[..n + 1][i], ops[..n][i], states[..n + 1][i + 1]) {
      assert Step(states[i], ops[i], states[i + 1]);
    }
  }

  /** A byte no region has stays out of the heap unless a call lends it. */
  lemma {:induction false} OutStaysOut(u: State, op: Op, v: State, a: int)
    requires Inv(u) && Step(u, op, v) && !Covers(u.regions, a)
    requires op.Add? ==> !op.region.Holds(a)
    ensures Inv(v) && !Covers(v.regions, a)
  {
    match op
    case Add(r) => AddKeepsInv(u, r, v); CoversPlus(u.regions, r, a);
    case Alloc(want, align, result) => AllocKeepsInv(u, want, align, result, v);
    case Free(j) => FreeKeepsInv(u, j, v);
    case Remove(j, ok) =>
      RemoveKeepsInv(u, j, ok, v);
      CoversWithout(u.regions, j, a);
    case WipeFree =>
  }
}
