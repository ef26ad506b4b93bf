/**
 What the heap's operations do, as relations between its states, and what every run keeps.

 A state lists the free blocks, the extents handed out, and the regions lent to the heap.
 Each relation says which bytes become free or stop being free; by
 `FreeList.CanonicalForm` that fixes the whole free list.
 */
module HeapModel {
  import opened Arithmetic
  import opened FreeList
  import opened Wrappers

  const USIZE_MAX: nat := 0xFFFF_FFFF

  predicate PowerOfTwo(n: nat) {
    n == 1 || (0 < n && n % 2 == 0 && PowerOfTwo(n / 2))
  }

  /** `n` rounded up to a multiple of `to`: the least one that is not below `n`. */
  function AlignUp(n: nat, to: nat): (r: nat)
    requires 0 < to
    ensures n <= r < n + to && r % to == 0
  {
    var top := n + to - 1;
    QuotientAndRest(top, to);
    top - top % to
  }

  lemma {:induction false} AlignUpIsLeast(n: nat, to: nat, p: nat)
    requires 0 < to && n <= p && p % to == 0
    ensures AlignUp(n, to) <= p
  {
    var r := AlignUp(n, to);
    if p < r {
      QuotientOfMultiple(r, to);
      QuotientOfMultiple(p, to);
      SmallMultiple(r / to - p / to, to, r - p);
    }
  }

  lemma {:induction false} MultipleOfAligned(n: nat, to: nat)
    requires 0 < to && Aligned(to) && n % to == 0
    ensures Aligned(n)
  {
    AlignedIsMultiple(to);
    QuotientOfMultiple(n, to);
    assert n == n / to * (to / ALIGN * ALIGN) == n / to * (to / ALIGN) * ALIGN;
    MultipleMod(n / to * (to / ALIGN), ALIGN);
    AlignedIsMultiple(n);
  }

  /** A payload alignment of at least a word is a whole number of words. */
  lemma {:induction false} PowerOfTwoOfWords(n: nat)
    requires PowerOfTwo(n) && ALIGN <= n
    ensures Aligned(n)
  {
    AlignedIsMultiple(n);
    assert PowerOfTwo(n / 2) && (n / 2) % 2 == 0;
  }

  /** The whole words in `n` bytes. */
  function AlignDown(n: nat): (r: nat)
    ensures r <= n < r + ALIGN && Aligned(r)
  {
    AlignedIsMultiple(n - n % ALIGN);
    n - n % ALIGN
  }

  /** A block handed out: its whole extent, the padding in front of its header, what was asked. */
  datatype Extent = Extent(block: Block, pad: nat, want: nat) {
    /** The address given to the caller. */
    function Ptr(): nat { block.at + pad + HEADER }

    predicate Ok() {
      && block.Ok() && Aligned(pad)
      && 0 < want && pad + HEADER + want <= block.size
    }
  }

  function Blocks(live: seq<Extent>): (bs: seq<Block>)
    ensures |bs| == |live| && forall i :: 0 <= i < |live| ==> bs[i] == live[i].block
  {
    if live == [] then [] else [live[0].block] + Blocks(live[1..])
  }

  /** `limit` is the end of the address space; the rest is what the heap keeps. */
  datatype State = State(
    limit: nat, free: seq<Block>, live: seq<Extent>, regions: seq<Block>, used: nat, highWater: nat, size: nat)

  /** A heap that has been given no memory yet. */
  ghost predicate Bare(s: State) {
    && s.free == [] && s.live == [] && s.regions == []
    && s.used == 0 && s.highWater == 0 && s.size == 0
  }

  // ---------------------------------------------------------------------------
  // The operations
  // ---------------------------------------------------------------------------

  /** The whole words of `len` bytes at `start`, if they can hold a block at all. */
  function RegionOf(start: nat, len: nat): Option<Block> {
    var base := AlignUp(start, ALIGN);
    var end := if start + len <= USIZE_MAX then start + len else USIZE_MAX;
    if end <= base || end - base < MIN_BLOCK then None
    else Some(Block(base, AlignDown(end - base)))
  }

  function Payload(b: Block, align: nat): nat
    requires 0 < align
  {
    AlignUp(b.at + HEADER, align)
  }

  /** What a request takes out of `b`, from its start to the end of the payload. */
  function Needed(b: Block, want: nat, align: nat): nat
    requires 0 < align
  {
    Payload(b, align) - b.at + want
  }

  predicate Fits(b: Block, want: nat, align: nat)
    requires 0 < align
  {
    Needed(b, want, align) <= b.size
  }

  function Waste(b: Block, want: nat, align: nat): nat
    requires 0 < align && Fits(b, want, align)
  {
    b.size - Needed(b, want, align)
  }

  /** Every byte of the header and of the payload at `p` is free. */
  ghost predicate RoomAt(f: seq<Block>, p: nat, want: nat) {
    HEADER <= p && forall a :: p - HEADER <= a < p + want ==> Covers(f, a)
  }

  /** Some aligned payload, anywhere, has room for itself and its header. */
  ghost predicate HasRoom(f: seq<Block>, want: nat, align: nat)
    requires 0 < align
  {
    exists p: nat :: p % align == 0 && RoomAt(f, p, want)
  }

  /** Block `k` holds the request, and no block leaves less behind (nor as little, earlier). */
  ghost predicate Tightest(f: seq<Block>, k: nat, want: nat, align: nat)
    requires 0 < align
  {
    && k < |f| && Fits(f[k], want, align)
    && (forall i :: 0 <= i < |f| && Fits(f[i], want, align) ==>
          Waste(f[k], want, align) <= Waste(f[i], want, align))
    && (forall i :: 0 <= i < k && Fits(f[i], want, align) ==>
          Waste(f[k], want, align) < Waste(f[i], want, align))
  }

  /** The extent a request takes from block `b`: all of it when the rest could not be a block. */
  function ExtentIn(b: Block, want: nat, align: nat): Extent
    requires 0 < align && Fits(b, want, align)
  {
    var needed := Needed(b, want, align);
    Extent(Block(b.at, if b.size - needed >= MIN_BLOCK then needed else b.size),
           Payload(b, align) - HEADER - b.at, want)
  }

  function Max(a: nat, b: nat): nat { if a < b then b else a }

  ghost predicate FreeBytes(s: State, t: State, gained: seq<Block>, lost: seq<Block>) {
    && WellFormed(t.free)
    && forall a :: Covers(t.free, a) <==> (Covers(s.free, a) || Covers(gained, a)) && !Covers(lost, a)
  }

  ghost predicate Added(s: State, region: Block, t: State) {
    && FreeBytes(s, t, [region], [])
    && t == s.(free := t.free, regions := s.regions + [region], size := s.size + region.size)
  }

  ghost predicate Allocated(s: State, want: nat, align: nat, result: Option<nat>, t: State)
    requires 0 < align
  {
    match result
    case None => t == s && !HasRoom(s.free, want, align)
    case Some(p) =>
      exists k: nat :: Tightest(s.free, k, want, align) && TookFrom(s, s.free[k], want, align, p, t)
  }

  ghost predicate TookFrom(s: State, b: Block, want: nat, align: nat, p: nat, t: State)
    requires 0 < align && Fits(b, want, align)
  {
    var e := ExtentIn(b, want, align);
    && p == e.Ptr()
    && FreeBytes(s, t, [], [e.block])
    && t == s.(free := t.free, live := s.live + [e], used := s.used + e.block.size,
               highWater := Max(s.highWater, s.used + e.block.size))
  }

  function Without<T>(xs: seq<T>, i: nat): seq<T>
    requires i < |xs|
  {
    xs[..i] + xs[i + 1..]
  }

  ghost predicate Freed(s: State, i: nat, t: State)
    requires i < |s.live|
  {
    && FreeBytes(s, t, [s.live[i].block], [])
    && t == s.(free := t.free, live := Without(s.live, i),
               used := if s.live[i].block.size <= s.used then s.used - s.live[i].block.size else 0)
  }

  /** Region `i` can go: it lies in a free block, and nothing too small to track is left. */
  ghost predicate Removable(s: State, i: nat)
    requires i < |s.regions|
  {
    exists k :: 0 <= k < |s.free| && Cuttable(s.free[k], s.regions[i])
  }

  ghost predicate Removed(s: State, i: nat, ok: bool, t: State)
    requires i < |s.regions|
  {
    && ok == Removable(s, i)
    && (if ok then
          && FreeBytes(s, t, [], [s.regions[i]])
          && s.regions[i].size <= s.size
          && t == s.(free := t.free, regions := Without(s.regions, i), size := s.size - s.regions[i].size)
        else t == s)
  }

  // ---------------------------------------------------------------------------
  // What every state keeps
  // ---------------------------------------------------------------------------

  predicate Separate(b: Block, c: Block) {
    b.End() <= c.at || c.End() <= b.at
  }

  ghost predicate AllSeparate(bs: seq<Block>) {
    forall i, j :: 0 <= i < j < |bs| ==> Separate(bs[i], bs[j])
  }

  ghost predicate Inside(bs: seq<Block>, limit: nat) {
    forall i :: 0 <= i < |bs| ==> bs[i].End() <= limit
  }

  ghost predicate AllOk(bs: seq<Block>) {
    forall i :: 0 <= i < |bs| ==> bs[i].Ok()
  }

  /** Free blocks and live extents exactly partition the regions. */
  ghost predicate Partition(free: seq<Block>, live: seq<Block>, regions: seq<Block>) {
    && (forall a :: Covers(regions, a) <==> Covers(free, a) || Covers(live, a))
    && (forall a :: !(Covers(free, a) && Covers(live, a)))
  }

  ghost predicate Inv(s: State) {
    && WellFormed(s.free)
    && (forall i :: 0 <= i < |s.live| ==> s.live[i].Ok())
    && AllSeparate(Blocks(s.live))
    && AllOk(s.regions) && AllSeparate(s.regions) && Inside(s.regions, s.limit)
    && Partition(s.free, Blocks(s.live), s.regions)
    && s.used == SumSizes(Blocks(s.live)) <= s.highWater
    && s.size == s.used + SumSizes(s.free) == SumSizes(s.regions)
  }

  lemma {:induction false} ClearOfUncovered(f: seq<Block>, b: Block)
    requires AllOk(f) && b.Ok()
    requires forall a :: b.Holds(a) ==> !Covers(f, a)
    ensures Clear(f, b)
  {
    forall i | 0 <= i < |f| ensures f[i].End() <= b.at || b.End() <= f[i].at {
      var a := Max(f[i].at, b.at);
      assert f[i].Holds(a) ==> Covers(f, a);
      assert b.Holds(a) && f[i].Holds(a) ==> false;
    }
  }

  lemma {:induction false} UncoveredOfClear(f: seq<Block>, b: Block, a: int)
    requires Clear(f, b) && b.Holds(a)
    ensures !Covers(f, a)
  {
  }

  /** Gaining the bytes of one block means the list `Inserted` builds. */
  lemma {:induction false} GainIsInsert(s: State, t: State, b: Block)
    requires WellFormed(s.free) && b.Ok() && FreeBytes(s, t, [b], [])
    requires forall a :: b.Holds(a) ==> !Covers(s.free, a)
    ensures t.free == Inserted(s.free, b)
    ensures SumSizes(t.free) == SumSizes(s.free) + b.size
  {
    ClearOfUncovered(s.free, b);
    InsertedSound(s.free, b);
    forall a ensures Covers(t.free, a) <==> Covers(Inserted(s.free, b), a) {
      CoversOne(b, a);
    }
    CanonicalForm(t.free, Inserted(s.free, b));
  }

  /** Losing part of one block means the list `Carved` builds. */
  lemma {:induction false} LossIsCarve(s: State, t: State, k: nat, b: Block)
    requires WellFormed(s.free) && b.Ok() && k < |s.free| && Cuttable(s.free[k], b)
    requires FreeBytes(s, t, [], [b])
    ensures t.free == Carved(s.free, k, b)
    ensures SumSizes(t.free) + b.size == SumSizes(s.free)
  {
    CarvedSound(s.free, k, b);
    forall a ensures Covers(t.free, a) <==> Covers(Carved(s.free, k, b), a) {
      CoversOne(b, a);
    }
    CanonicalForm(t.free, Carved(s.free, k, b));
  }

  lemma {:induction false} BareInv(s: State)
    requires Bare(s)
    ensures Inv(s)
  {
  }
}
