/**
 The allocator itself: a free list threaded through the free bytes of memory, in place.

 `mem` is the address space, one byte a cell; the ghost fields say what the bytes mean.
 */
module HeapAllocator {
  import opened Arithmetic
  import opened Bytes
  import opened FreeList
  import opened Wrappers
  import opened HeapModel
  import opened HeapSafety
  import opened HeapRequests

  /** The address of block `k`, or null past the end. */
  function NodeAt(f: seq<Block>, k: nat): nat {
    if k < |f| then f[k].at else 0
  }

  /** Block `i` of `f` is spelled out in its own first two words. */
  ghost predicate NodeHolds(m: seq<byte>, f: seq<Block>, i: nat)
    requires i < |f| && f[i].at + MIN_BLOCK <= |m|
  {
    Word(m, f[i].at) == f[i].size && Word(m, f[i].at + 4) == NodeAt(f, i + 1)
  }

  /** Following `head` through memory `m` reads out exactly the list `f`. */
  ghost predicate Threaded(m: seq<byte>, head: nat, f: seq<Block>) {
    && WellFormed(f) && Inside(f, |m|)
    && head == NodeAt(f, 0)
    && forall i :: 0 <= i < |f| ==> NodeHolds(m, f, i)
  }

  /** The header in front of a live payload says where its extent starts and how long it is. */
  ghost predicate HeaderHolds(m: seq<byte>, e: Extent) {
    && e.Ok() && e.block.End() <= |m|
    && Word(m, e.Ptr() - HEADER) == e.block.size
    && Word(m, e.Ptr() - 4) == e.pad
  }

  /** Bytes outside `lo..hi` are the same in both memories. */
  ghost predicate SameOutside(m: seq<byte>, n: seq<byte>, lo: int, hi: int) {
    |m| == |n| && forall a :: 0 <= a < |m| && !(lo <= a < hi) ==> m[a] == n[a]
  }

  ghost predicate SameNode(m: seq<byte>, n: seq<byte>, at: nat) {
    |m| == |n| && at + MIN_BLOCK <= |m| && forall a :: at <= a < at + MIN_BLOCK ==> m[a] == n[a]
  }

  /** A node whose bytes are untouched, in a list that follows it with the same block. */
  lemma {:induction false} NodeStays(m0: seq<byte>, m1: seq<byte>, f: seq<Block>, i: nat, g: seq<Block>, j: nat)
    requires i < |f| && j < |g| && f[i] == g[j] && NodeAt(f, i + 1) == NodeAt(g, j + 1)
    requires SameNode(m0, m1, f[i].at) && NodeHolds(m0, f, i)
    ensures NodeHolds(m1, g, j)
  {
    SameBytesSameWord(m0, m1, f[i].at);
    SameBytesSameWord(m0, m1, f[i].at + 4);
  }

  /** `mid`, spelled out by the new memory, followed by blocks `n..` of the old list. */
  lemma {:induction false} TailThreaded(m0: seq<byte>, m1: seq<byte>, f: seq<Block>, mid: seq<Block>, n: nat, head0: nat)
    requires Threaded(m0, head0, f) && n <= |f| && |m0| == |m1|
    requires WellFormed(mid + f[n..]) && Inside(mid + f[n..], |m1|)
    requires forall i :: 0 <= i < |mid| ==> NodeHolds(m1, mid + f[n..], i)
    requires forall i :: n <= i < |f| ==> SameNode(m0, m1, f[i].at)
    ensures Threaded(m1, NodeAt(mid + f[n..], 0), mid + f[n..])
  {
    var tail := mid + f[n..];
    forall j | |mid| <= j < |tail| ensures NodeHolds(m1, tail, j) {
      NodeStays(m0, m1, f, j - |mid| + n, tail, j);
    }
  }

  /** Blocks `..m` of the old list, the last of them now leading to `tail`. */
  lemma {:induction false} PrefixThreaded(
      m0: seq<byte>, m1: seq<byte>, f: seq<Block>, m: nat, tail: seq<Block>, head0: nat, head1: nat)
    requires Threaded(m0, head0, f) && m <= |f| && |m0| == |m1|
    requires Threaded(m1, NodeAt(tail, 0), tail) && WellFormed(f[..m] + tail)
    requires head1 == (if m == 0 then NodeAt(tail, 0) else head0)
    requires 0 < m ==> NodeHolds(m1, f[..m] + tail, m - 1)
    requires forall i :: 0 <= i < m - 1 ==> SameNode(m0, m1, f[i].at)
    ensures Threaded(m1, head1, f[..m] + tail)
  {
    var g := f[..m] + tail;
    forall i | 0 <= i < |g| ensures g[i].End() <= |m1| && NodeHolds(m1, g, i) {
      if i < m - 1 {
        NodeStays(m0, m1, f, i, g, i);
      } else if i >= m {
        NodeStays(m1, m1, tail, i - m, g, i);
      }
    }
  }

  /** `m1` differs from `m0` in the node at `b.at`, which says where `b` and what it takes in end. */
  ghost predicate WroteNode(m0: seq<byte>, m1: seq<byte>, f: seq<Block>, k: nat, b: Block)
    requires k <= |f| && b.at + MIN_BLOCK <= |m1|
  {
    var n := MergeTo(f, k, b);
    && SameOutside(m0, m1, b.at, b.at + MIN_BLOCK)
    && Word(m1, b.at) == b.size + (if k < n then f[k].size else 0)
    && Word(m1, b.at + 4) == NodeAt(f, n)
  }

  /** `b` goes between blocks `k - 1` and `k`. */
  ghost predicate Between(f: seq<Block>, k: nat, b: Block) {
    && k <= |f|
    && (0 < k ==> f[k - 1].End() <= b.at)
    && (k < |f| ==> b.End() <= f[k].at)
  }

  lemma {:induction false} BetweenOfClear(f: seq<Block>, b: Block)
    requires WellFormed(f) && b.Ok() && Clear(f, b)
    ensures Between(f, Position(f, b.at), b)
  {
    var k := Position(f, b.at);
    assert k < |f| ==> b.at < f[k].at;
  }

  /** Memory at `at` spells out a node of this size and successor. */
  ghost predicate NodeSays(m: seq<byte>, at: nat, size: nat, next: nat) {
    at + MIN_BLOCK <= |m| && Word(m, at) == size && Word(m, at + 4) == next
  }

  /** Blocks `m..n` of a threaded list replaced by the one block `mid`. */
  lemma {:induction false} ReplacedThreaded(
      m0: seq<byte>, m1: seq<byte>, f: seq<Block>, m: nat, mid: Block, n: nat, head0: nat, head1: nat)
    requires Threaded(m0, head0, f) && |m0| == |m1| && m <= n <= |f|
    requires WellFormed([mid] + f[n..]) && WellFormed(f[..m] + ([mid] + f[n..])) && mid.End() <= |m1|
    requires NodeSays(m1, mid.at, mid.size, NodeAt(f, n))
    requires forall i :: n <= i < |f| || 0 <= i < m - 1 ==> SameNode(m0, m1, f[i].at)
    requires head1 == if m == 0 then mid.at else head0
    requires m > 0 ==> NodeSays(m1, f[m - 1].at, f[m - 1].size, mid.at)
    ensures Threaded(m1, head1, f[..m] + ([mid] + f[n..]))
  {
    var tail := [mid] + f[n..];
    assert NodeAt(tail, 1) == NodeAt(f, n);
    TailThreaded(m0, m1, f, [mid], n, head0);
    PrefixThreaded(m0, m1, f, m, tail, head0, head1);
  }

  /** An insertion touches no other node than the new one and the one before it. */
  lemma {:induction false} OtherNodesStay(m0: seq<byte>, m1: seq<byte>, m2: seq<byte>, f: seq<Block>, k: nat, b: Block)
    requires WellFormed(f) && Inside(f, |m0|) && b.Ok() && b.End() <= |m0| && Between(f, k, b)
    requires SameOutside(m0, m1, b.at, b.at + MIN_BLOCK)
    requires if k == 0 then m2 == m1 else SameOutside(m1, m2, f[k - 1].at, f[k - 1].at + MIN_BLOCK)
    ensures forall i :: 0 <= i < |f| && i != k - 1 ==> SameNode(m0, m2, f[i].at)
  {
    forall i | 0 <= i < |f| && i != k - 1 ensures SameNode(m0, m2, f[i].at) {
      if i < k {
        assert f[i].End() < f[k - 1].at;
      } else {
        assert b.End() <= f[i].at;
      }
    }
  }

  /** Memory threads the merged list when `b` is linked in without joining the block before it. */
  lemma {:induction false} LinkedThreaded(
      m0: seq<byte>, m1: seq<byte>, m2: seq<byte>, f: seq<Block>, k: nat, b: Block, head0: nat, head1: nat)
    requires Threaded(m0, head0, f) && b.Ok() && b.End() <= |m0| == |m1| && Between(f, k, b)
    requires WellFormed(Merged(f, k, b)) && MergeFrom(f, k, b) == k
    requires WroteNode(m0, m1, f, k, b)
    requires if k == 0 then m2 == m1 else SameOutside(m1, m2, f[k - 1].at, f[k - 1].at + MIN_BLOCK)
    requires head1 == if k == 0 then b.at else head0
    requires k > 0 ==> NodeSays(m2, f[k - 1].at, f[k - 1].size, b.at)
    ensures Threaded(m2, head1, Merged(f, k, b))
  {
    var n := MergeTo(f, k, b);
    var mid := MergedMiddle(f, k, b);
    OtherNodesStay(m0, m1, m2, f, k, b);
    assert SameNode(m1, m2, b.at);
    SameBytesSameWord(m1, m2, b.at);
    SameBytesSameWord(m1, m2, b.at + 4);
    MergedIsReplaced(f, k, b, k, mid, n);
    ReplacedThreaded(m0, m2, f, k, mid, n, head0, head1);
  }

  lemma {:induction false} MergedIsReplaced(f: seq<Block>, k: nat, b: Block, m: nat, mid: Block, n: nat)
    requires m <= n <= |f| && k <= |f| && WellFormed(Merged(f, k, b))
    requires Merged(f, k, b) == f[..m] + [mid] + f[n..]
    ensures Merged(f, k, b) == f[..m] + ([mid] + f[n..])
    ensures WellFormed([mid] + f[n..])
  {
    var g := Merged(f, k, b);
    assert g == f[..m] + ([mid] + f[n..]);
    WellFormedSplit(g, m);
    assert g[m..] == [mid] + f[n..];
  }

  /** Memory threads the merged list when `b` joins the block before it. */
  lemma {:induction false} JoinedThreaded(
      m0: seq<byte>, m1: seq<byte>, m2: seq<byte>, f: seq<Block>, k: nat, b: Block, head: nat)
    requires Threaded(m0, head, f) && b.Ok() && b.End() <= |m0| == |m1| && Between(f, k, b)
    requires WellFormed(Merged(f, k, b)) && MergeFrom(f, k, b) == k - 1
    requires WroteNode(m0, m1, f, k, b)
    requires SameOutside(m1, m2, f[k - 1].at, f[k - 1].at + MIN_BLOCK)
    requires NodeSays(m2, f[k - 1].at, f[k - 1].size + Word(m1, b.at), Word(m1, b.at + 4))
    ensures Threaded(m2, head, Merged(f, k, b))
  {
    hide WellFormed;
    var m, n := k - 1, MergeTo(f, k, b);
    var mid := MergedMiddle(f, k, b);
    OtherNodesStay(m0, m1, m2, f, k, b);
    MergedIsReplaced(f, k, b, m, mid, n);
    if m > 0 {
      assert NodeHolds(m0, f, m - 1);
      SameBytesSameWord(m0, m2, f[m - 1].at);
      SameBytesSameWord(m0, m2, f[m - 1].at + 4);
    }
    ReplacedThreaded(m0, m2, f, m, mid, n, head, head);
  }

  /** Only free bytes are written on the way. */
  lemma {:induction false} OnlyFreeBytesWritten(
      m0: seq<byte>, m1: seq<byte>, m2: seq<byte>, f: seq<Block>, k: nat, b: Block)
    requires WellFormed(f) && b.Ok() && b.End() <= |m0| && Between(f, k, b)
    requires SameOutside(m0, m1, b.at, b.at + MIN_BLOCK)
    requires k == 0 ==> m2 == m1
    requires k > 0 ==> SameOutside(m1, m2, f[k - 1].at, f[k - 1].at + MIN_BLOCK)
    ensures forall a :: 0 <= a < |m0| && !Covers(Merged(f, k, b), a) ==> m2[a] == m0[a]
  {
    forall a | 0 <= a < |m0| && !Covers(Merged(f, k, b), a) ensures m2[a] == m0[a] {
      MergedCovers(f, k, b, a);
      assert k > 0 && f[k - 1].Holds(a) ==> Covers(f, a);
    }
  }

  /** What follows block `k - 1` once `cut` is taken out of block `k`. */
  function CarvedTail(f: seq<Block>, k: nat, cut: Block): seq<Block>
    requires k < |f|
  {
    Remains(f[k], cut) + f[k + 1..]
  }

  lemma {:induction false} CarvedTailOk(f: seq<Block>, k: nat, cut: Block, limit: nat)
    requires WellFormed(f) && Inside(f, limit) && k < |f| && cut.Ok() && Cuttable(f[k], cut)
    ensures Carved(f, k, cut) == f[..k] + CarvedTail(f, k, cut)
    ensures WellFormed(CarvedTail(f, k, cut)) && WellFormed(f[..k] + CarvedTail(f, k, cut))
    ensures Inside(CarvedTail(f, k, cut), limit)
  {
    CarvedSound(f, k, cut);
    var tail := CarvedTail(f, k, cut);
    CutOff(Carved(f, k, cut), f[..k], tail);
    CarvedTailInside(f, k, cut, limit);
  }

  lemma {:induction false} CarvedTailInside(f: seq<Block>, k: nat, cut: Block, limit: nat)
    requires Inside(f, limit) && k < |f| && f[k].at <= cut.at && cut.End() <= f[k].End()
    ensures Inside(CarvedTail(f, k, cut), limit)
  {
    var tail := CarvedTail(f, k, cut);
    forall i | 0 <= i < |tail| ensures tail[i].End() <= limit {
      if i < |Remains(f[k], cut)| {
        assert tail[i].End() <= f[k].End();
      } else {
        assert tail[i] == f[k + 1 + i - |Remains(f[k], cut)|];
      }
    }
  }

  lemma {:induction false} CutOff(g: seq<Block>, pre: seq<Block>, tail: seq<Block>)
    requires WellFormed(g) && |g| == |pre| + |tail|
    requires g == pre + tail
    ensures WellFormed(tail)
  {
    WellFormedSplit(g, |pre|);
    assert g[|pre|..] == tail;
  }

  /** Memory threads the list with `cut` taken out of block `k`, once what is left is relinked. */
  lemma {:induction false} CarvedThreaded(
      m0: seq<byte>, m1: seq<byte>, f: seq<Block>, k: nat, cut: Block, head0: nat, head1: nat)
    requires Threaded(m0, head0, f) && |m0| == |m1| && k < |f| && cut.Ok() && Cuttable(f[k], cut)
    requires var tail := CarvedTail(f, k, cut);
             && (forall i :: 0 <= i < |Remains(f[k], cut)| ==> NodeSays(m1, tail[i].at, tail[i].size, NodeAt(tail, i + 1)))
             && (if k == 0 then head1 == NodeAt(tail, 0)
                 else head1 == head0 && NodeSays(m1, f[k - 1].at, f[k - 1].size, NodeAt(tail, 0)))
    requires forall i :: 0 <= i < |f| && i != k && i != k - 1 ==> SameNode(m0, m1, f[i].at)
    ensures Threaded(m1, head1, Carved(f, k, cut))
  {
    var tail := CarvedTail(f, k, cut);
    CarvedTailOk(f, k, cut, |m0|);
    TailThreaded(m0, m1, f, Remains(f[k], cut), k + 1, head0);
    PrefixThreaded(m0, m1, f, k, tail, head0, head1);
  }

  lemma {:induction false} LastNodeStays(m0: seq<byte>, m1: seq<byte>, head: nat, f: seq<Block>, k: nat, b: Block)
    requires Threaded(m0, head, f) && b.Ok() && b.End() <= |m0| == |m1| && Between(f, k, b) && k > 0
    requires WroteNode(m0, m1, f, k, b)
    ensures f[k - 1].at + MIN_BLOCK <= b.at && Word(m1, f[k - 1].at) == f[k - 1].size
    ensures f[k - 1].size + Word(m1, b.at) <= |m0|
  {
    assert NodeHolds(m0, f, k - 1);
    SameBytesSameWord(m0, m1, f[k - 1].at);
  }

  /** Both phases together: memory threads the merged list, and only free bytes were written. */
  lemma {:induction false} InsertDone(
      m0: seq<byte>, m1: seq<byte>, m2: seq<byte>, f: seq<Block>, k: nat, b: Block, head0: nat, head1: nat)
    requires Threaded(m0, head0, f) && b.Ok() && b.End() <= |m0| == |m1| && Between(f, k, b)
    requires WroteNode(m0, m1, f, k, b)
    requires if k == 0 then m2 == m1 && head1 == b.at
             else head1 == head0 && SameOutside(m1, m2, f[k - 1].at, f[k - 1].at + MIN_BLOCK)
    requires k > 0 && f[k - 1].End() == b.at ==>
               NodeSays(m2, f[k - 1].at, f[k - 1].size + Word(m1, b.at), Word(m1, b.at + 4))
    requires k > 0 && f[k - 1].End() != b.at ==> NodeSays(m2, f[k - 1].at, f[k - 1].size, b.at)
    ensures Threaded(m2, head1, Merged(f, k, b))
    ensures forall a :: 0 <= a < |m0| && !Covers(Merged(f, k, b), a) ==> m2[a] == m0[a]
  {
    MergedWellFormed(f, k, b);
    if MergeFrom(f, k, b) < k {
      JoinedThreaded(m0, m1, m2, f, k, b, head0);
    } else {
      LinkedThreaded(m0, m1, m2, f, k, b, head0, head1);
    }
    OnlyFreeBytesWritten(m0, m1, m2, f, k, b);
  }

  ghost function PrevOf(f: seq<Block>, k: nat): nat {
    if 0 < k <= |f| then f[k - 1].at else 0
  }

  /** Only block `k` and the link to it were written. */
  ghost predicate WroteOnlyAround(m0: seq<byte>, m1: seq<byte>, f: seq<Block>, k: nat)
    requires k < |f|
  {
    && |m0| == |m1|
    && forall a :: 0 <= a < |m0| && !f[k].Holds(a) && !(0 < k && f[k - 1].at + 4 <= a < f[k - 1].at + MIN_BLOCK)
         ==> m1[a] == m0[a]
  }

  /** What is left of block `k` is written out, and what led to the block leads to it. */
  ghost predicate CutDone(m: seq<byte>, f: seq<Block>, k: nat, cut: Block, head0: nat, head1: nat)
    requires k < |f| && (k > 0 ==> f[k - 1].at + MIN_BLOCK <= |m|)
  {
    var tail := CarvedTail(f, k, cut);
    && (forall i :: 0 <= i < |Remains(f[k], cut)| ==> NodeSays(m, tail[i].at, tail[i].size, NodeAt(tail, i + 1)))
    && (if k == 0 then head1 == NodeAt(tail, 0)
        else head1 == head0 && Word(m, f[k - 1].at + 4) == NodeAt(tail, 0))
  }

  lemma {:induction false} FrontCutDone(m: seq<byte>, f: seq<Block>, k: nat, cut: Block, head0: nat, head1: nat)
    requires k < |f| && cut.at == f[k].at && cut.End() <= f[k].End()
    requires k > 0 ==> f[k - 1].at + MIN_BLOCK <= |m|
    requires cut.End() < f[k].End() ==> NodeSays(m, cut.End(), f[k].End() - cut.End(), NodeAt(f, k + 1))
    requires var next := if cut.End() < f[k].End() then cut.End() else NodeAt(f, k + 1);
             if k == 0 then head1 == next else head1 == head0 && Word(m, f[k - 1].at + 4) == next
    ensures CutDone(m, f, k, cut, head0, head1)
  {
    var rest := Piece(cut.End(), f[k].End());
    assert Remains(f[k], cut) == rest;
    assert CarvedTail(f, k, cut) == rest + f[k + 1..];
  }

  lemma {:induction false} SaysStill(m1: seq<byte>, m2: seq<byte>, at: nat, size: nat, next: nat, cut: Block)
    requires NodeSays(m1, at, size, next) && SameOutside(m1, m2, cut.at, cut.End())
    requires at + MIN_BLOCK <= cut.at || cut.End() <= at
    ensures NodeSays(m2, at, size, next)
  {
    SameBytesSameWord(m1, m2, at);
    SameBytesSameWord(m1, m2, at + 4);
  }

  lemma {:induction false} LinkStays(m1: seq<byte>, m2: seq<byte>, f: seq<Block>, k: nat, cut: Block)
    requires WellFormed(f) && Inside(f, |m1|) && 0 < k < |f| && Cuttable(f[k], cut)
    requires SameOutside(m1, m2, cut.at, cut.End())
    ensures f[k - 1].at + MIN_BLOCK <= |m2| && Word(m2, f[k - 1].at + 4) == Word(m1, f[k - 1].at + 4)
  {
    assert f[k - 1].End() < f[k].at;
    SameBytesSameWord(m1, m2, f[k - 1].at + 4);
  }

  /** What is left of a block lies beside what was cut out of it. */
  lemma BesideCut(b: Block, cut: Block, i: nat)
    requires Cuttable(b, cut) && i < |Remains(b, cut)|
    ensures Remains(b, cut)[i].at + MIN_BLOCK <= cut.at || cut.End() <= Remains(b, cut)[i].at
  {
  }

  lemma StaysAround(m0: seq<byte>, m1: seq<byte>, m2: seq<byte>, f: seq<Block>, k: nat, cut: Block)
    requires k < |f| && Cuttable(f[k], cut)
    requires WroteOnlyAround(m0, m1, f, k) && SameOutside(m1, m2, cut.at, cut.End())
    ensures |m0| == |m1| == |m2| && WroteOnlyAround(m0, m2, f, k)
  {
  }

  /** Writing inside the bytes taken out undoes none of it. */
  lemma {:induction false} CutDoneStays(
      m0: seq<byte>, m1: seq<byte>, m2: seq<byte>, f: seq<Block>, k: nat, cut: Block, head0: nat, head1: nat)
    requires WellFormed(f) && Inside(f, |m0|) && k < |f| && cut.Ok() && Cuttable(f[k], cut)
    requires WroteOnlyAround(m0, m1, f, k) && SameOutside(m1, m2, cut.at, cut.End())
    requires CutDone(m1, f, k, cut, head0, head1)
    ensures WroteOnlyAround(m0, m2, f, k) && CutDone(m2, f, k, cut, head0, head1)
  {
    hide WroteOnlyAround, Remains, WellFormed, NodeSays, SameOutside, Inside, Cuttable;
    StaysAround(m0, m1, m2, f, k, cut);
    var tail := CarvedTail(f, k, cut);
    if k > 0 {
      LinkStays(m1, m2, f, k, cut);
    }
    forall i | 0 <= i < |Remains(f[k], cut)|
      ensures NodeSays(m2, tail[i].at, tail[i].size, NodeAt(tail, i + 1))
    {
      assert tail[i] == Remains(f[k], cut)[i];
      BesideCut(f[k], cut, i);
      SaysStill(m1, m2, tail[i].at, tail[i].size, NodeAt(tail, i + 1), cut);
    }
  }

  /** Memory threads the list with `cut` taken out of block `k`, once what is left is relinked. */
  lemma {:induction false} CutThreaded(
      m0: seq<byte>, m1: seq<byte>, f: seq<Block>, k: nat, cut: Block, head0: nat, head1: nat)
    requires Threaded(m0, head0, f) && k < |f| && cut.Ok() && Cuttable(f[k], cut)
    requires WroteOnlyAround(m0, m1, f, k)
    requires CutDone(m1, f, k, cut, head0, head1)
    ensures Threaded(m1, head1, Carved(f, k, cut))
    ensures forall a :: 0 <= a < |m0| && !Covers(f, a) ==> m1[a] == m0[a]
  {
    if k > 0 {
      assert NodeHolds(m0, f, k - 1);
      assert f[k - 1].End() < f[k].at;
      SameBytesSameWord(m0, m1, f[k - 1].at);
    }
    forall i | 0 <= i < |f| && i != k && i != k - 1 ensures SameNode(m0, m1, f[i].at) {
      assert i < k - 1 ==> f[i].End() < f[k - 1].at && f[k - 1].End() < f[k].at;
    }
    CarvedThreaded(m0, m1, f, k, cut, head0, head1);
    forall a | 0 <= a < |m0| && !Covers(f, a) ensures m1[a] == m0[a] {
      assert !f[k].Holds(a);
      assert k > 0 ==> !f[k - 1].Holds(a);
    }
  }

  /** Live extents keep their headers and their payloads when only free bytes are written. */
  lemma {:induction false} LiveUntouched(m0: seq<byte>, m1: seq<byte>, free: seq<Block>, live: seq<Extent>)
    requires |m0| == |m1|
    requires forall a :: !(Covers(free, a) && Covers(Blocks(live), a))
    requires forall a :: 0 <= a < |m0| && !Covers(free, a) ==> m1[a] == m0[a]
    requires forall i :: 0 <= i < |live| ==> HeaderHolds(m0, live[i])
    ensures forall i :: 0 <= i < |live| ==> HeaderHolds(m1, live[i])
  {
    forall i | 0 <= i < |live| ensures HeaderHolds(m1, live[i]) {
      var e := live[i];
      assert HeaderHolds(m0, e);
      forall a | e.block.Holds(a) ensures m1[a] == m0[a] {
        assert Blocks(live)[i].Holds(a);
        assert Covers(Blocks(live), a);
      }
      SameBytesSameWord(m0, m1, e.Ptr() - HEADER);
      SameBytesSameWord(m0, m1, e.Ptr() - 4);
    }
  }

  /** A block the search is considering, and what taking it would leave. */
  datatype Fit = Fit(prev: nat, node: nat, payload: nat, waste: nat)

  /** Write a list node or a header: two words, and nothing beside them. */
  method StoreNode(m: array<byte>, at: nat, first: nat, second: nat)
    requires at + MIN_BLOCK <= m.Length && first < U32_BOUND && second < U32_BOUND
    modifies m
    ensures NodeSays(m[..], at, first, second) && SameOutside(old(m[..]), m[..], at, at + MIN_BLOCK)
    ensures forall b: nat :: b + 4 <= m.Length && (b + 4 <= at || at + MIN_BLOCK <= b) ==> Word(m[..], b) == old(Word(m[..], b))
  {
    StoreWord(m, at, first);
    StoreWord(m, at + 4, second);
  }

  lemma HeaderFits(m: seq<byte>, head: nat, f: seq<Block>, k: nat, e: Extent)
    requires Threaded(m, head, f) && k < |f| && Cuttable(f[k], e.block) && e.Ok()
    ensures e.block.End() <= |m|
  {
  }

  /** With a block cut and the header stored in what was cut, memory threads the cut list. */
  lemma {:induction false} HeaderStored(
      m0: seq<byte>, m1: seq<byte>, m2: seq<byte>, f: seq<Block>, k: nat, e: Extent, head0: nat, head1: nat)
    requires Threaded(m0, head0, f) && k < |f| && Cuttable(f[k], e.block) && e.Ok()
    requires WroteOnlyAround(m0, m1, f, k) && CutDone(m1, f, k, e.block, head0, head1)
    requires NodeSays(m2, e.Ptr() - HEADER, e.block.size, e.pad) && SameOutside(m1, m2, e.Ptr() - HEADER, e.Ptr())
    ensures Threaded(m2, head1, Carved(f, k, e.block)) && HeaderHolds(m2, e)
    ensures forall a :: 0 <= a < |m0| && !Covers(f, a) ==> m2[a] == m0[a]
  {
    hide WellFormed, Inside, CutDone, Cuttable, Carved, Covers;
    assert WellFormed(f) && Inside(f, |m0|);
    HeaderFits(m0, head0, f, k, e);
    assert SameOutside(m1, m2, e.block.at, e.block.End());
    CutDoneStays(m0, m1, m2, f, k, e.block, head0, head1);
    CutThreaded(m0, m2, f, k, e.block, head0, head1);
  }

  /** `fit` records taking block `k` for this request. */
  ghost predicate FitFor(fit: Fit, f: seq<Block>, k: nat, want: nat, align: nat)
    requires 0 < align
  {
    && k < |f| && Fits(f[k], want, align)
    && fit == Fit(PrevOf(f, k), f[k].at, Payload(f[k], align), Waste(f[k], want, align))
  }

  class Heap {
    const mem: array<byte>
    var head: nat
    var used: nat
    var highWater: nat
    var size: nat

    ghost var free: seq<Block>
    ghost var live: seq<Extent>
    ghost var regions: seq<Block>

    ghost function State(): State
      reads this
    {
      HeapModel.State(mem.Length, free, live, regions, used, highWater, size)
    }

    ghost predicate ListOk()
      reads this, mem
    {
      mem.Length < U32_BOUND && Threaded(mem[..], head, free)
    }

    ghost predicate Valid()
      reads this, mem
    {
      && ListOk() && Inv(State())
      && HeadersHold(mem[..], live)
    }

    constructor Empty(memory: array<byte>)
      requires memory.Length < U32_BOUND
      ensures Valid() && mem == memory && Bare(State())
    {
      mem := memory;
      head, used, highWater, size := 0, 0, 0, 0;
      free, live, regions := [], [], [];
      new;
      BareInv(State());
    }

    /** The size and the successor written in free block `k`. */
    method ReadNode(at: nat, ghost k: nat) returns (length: nat, next: nat)
      requires Inside(free, mem.Length) && k < |free| && at == free[k].at && at + MIN_BLOCK <= mem.Length
      requires NodeHolds(mem[..], free, k)
      ensures length == free[k].size && next == NodeAt(free, k + 1)
    {
      length := LoadWord(mem, at);
      next := LoadWord(mem, at + 4);
    }

    /**
     Write the node of an extent that goes between blocks `k - 1` and `k`, taking in block `k`
     when the extent runs up to it.
     */
    method WriteMergingForward(base: nat, length: nat, cur: nat, ghost k: nat)
      requires ListOk() && Block(base, length).Ok() && base + length <= mem.Length
      requires Between(free, k, Block(base, length)) && cur == NodeAt(free, k)
      modifies mem
      ensures WroteNode(old(mem[..]), mem[..], free, k, Block(base, length))
    {
      ghost var m0 := mem[..];
      StoreNode(mem, base, length, cur);
      if cur != 0 && base + length == cur {
        NodeStays(m0, mem[..], free, k, free, k);
        var size, next := ReadNode(cur, k);
        StoreNode(mem, base, length + size, next);
      }
    }

    /** Join the node at `base` to the block before it, or link it in after it. */
    method LinkMergingBackward(base: nat, prev: nat, ghost before: Block)
      requires mem.Length < U32_BOUND && base + MIN_BLOCK <= mem.Length
      requires prev != 0 ==> before.at == prev && before.Ok() && before.End() <= base && Word(mem[..], prev) == before.size
      requires prev != 0 ==> before.size + Word(mem[..], base) < U32_BOUND
      modifies this`head, mem
      ensures prev == 0 ==> head == base && mem[..] == old(mem[..])
      ensures prev != 0 ==> head == old(head) && SameOutside(old(mem[..]), mem[..], prev, prev + MIN_BLOCK)
      ensures prev != 0 && before.End() == base ==>
                NodeSays(mem[..], prev, before.size + old(Word(mem[..], base)), old(Word(mem[..], base + 4)))
      ensures prev != 0 && before.End() != base ==> NodeSays(mem[..], prev, before.size, base)
    {
      if prev != 0 {
        var size := LoadWord(mem, prev);
        if prev + size == base {
          var more := LoadWord(mem, base);
          var next := LoadWord(mem, base + 4);
          StoreNode(mem, prev, size + more, next);
        } else {
          StoreWord(mem, prev + 4, base);
        }
      } else {
        head := base;
      }
    }

    /** The last block that starts at or before `base`, and the one after it. */
    method FindPlace(base: nat) returns (prev: nat, cur: nat, ghost k: nat)
      requires ListOk()
      ensures k == Position(free, base)
      ensures cur == NodeAt(free, k) && prev == if k == 0 then 0 else free[k - 1].at
    {
      k := 0;
      prev, cur := 0, head;
      while cur != 0 && cur <= base
        invariant k <= |free| && cur == NodeAt(free, k) && prev == (if k == 0 then 0 else free[k - 1].at)
        invariant forall i :: 0 <= i < k ==> free[i].at <= base
        decreases |free| - k
      {
        var _, next := ReadNode(cur, k);
        prev, cur := cur, next;
        k := k + 1;
      }
    }

    /** Put an extent on the list, merging with either neighbour it touches. */
    method Insert(base: nat, length: nat)
      requires ListOk() && Block(base, length).Ok() && base + length <= mem.Length
      requires Clear(free, Block(base, length))
      modifies this`head, this`free, mem
      ensures ListOk() && free == Inserted(old(free), Block(base, length))
      ensures forall a :: 0 <= a < mem.Length && !Covers(free, a) ==> mem[a] == old(mem[a])
    {
      ghost var b, f, m0 := Block(base, length), free, mem[..];
      var prev, cur, k := FindPlace(base);
      BetweenOfClear(f, b);
      WriteMergingForward(base, length, cur, k);
      ghost var m1 := mem[..];
      if k > 0 {
        LastNodeStays(m0, m1, head, f, k, b);
      }
      LinkMergingBackward(base, prev, if k > 0 then f[k - 1] else b);
      InsertDone(m0, m1, mem[..], f, k, b, old(head), head);
      free := Inserted(f, b);
    }

    /** Lend the heap the whole words of `len` bytes at `start`. */
    method AddRegion(start: nat, len: nat)
      requires Valid() && 0 < start && start + len <= mem.Length
      requires forall a :: start <= a < start + len ==> !Covers(regions, a)
      modifies this, mem
      ensures Valid()
      ensures match RegionOf(start, len)
              case None => State() == old(State()) && HoldsNoBlock(start, start + len)
              case Some(r) => Added(old(State()), r, State()) && Trimmed(start, start + len, r)
      ensures forall a :: 0 <= a < mem.Length && !Covers(free, a) ==> mem[a] == old(mem[a])
    {
      hide Inv, HeadersHold, Threaded, Covers, Clear, Inserted, Added, RegionOf, HoldsNoBlock, Trimmed;
      RegionTrimmed(start, len);
      match RegionOf(start, len) {
        case None =>
        case Some(r) =>
          ghost var s, m0 := State(), mem[..];
          RegionOfOk(start, len);
          FreshIsClear(s, r);
          Insert(r.at, r.size);
          size := size + r.size;
          regions := regions + [r];
          AddedByInsert(m0, mem[..], s, r, State());
      }
    }

    /** Give back the block at `ptr`, which `TryAlloc` handed out as extent `i`. */
    method Dealloc(ptr: nat, ghost i: nat)
      requires Valid() && i < |live| && live[i].Ptr() == ptr
      modifies this, mem
      ensures Valid() && Freed(old(State()), i, State())
      ensures forall a :: 0 <= a < mem.Length && !Covers(free, a) ==> mem[a] == old(mem[a])
    {
      hide Inv, HeadersHold, Inserted, Freed, Covers, Clear, Threaded;
      ghost var s, m0 := State(), mem[..];
      var base, total := ReadHeader(ptr, i);
      LiveClearOfFree(s, i);
      Insert(base, total);
      used := if total <= used then used - total else 0;
      live := Without(live, i);
      FreedByInsert(m0, mem[..], s, i, State());
    }

    /** Where the extent of the payload at `ptr` begins, and how long it is. */
    method ReadHeader(ptr: nat, ghost i: nat) returns (base: nat, total: nat)
      requires HeadersHold(mem[..], live) && i < |live| && live[i].Ptr() == ptr
      ensures live[i].block == Block(base, total)
      ensures live[i].Ok() && live[i].block.End() <= mem.Length
    {
      assert HeaderHolds(mem[..], live[i]);
      total := LoadWord(mem, ptr - HEADER);
      var pad := LoadWord(mem, ptr - HEADER + 4);
      base := ptr - HEADER - pad;
    }

    /** Take the first `total` bytes of block `k` off the list; what is left keeps its place. */
    method CutFront(prev: nat, base: nat, total: nat, ghost k: nat)
      requires ListOk() && k < |free| && base == free[k].at && prev == PrevOf(free, k)
      requires Block(base, total).Ok() && Cuttable(free[k], Block(base, total))
      modifies this`head, mem
      ensures WroteOnlyAround(old(mem[..]), mem[..], free, k)
      ensures CutDone(mem[..], free, k, Block(base, total), old(head), head)
    {
      hide WellFormed, CutDone, NodeHolds;
      LinkTo(mem[..], head, free, k);
      var length, next := ReadNode(base, k);
      WriteCut(prev, base, length, next, base, base + total);
      FrontCutDone(mem[..], free, k, Block(base, total), old(head), head);
    }

    /** How much of the block the extent takes, and what of that is padding. */
    method MeasureExtent(fit: Fit, length: nat, want: nat, ghost b: Block, ghost align: nat, ghost e: Extent)
      returns (total: nat, pad: nat)
      requires b.Ok() && 0 < align && Aligned(align) && 0 < want && Aligned(want) && Fits(b, want, align)
      requires fit.node == b.at && fit.payload == Payload(b, align) && length == b.size
      requires e == ExtentIn(b, want, align)
      ensures e == Extent(Block(b.at, total), pad, want)
      ensures e.Ok() && Cuttable(b, e.block) && e.Ptr() == fit.payload
    {
      pad := fit.payload - HEADER - fit.node;
      total := pad + HEADER + want;
      var remainder := length - total;
      if remainder < MIN_BLOCK {
        total := length;
      }
      ExtentInOk(b, want, align);
    }

    /** The list surgery and the header of one allocation. */
    method CarveOut(fit: Fit, total: nat, pad: nat, ghost k: nat, ghost e: Extent)
      requires ListOk() && k < |free| && fit.node == free[k].at && fit.prev == PrevOf(free, k)
      requires e.Ok() && e.block == Block(fit.node, total) && e.pad == pad && e.Ptr() == fit.payload
      requires Cuttable(free[k], e.block)
      modifies this`head, this`free, mem
      ensures ListOk() && free == Carved(old(free), k, e.block) && HeaderHolds(mem[..], e)
      ensures forall a :: 0 <= a < mem.Length && !Covers(old(free), a) ==> mem[a] == old(mem[a])
    {
      hide Threaded, Cuttable, CutDone, WroteOnlyAround, SameOutside, NodeSays, Covers, Carved;
      ghost var m0 := mem[..];
      HeaderFits(m0, head, free, k, e);
      CutFront(fit.prev, fit.node, total, k);
      ghost var m1 := mem[..];
      StoreNode(mem, fit.payload - HEADER, total, pad);
      HeaderStored(m0, m1, mem[..], free, k, e, old(head), head);
      free := Carved(free, k, e.block);
    }

    /** `Take`, as far as the list and the bytes go. */
    method TakeFromList(fit: Fit, want: nat, ghost k: nat, ghost align: nat, ghost e: Extent) returns (total: nat)
      requires ListOk() && 0 < align && Aligned(align) && 0 < want && Aligned(want)
      requires FitFor(fit, free, k, want, align) && e == ExtentIn(free[k], want, align)
      modifies this`head, this`free, mem
      ensures ListOk() && free == Carved(old(free), k, e.block) && HeaderHolds(mem[..], e) && total == e.block.size
      ensures forall a :: 0 <= a < mem.Length && !Covers(old(free), a) ==> mem[a] == old(mem[a])
    {
      var length, _ := ReadNode(fit.node, k);
      var pad;
      total, pad := MeasureExtent(fit, length, want, free[k], align, e);
      CarveOut(fit, total, pad, k, e);
    }

    /** Carve the extent out of the chosen block, leave what can stand alone, write the header. */
    method Take(fit: Fit, want: nat, ghost k: nat, ghost align: nat) returns (p: nat)
      requires Valid() && 0 < align && Aligned(align) && 0 < want && Aligned(want)
      requires FitFor(fit, free, k, want, align)
      modifies this, mem
      ensures Valid() && TookFrom(old(State()), old(free)[k], want, align, p, State()) && p == fit.payload
      ensures forall a :: 0 <= a < mem.Length && !Covers(old(free), a) ==> mem[a] == old(mem[a])
    {
      hide Inv, HeadersHold, Threaded, Covers, Carved, TookFrom;
      ghost var s, m0 := State(), mem[..];
      ghost var e := ExtentIn(free[k], want, align);
      var total := TakeFromList(fit, want, k, align, e);
      live := live + [e];
      used := used + total;
      highWater := Max(highWater, used);
      p := fit.payload;
      TakenByCarve(m0, mem[..], s, k, want, align, State());
    }

    /** Walk the whole list for the tightest block the request fits. */
    method Search(want: nat, align: nat) returns (best: Option<Fit>, ghost k: nat)
      requires ListOk() && 0 < align
      ensures BestOf(best, free, |free|, k, want, align)
    {
      ghost var n: nat := 0;
      var prev, cur := 0, head;
      best, k := None, 0;
      while cur != 0
        invariant n <= |free| && cur == NodeAt(free, n) && prev == PrevOf(free, n)
        invariant BestOf(best, free, n, k, want, align)
        decreases |free| - n
      {
        var length, next := ReadNode(cur, n);
        var payload := AlignUp(cur + HEADER, align);
        var total := payload - cur + want;
        ghost var best0, k0 := best, k;
        if length >= total {
          var waste := length - total;
          if best.None? || waste < best.value.waste {
            best, k := Some(Fit(prev, cur, payload, waste)), n;
          }
        }
        BestOfOneMore(best0, k0, best, k, free, n, want, align);
        prev, cur := cur, next;
        n := n + 1;
      }
    }

    /** Allocate, or `None` when no payload of that size and alignment would fit anywhere. */
    method TryAlloc(layoutSize: nat, layoutAlign: nat) returns (result: Option<nat>)
      requires Valid() && PowerOfTwo(layoutAlign)
      modifies this, mem
      ensures Valid()
      ensures Allocated(old(State()), WantOf(layoutSize), AlignOf(layoutAlign), result, State())
      ensures match result
              case None => State() == old(State()) && mem[..] == old(mem[..]) && NoRoom(old(free), layoutSize, layoutAlign)
              case Some(p) => exists k: nat :: Granted(old(State()), layoutSize, layoutAlign, p, k, State())
      ensures forall a :: 0 <= a < mem.Length && !Covers(old(free), a) ==> mem[a] == old(mem[a])
    {
      var want, align := WantOf(layoutSize), AlignOf(layoutAlign);
      LayoutOk(layoutSize, layoutAlign);
      var fit, k := Search(want, align);
      if fit.None? {
        SomeBlockFitsIffRoom(free, want, align);
        RefusedForLackOfRoom(free, layoutSize, layoutAlign);
        return None;
      }
      ghost var s := State();
      assert Tightest(free, k, want, align);
      var p := Take(fit.value, want, k, align);
      TakenIsGranted(s, k, layoutSize, layoutAlign, p, State());
      result := Some(p);
    }

    /** Take back a region lent earlier; refused, and nothing changed, when it cannot go whole. */
    method RemoveRegion(start: nat, len: nat, ghost i: nat) returns (ok: bool)
      requires Valid() && 0 < start
      requires match RegionOf(start, len) case None => true case Some(r) => i < |regions| && regions[i] == r
      modifies this, mem
      ensures Valid()
      ensures match RegionOf(start, len)
              case None => ok && State() == old(State())
              case Some(r) => Removed(old(State()), i, ok, State())
      ensures !ok ==> mem[..] == old(mem[..])
      ensures forall a :: 0 <= a < mem.Length && !Covers(old(free), a) ==> mem[a] == old(mem[a])
    {
      hide Inv, HeadersHold, Cuttable, Carved, Removed, Covers;
      match RegionOf(start, len) {
        case None => ok := true;
        case Some(r) =>
          ghost var s, m0 := State(), mem[..];
          ghost var k;
          RegionWithin(s, i);
          ok, k := CutRegion(r);
          if ok {
            size := size - r.size;
            regions := Without(regions, i);
          }
          RemovedOrNot(m0, mem[..], s, i, ok, k, State());
      }
    }

    /** Take the bytes of `r` off the list, if some block holds them and can be cut there. */
    method CutRegion(r: Block) returns (ok: bool, ghost k: nat)
      requires ListOk() && r.Ok()
      modifies this`head, this`free, mem
      ensures ListOk()
      ensures ok <==> exists j :: 0 <= j < |old(free)| && Cuttable(old(free)[j], r)
      ensures ok ==> k < |old(free)| && Cuttable(old(free)[k], r) && free == Carved(old(free), k, r)
      ensures !ok ==> head == old(head) && free == old(free) && mem[..] == old(mem[..])
      ensures forall a :: 0 <= a < mem.Length && !Covers(old(free), a) ==> mem[a] == old(mem[a])
    {
      var prev, node;
      prev, node, k := FindContaining(r.at, r.End());
      if node == 0 {
        return false, k;
      }
      OnlyOneHolds(free, k, r);
      var length, next := ReadNode(node, k);
      var before := r.at - node;
      var after := node + length - r.End();
      if (before != 0 && before < MIN_BLOCK) || (after != 0 && after < MIN_BLOCK) {
        return false, k;
      }
      CutMiddle(prev, node, r, k);
      free := Carved(free, k, r);
      return true, k;
    }

    /** The free block that holds all of `base..end`, if one does. */
    method FindContaining(base: nat, end: nat) returns (prev: nat, node: nat, ghost k: nat)
      requires ListOk() && base < end
      ensures node == 0 ==> forall j :: 0 <= j < |free| ==> !(free[j].at <= base && end <= free[j].End())
      ensures node != 0 ==> && k < |free| && node == free[k].at && prev == PrevOf(free, k)
                            && free[k].at <= base && end <= free[k].End()
    {
      k := 0;
      prev, node := 0, head;
      while node != 0
        invariant k <= |free| && node == NodeAt(free, k) && prev == PrevOf(free, k)
        invariant forall j :: 0 <= j < k ==> !(free[j].at <= base && end <= free[j].End())
        decreases |free| - k
      {
        var length, next := ReadNode(node, k);
        if node <= base && node + length >= end {
          return;
        }
        if node >= end {
          node := 0;
          return;
        }
        prev, node := node, next;
        k := k + 1;
      }
    }

    /** Take `cut` out of block `k`, leaving what is on either side as blocks. */
    method CutMiddle(prev: nat, node: nat, cut: Block, ghost k: nat)
      requires ListOk() && k < |free| && node == free[k].at && prev == PrevOf(free, k)
      requires cut.Ok() && Cuttable(free[k], cut)
      modifies this`head, mem
      ensures Threaded(mem[..], head, Carved(free, k, cut))
      ensures forall a :: 0 <= a < mem.Length && !Covers(free, a) ==> mem[a] == old(mem[a])
    {
      hide WellFormed, Covers, Carved, NodeHolds;
      ghost var m0 := mem[..];
      LinkTo(m0, head, free, k);
      var length, next := ReadNode(node, k);
      WriteCut(prev, node, length, next, cut.at, cut.End());
      BothSidesCutThreaded(m0, mem[..], free, k, cut, old(head), head);
    }

    /** Write the nodes on either side of `base..end` and make what led to `node` lead to them. */
    method WriteCut(prev: nat, node: nat, length: nat, next: nat, base: nat, end: nat)
      requires mem.Length < U32_BOUND && next < U32_BOUND
      requires 0 < node <= base < end <= node + length <= mem.Length
      requires (base == node || node + MIN_BLOCK <= base) && (end == node + length || end + MIN_BLOCK <= node + length)
      requires prev != 0 ==> prev + MIN_BLOCK <= node && Word(mem[..], prev + 4) == node
      modifies this`head, mem
      ensures end < node + length ==> NodeSays(mem[..], end, node + length - end, next)
      ensures var tail := if end < node + length then end else next;
              && (node < base ==> NodeSays(mem[..], node, base - node, tail))
              && (prev == 0 ==> head == if node < base then old(head) else tail)
              && (prev != 0 ==> head == old(head) && Word(mem[..], prev + 4) == if node < base then node else tail)
      ensures forall a | 0 <= a < mem.Length && !(node <= a < node + length)
                         && !(prev != 0 && prev + 4 <= a < prev + MIN_BLOCK) :: mem[a] == old(mem[a])
    {
      var before := base - node;
      var after := node + length - end;
      var tail := next;
      if after != 0 {
        StoreNode(mem, end, after, next);
        tail := end;
      }
      if before != 0 {
        StoreNode(mem, node, before, tail);
      } else if prev != 0 {
        StoreWord(mem, prev + 4, tail);
      } else {
        head := tail;
      }
    }

    /** Overwrite every free byte with zeros, past each free block's own bookkeeping. */
    method WipeFree()
      requires Valid()
      modifies mem
      ensures Valid() && State() == old(State())
      ensures forall i, a :: 0 <= i < |free| && free[i].at + MIN_BLOCK <= a < free[i].End() ==> mem[a] == 0
      ensures forall a :: 0 <= a < mem.Length && !Covers(free, a) ==> mem[a] == old(mem[a])
    {
      ghost var m0 := mem[..];
      WipeList();
      LiveUntouched(m0, mem[..], free, live);
    }

    method WipeList()
      requires ListOk()
      modifies mem
      ensures ListOk()
      ensures forall i, a :: 0 <= i < |free| && free[i].at + MIN_BLOCK <= a < free[i].End() ==> mem[a] == 0
      ensures forall a :: 0 <= a < mem.Length && !Covers(free, a) ==> mem[a] == old(mem[a])
    {
      ghost var m0 := mem[..];
      ghost var k := 0;
      var cur := head;
      while cur != 0
        invariant k <= |free| && cur == NodeAt(free, k) && ListOk()
        invariant Wiped(m0, mem[..], free, k)
        decreases |free| - k
      {
        var length, next := ReadNode(cur, k);
        ghost var m1 := mem[..];
        WipeBytes(cur + MIN_BLOCK, cur + length);
        WipedThreaded(m1, mem[..], free, k, head);
        WipedOneMore(m0, m1, mem[..], free, k);
        cur := next;
        k := k + 1;
      }
    }

    method WipeBytes(lo: nat, hi: nat)
      requires lo <= hi <= mem.Length
      modifies mem
      ensures SameOutside(old(mem[..]), mem[..], lo, hi)
      ensures forall a :: lo <= a < hi ==> mem[a] == 0
    {
      for i := lo to hi
        invariant SameOutside(old(mem[..]), mem[..], lo, hi)
        invariant forall a :: lo <= a < i ==> mem[a] == 0
      {
        mem[i] := 0;
      }
    }

    /** The largest request, at word alignment, that would succeed now. */
    method LargestFree() returns (best: nat)
      requires ListOk()
      ensures forall want: nat :: 0 < want ==> (want <= best <==> HasRoom(free, want, ALIGN))
    {
      best := 0;
      ghost var k := 0;
      var cur := head;
      while cur != 0
        invariant k <= |free| && cur == NodeAt(free, k)
        invariant forall i :: 0 <= i < k ==> free[i].size - HEADER <= best
        invariant best == 0 || exists i :: 0 <= i < k && free[i].size - HEADER == best
        decreases |free| - k
      {
        var length, next := ReadNode(cur, k);
        best := Max(best, length - HEADER);
        cur := next;
        k := k + 1;
      }
      forall want: nat | 0 < want
        ensures want <= best <==> HasRoom(free, want, ALIGN)
      {
        LargestFreeIsExact(free, best, want);
      }
    }
  }

  // ---------------------------------------------------------------------------
  // Steps of the proofs above
  // ---------------------------------------------------------------------------

  /** `best` is the tightest fit among the first `n` blocks, found at `k`; none means none fits. */
  ghost predicate BestOf(best: Option<Fit>, f: seq<Block>, n: nat, k: nat, want: nat, align: nat)
    requires 0 < align && n <= |f|
  {
    match best
    case None => forall i :: 0 <= i < n ==> !Fits(f[i], want, align)
    case Some(fit) =>
      && k < n && FitFor(fit, f, k, want, align)
      && (forall i :: 0 <= i < n && Fits(f[i], want, align) ==> fit.waste <= Waste(f[i], want, align))
      && (forall i :: 0 <= i < k && Fits(f[i], want, align) ==> fit.waste < Waste(f[i], want, align))
  }

  /** Looking at one more block: it replaces the candidate only when strictly tighter. */
  lemma {:induction false} BestOfOneMore(
      best: Option<Fit>, k: nat, best': Option<Fit>, k': nat, f: seq<Block>, n: nat, want: nat, align: nat)
    requires 0 < align && n < |f| && BestOf(best, f, n, k, want, align)
    requires if Fits(f[n], want, align) && (best.None? || Waste(f[n], want, align) < best.value.waste)
             then best'.Some? && k' == n && FitFor(best'.value, f, n, want, align)
             else best' == best && k' == k
    ensures BestOf(best', f, n + 1, k', want, align)
  {
  }

  lemma {:induction false} OnlyOneHolds(f: seq<Block>, k: nat, r: Block)
    requires WellFormed(f) && r.Ok() && k < |f| && f[k].at <= r.at && r.End() <= f[k].End()
    ensures forall j :: 0 <= j < |f| && Cuttable(f[j], r) ==> j == k
  {
    forall j | 0 <= j < |f| && Cuttable(f[j], r) ensures j == k {
      assert f[j].Holds(r.at) && f[k].Holds(r.at);
    }
  }

  /** The node before block `k` ends short of it and leads to it; the list starts with block 0. */
  lemma {:induction false} LinkTo(m: seq<byte>, head: nat, f: seq<Block>, k: nat)
    requires Threaded(m, head, f) && k < |f|
    ensures k == 0 ==> head == f[k].at
    ensures k > 0 ==> 0 < f[k - 1].at && f[k - 1].at + MIN_BLOCK <= f[k].at && Word(m, f[k - 1].at + 4) == f[k].at
    ensures NodeHolds(m, f, k) && 0 < f[k].at && f[k].End() <= |m|
  {
    assert k > 0 ==> f[k - 1].End() < f[k].at && NodeHolds(m, f, k - 1);
  }

  lemma {:induction false} BothSidesCutThreaded(
      m0: seq<byte>, m1: seq<byte>, f: seq<Block>, k: nat, cut: Block, head0: nat, head1: nat)
    requires Threaded(m0, head0, f) && k < |f| && cut.Ok() && Cuttable(f[k], cut)
    requires WroteOnlyAround(m0, m1, f, k)
    requires cut.End() < f[k].End() ==> NodeSays(m1, cut.End(), f[k].End() - cut.End(), NodeAt(f, k + 1))
    requires var tail := if cut.End() < f[k].End() then cut.End() else NodeAt(f, k + 1);
             && (f[k].at < cut.at ==> NodeSays(m1, f[k].at, cut.at - f[k].at, tail))
             && (k == 0 ==> head1 == if f[k].at < cut.at then head0 else tail)
             && (k > 0 ==> head1 == head0 && Word(m1, f[k - 1].at + 4) == if f[k].at < cut.at then f[k].at else tail)
    ensures Threaded(m1, head1, Carved(f, k, cut))
    ensures forall a :: 0 <= a < |m0| && !Covers(f, a) ==> m1[a] == m0[a]
  {
    BothSidesCutDone(m1, f, k, cut, head0, head1);
    CutThreaded(m0, m1, f, k, cut, head0, head1);
  }

  lemma {:induction false} BothSidesCutDone(m: seq<byte>, f: seq<Block>, k: nat, cut: Block, head0: nat, head1: nat)
    requires k < |f| && f[k].at <= cut.at && cut.End() <= f[k].End()
    requires k > 0 ==> f[k - 1].at + MIN_BLOCK <= |m|
    requires cut.End() < f[k].End() ==> NodeSays(m, cut.End(), f[k].End() - cut.End(), NodeAt(f, k + 1))
    requires var tail := if cut.End() < f[k].End() then cut.End() else NodeAt(f, k + 1);
             && (f[k].at < cut.at ==> NodeSays(m, f[k].at, cut.at - f[k].at, tail))
             && var first := if f[k].at < cut.at then f[k].at else tail;
                if k == 0 then head1 == first else head1 == head0 && Word(m, f[k - 1].at + 4) == first
    ensures CutDone(m, f, k, cut, head0, head1)
  {
    var lo, hi := Piece(f[k].at, cut.at), Piece(cut.End(), f[k].End());
    assert CarvedTail(f, k, cut) == lo + hi + f[k + 1..];
  }

  lemma {:induction false} RegionWithin(s: State, i: nat)
    requires Inv(s) && i < |s.regions|
    ensures s.regions[i].Ok() && s.regions[i].size <= s.size
  {
    SumWithout(s.regions, i);
  }

  lemma {:induction false} RemovedOrNot(m0: seq<byte>, m1: seq<byte>, s: State, i: nat, ok: bool, k: nat, t: State)
    requires Inv(s) && i < |s.regions| && s.regions[i].size <= s.size
    requires ok <==> exists j :: 0 <= j < |s.free| && Cuttable(s.free[j], s.regions[i])
    requires ok ==> k < |s.free| && Cuttable(s.free[k], s.regions[i])
    requires t == if ok then s.(free := Carved(s.free, k, s.regions[i]), regions := Without(s.regions, i),
                                size := s.size - s.regions[i].size) else s
    requires |m0| == |m1| && HeadersHold(m0, s.live) && (!ok ==> m1 == m0)
    requires forall a :: 0 <= a < |m0| && !Covers(s.free, a) ==> m1[a] == m0[a]
    ensures Removed(s, i, ok, t) && Inv(t) && HeadersHold(m1, t.live)
  {
    if ok {
      RemovedByCarve(m0, m1, s, i, k, t);
    }
  }

  lemma {:induction false} RemovedByCarve(m0: seq<byte>, m1: seq<byte>, s: State, i: nat, k: nat, t: State)
    requires Inv(s) && i < |s.regions| && k < |s.free| && Cuttable(s.free[k], s.regions[i])
    requires s.regions[i].size <= s.size
    requires t == s.(free := Carved(s.free, k, s.regions[i]), regions := Without(s.regions, i),
                     size := s.size - s.regions[i].size)
    requires |m0| == |m1| && HeadersHold(m0, s.live)
    requires forall a :: 0 <= a < |m0| && !Covers(s.free, a) ==> m1[a] == m0[a]
    ensures Removed(s, i, true, t) && Inv(t) && HeadersHold(m1, t.live)
  {
    var r := s.regions[i];
    CarvedSound(s.free, k, r);
    forall a ensures Covers([r], a) <==> r.Holds(a) {
      CoversOne(r, a);
    }
    RemoveKeepsInv(s, i, true, t);
    LiveUntouched(m0, m1, s.free, s.live);
  }

  /** The insides of the first `k` blocks are zero, and nothing but free bytes has changed. */
  ghost predicate Wiped(m0: seq<byte>, m: seq<byte>, f: seq<Block>, k: nat)
    requires k <= |f| && Inside(f, |m|)
  {
    && |m0| == |m|
    && (forall i, a :: 0 <= i < k && f[i].at + MIN_BLOCK <= a < f[i].End() ==> m[a] == 0)
    && (forall a :: 0 <= a < |m| && !Covers(f, a) ==> m[a] == m0[a])
  }

  lemma {:induction false} WipedOneMore(m0: seq<byte>, m1: seq<byte>, m2: seq<byte>, f: seq<Block>, k: nat)
    requires WellFormed(f) && Inside(f, |m1|) && k < |f| && Wiped(m0, m1, f, k)
    requires SameOutside(m1, m2, f[k].at + MIN_BLOCK, f[k].End())
    requires forall a :: f[k].at + MIN_BLOCK <= a < f[k].End() ==> m2[a] == 0
    ensures Wiped(m0, m2, f, k + 1)
  {
    forall i, a | 0 <= i < k && f[i].at + MIN_BLOCK <= a < f[i].End() ensures m2[a] == 0 {
      assert f[i].End() < f[k].at;
    }
    forall a | 0 <= a < |m2| && !Covers(f, a) ensures m2[a] == m0[a] {
      assert !f[k].Holds(a);
    }
  }

  /** Zeroing the inside of block `k` leaves every node as it was. */
  lemma {:induction false} WipedThreaded(m0: seq<byte>, m1: seq<byte>, f: seq<Block>, k: nat, head: nat)
    requires Threaded(m0, head, f) && k < |f| && SameOutside(m0, m1, f[k].at + MIN_BLOCK, f[k].End())
    ensures Threaded(m1, head, f)
  {
    forall i | 0 <= i < |f| ensures NodeHolds(m1, f, i) {
      assert i < k ==> f[i].End() < f[k].at;
      assert k < i ==> f[k].End() < f[i].at;
      NodeStays(m0, m1, f, i, f, i);
    }
  }

  ghost predicate HeadersHold(m: seq<byte>, live: seq<Extent>) {
    forall i :: 0 <= i < |live| ==> HeaderHolds(m, live[i])
  }

  lemma {:induction false} TakenByCarve(m0: seq<byte>, m1: seq<byte>, s: State, k: nat, want: nat, align: nat, t: State)
    requires Inv(s) && 0 < align && Aligned(align) && 0 < want && Aligned(want)
    requires k < |s.free| && Fits(s.free[k], want, align)
    requires var e := ExtentIn(s.free[k], want, align);
             && HeaderHolds(m1, e)
             && t == s.(free := Carved(s.free, k, e.block), live := s.live + [e], used := s.used + e.block.size,
                        highWater := Max(s.highWater, s.used + e.block.size))
    requires |m0| == |m1| && HeadersHold(m0, s.live)
    requires forall a :: 0 <= a < |m0| && !Covers(s.free, a) ==> m1[a] == m0[a]
    ensures TookFrom(s, s.free[k], want, align, Payload(s.free[k], align), t) && Inv(t)
    ensures HeadersHold(m1, t.live)
  {
    var e := ExtentIn(s.free[k], want, align);
    ExtentInOk(s.free[k], want, align);
    CarvedSound(s.free, k, e.block);
    forall a ensures Covers([e.block], a) <==> e.block.Holds(a) {
      CoversOne(e.block, a);
    }
    TakeKeepsInv(s, k, want, align, Payload(s.free[k], align), t);
    LiveUntouched(m0, m1, s.free, s.live);
  }

  lemma {:induction false} RegionOfOk(start: nat, len: nat)
    requires 0 < start && RegionOf(start, len).Some?
    ensures var r := RegionOf(start, len).value;
            r.Ok() && start <= r.at && r.End() <= start + len
  {
    var base := AlignUp(start, ALIGN);
    var end := if start + len <= USIZE_MAX then start + len else USIZE_MAX;
    AlignedIsMultiple(base);
  }

  lemma {:induction false} FreshIsClear(s: State, r: Block)
    requires Inv(s) && r.Ok() && forall a :: r.Holds(a) ==> !Covers(s.regions, a)
    ensures Clear(s.free, r)
  {
    ClearOfUncovered(s.free, r);
  }

  lemma {:induction false} AddedByInsert(m0: seq<byte>, m1: seq<byte>, s: State, r: Block, t: State)
    requires Inv(s) && r.Ok() && r.End() <= s.limit && Clear(s.free, r) && forall a :: r.Holds(a) ==> !Covers(s.regions, a)
    requires t == s.(free := Inserted(s.free, r), regions := s.regions + [r], size := s.size + r.size)
    requires |m0| == |m1| && HeadersHold(m0, s.live)
    requires forall a :: 0 <= a < |m0| && !Covers(t.free, a) ==> m1[a] == m0[a]
    ensures Added(s, r, t) && Inv(t) && HeadersHold(m1, t.live)
  {
    InsertedSound(s.free, r);
    forall a ensures Covers([r], a) <==> r.Holds(a) {
      CoversOne(r, a);
    }
    AddKeepsInv(s, r, t);
    LiveUntouched(m0, m1, t.free, t.live);
  }

  lemma {:induction false} FreedByInsert(m0: seq<byte>, m1: seq<byte>, s: State, i: nat, t: State)
    requires Inv(s) && i < |s.live| && Clear(s.free, s.live[i].block)
    requires t == s.(free := Inserted(s.free, s.live[i].block), live := Without(s.live, i),
                     used := if s.live[i].block.size <= s.used then s.used - s.live[i].block.size else 0)
    requires |m0| == |m1| && HeadersHold(m0, s.live)
    requires forall a :: 0 <= a < |m0| && !Covers(t.free, a) ==> m1[a] == m0[a]
    ensures Freed(s, i, t) && Inv(t) && HeadersHold(m1, t.live)
  {
    FreeingInserts(s, i, t);
    HeadersWithout(m0, s.live, i);
    LiveUntouched(m0, m1, t.free, t.live);
  }

  lemma {:induction false} FreeingInserts(s: State, i: nat, t: State)
    requires Inv(s) && i < |s.live| && Clear(s.free, s.live[i].block)
    requires t == s.(free := Inserted(s.free, s.live[i].block), live := Without(s.live, i),
                     used := if s.live[i].block.size <= s.used then s.used - s.live[i].block.size else 0)
    ensures Freed(s, i, t) && Inv(t)
  {
    var b := s.live[i].block;
    InsertedSound(s.free, b);
    forall a ensures Covers([b], a) <==> b.Holds(a) {
      CoversOne(b, a);
    }
    FreeKeepsInv(s, i, t);
  }

  lemma {:induction false} HeadersWithout(m: seq<byte>, live: seq<Extent>, i: nat)
    requires HeadersHold(m, live) && i < |live|
    ensures HeadersHold(m, Without(live, i))
  {
    assert forall j :: 0 <= j < |live| - 1 ==> Without(live, i)[j] == live[if j < i then j else j + 1];
  }

  lemma {:induction false} LiveClearOfFree(s: State, i: nat)
    requires Inv(s) && i < |s.live|
    ensures Clear(s.free, s.live[i].block)
  {
    forall a | s.live[i].block.Holds(a) ensures !Covers(s.free, a) {
      assert Blocks(s.live)[i].Holds(a);
      assert Covers(Blocks(s.live), a);
    }
    ClearOfUncovered(s.free, s.live[i].block);
  }
}
