/**
 The heap in its callers' terms: what a request for so many bytes at such an alignment is granted or
 refused, and how much of a lent region is used. None of it is put in terms of the roundings inside.
 */
module HeapRequests {
  import opened Arithmetic
  import opened FreeList
  import opened Wrappers
  import opened HeapModel
  import opened HeapSafety

  function WantOf(layoutSize: nat): nat {
    AlignUp(Max(layoutSize, 1), ALIGN)
  }

  function AlignOf(layoutAlign: nat): nat {
    Max(layoutAlign, ALIGN)
  }

  // ---------------------------------------------------------------------------
  // What is promised
  // ---------------------------------------------------------------------------

  /** The bytes a request has to be given: at least one. */
  ghost function Asked(layoutSize: nat): nat {
    if layoutSize == 0 then 1 else layoutSize
  }

  /** The first address in `b` that is aligned as asked and has a header's room in front of it. */
  ghost predicate FirstPlace(b: Block, p: nat, layoutAlign: nat)
    requires 0 < layoutAlign
  {
    p % layoutAlign == 0 && p % ALIGN == 0 && b.at + HEADER <= p < b.at + HEADER + layoutAlign
  }

  /**
   The request was granted at `p`, out of block `k`: the new extent holds all that was asked, rounded
   up to words, and past it less than a block; no other block has fewer bytes behind its first place,
   and none before it as few.
   */
  ghost predicate Granted(s: State, layoutSize: nat, layoutAlign: nat, p: nat, k: nat, t: State)
    requires 0 < layoutAlign
  {
    && k < |s.free| && |t.live| == |s.live| + 1 && t.live[..|s.live|] == s.live
    && var e := t.live[|s.live|];
       && e.Ptr() == p && FirstPlace(s.free[k], p, layoutAlign)
       && Asked(layoutSize) <= e.want < Asked(layoutSize) + ALIGN && e.want % ALIGN == 0
       && e.block.at == s.free[k].at && p + e.want <= e.block.End() <= s.free[k].End()
       && e.block.End() < p + e.want + MIN_BLOCK
       && (forall i: nat, q: nat ::
             i < |s.free| && FirstPlace(s.free[i], q, layoutAlign) && q + e.want <= s.free[i].End() ==>
               s.free[k].End() - p <= s.free[i].End() - q && (i < k ==> s.free[k].End() - p < s.free[i].End() - q))
  }

  /** Nowhere is there an aligned address with the bytes asked, and a header in front of them, all free. */
  ghost predicate NoRoom(f: seq<Block>, layoutSize: nat, layoutAlign: nat)
    requires 0 < layoutAlign
  {
    forall p: nat :: p % layoutAlign == 0 && p % ALIGN == 0 ==> !RoomAt(f, p, Asked(layoutSize))
  }

  /** Of `start..end`, all but less than a word at each end is in `r`. */
  ghost predicate Trimmed(start: nat, end: nat, r: Block) {
    r.Ok() && start <= r.at < start + ALIGN && r.End() <= end < r.End() + ALIGN
  }

  /** No block of words lies within `start..end`. */
  ghost predicate HoldsNoBlock(start: nat, end: nat) {
    forall b: Block :: b.Ok() && start <= b.at ==> end < b.End()
  }

  // ---------------------------------------------------------------------------
  // Why it holds
  // ---------------------------------------------------------------------------

  lemma {:induction false} LayoutOk(layoutSize: nat, layoutAlign: nat)
    requires PowerOfTwo(layoutAlign)
    ensures 0 < WantOf(layoutSize) && Aligned(WantOf(layoutSize))
    ensures Aligned(AlignOf(layoutAlign))
  {
    AlignedIsMultiple(WantOf(layoutSize));
    AlignedIsMultiple(ALIGN);
    if ALIGN <= layoutAlign {
      PowerOfTwoOfWords(layoutAlign);
    }
  }

  lemma FourHalves(p: nat)
    requires p % 4 == 0
    ensures p % 2 == 0 && p % 1 == 0
  {
    assert p == 2 * (2 * (p / 4));
    MultipleMod(2 * (p / 4), 2);
  }

  /** Two multiples less than one step apart are the same. */
  lemma SameMultiple(p: nat, q: nat, to: nat)
    requires 0 < to && p % to == 0 && q % to == 0 && p - to < q < p + to
    ensures p == q
  {
    QuotientOfMultiple(p, to);
    QuotientOfMultiple(q, to);
    SmallMultiple(p / to - q / to, to, p - q);
  }

  /** One is a power of two, and so is twice any that is. */
  lemma {:induction false} PowersOfTwo(n: nat)
    ensures PowerOfTwo(1) && (PowerOfTwo(n) ==> PowerOfTwo(2 * n))
  {
    assert 2 * n / 2 == n;
  }

  /** The alignments asked for: one, two, or a whole number of words. */
  lemma {:induction false} Alignments(layoutAlign: nat)
    requires PowerOfTwo(layoutAlign)
    ensures layoutAlign == 1 || layoutAlign == 2 || (ALIGN <= layoutAlign && Aligned(layoutAlign))
  {
    if ALIGN <= layoutAlign {
      PowerOfTwoOfWords(layoutAlign);
    } else {
      assert !PowerOfTwo(3);
    }
  }

  /** The payload the search tries is the first place there is. */
  lemma {:induction false} PayloadIsFirstPlace(b: Block, layoutAlign: nat)
    requires b.Ok() && PowerOfTwo(layoutAlign)
    ensures FirstPlace(b, Payload(b, AlignOf(layoutAlign)), layoutAlign)
  {
    hide AlignUp;
    Alignments(layoutAlign);
    var p := Payload(b, AlignOf(layoutAlign));
    AlignedIsMultiple(b.at);
    if ALIGN <= layoutAlign {
      MultipleOfAligned(p, layoutAlign);
      AlignedIsMultiple(p);
    } else {
      SameMultiple(b.at + HEADER, p, ALIGN);
      FourHalves(p);
    }
  }

  lemma {:induction false} OneFirstPlace(b: Block, p: nat, q: nat, layoutAlign: nat)
    requires PowerOfTwo(layoutAlign) && FirstPlace(b, p, layoutAlign) && FirstPlace(b, q, layoutAlign)
    ensures p == q
  {
    SameMultiple(p, q, layoutAlign);
  }

  /** What is taken for a request is what the caller is promised. */
  lemma {:induction false} TakenIsGranted(s: State, k: nat, layoutSize: nat, layoutAlign: nat, p: nat, t: State)
    requires WellFormed(s.free) && PowerOfTwo(layoutAlign)
    requires Tightest(s.free, k, WantOf(layoutSize), AlignOf(layoutAlign))
    requires TookFrom(s, s.free[k], WantOf(layoutSize), AlignOf(layoutAlign), p, t)
    ensures Granted(s, layoutSize, layoutAlign, p, k, t)
  {
    hide FreeBytes, Payload, FirstPlace, WantOf;
    var want, align := WantOf(layoutSize), AlignOf(layoutAlign);
    AskedIsWanted(layoutSize);
    PayloadIsFirstPlace(s.free[k], layoutAlign);
    assert t.live[|s.live|] == ExtentIn(s.free[k], want, align);
    PayloadBehindHeader(s.free[k], align);
    forall i: nat, q: nat |
        i < |s.free| && FirstPlace(s.free[i], q, layoutAlign) && q + want <= s.free[i].End()
      ensures s.free[k].End() - p <= s.free[i].End() - q && (i < k ==> s.free[k].End() - p < s.free[i].End() - q)
    {
      PayloadIsFirstPlace(s.free[i], layoutAlign);
      OneFirstPlace(s.free[i], q, Payload(s.free[i], align), layoutAlign);
      PayloadBehindHeader(s.free[i], align);
      assert Fits(s.free[i], want, align);
    }
  }

  lemma {:induction false} AskedIsWanted(layoutSize: nat)
    ensures var want := WantOf(layoutSize);
            Asked(layoutSize) <= want < Asked(layoutSize) + ALIGN && want % ALIGN == 0
  {
    hide AlignUp;
  }

  lemma PayloadBehindHeader(b: Block, align: nat)
    requires 0 < align
    ensures b.at + HEADER <= Payload(b, align)
  {
  }

  /** Without room for the rounded request there is none for the request: free bytes come in words. */
  lemma {:induction false} RefusedForLackOfRoom(f: seq<Block>, layoutSize: nat, layoutAlign: nat)
    requires WellFormed(f) && PowerOfTwo(layoutAlign) && !HasRoom(f, WantOf(layoutSize), AlignOf(layoutAlign))
    ensures NoRoom(f, layoutSize, layoutAlign)
  {
    hide WellFormed, WantOf;
    var size, want := Asked(layoutSize), WantOf(layoutSize);
    AskedIsWanted(layoutSize);
    forall p: nat | p % layoutAlign == 0 && p % ALIGN == 0 ensures !RoomAt(f, p, size) {
      if RoomAt(f, p, size) {
        var k := StretchInOneBlock(f, p - HEADER, p + size);
        RoundedFits(f, k, p, size, want);
        forall a | p - HEADER <= a < p + want ensures Covers(f, a) {
          assert f[k].Holds(a);
        }
        assert p % AlignOf(layoutAlign) == 0;
        assert RoomAt(f, p, want);
      }
    }
  }

  lemma {:induction false} RoundedFits(f: seq<Block>, k: nat, p: nat, size: nat, want: nat)
    requires WellFormed(f) && k < |f| && p % ALIGN == 0 && p + size <= f[k].End()
    requires size <= want < size + ALIGN && want % ALIGN == 0
    ensures p + want <= f[k].End()
  {
    AlignedIsMultiple(f[k].at);
    AlignedIsMultiple(f[k].size);
  }

  /** What is used of a region a heap is lent. */
  lemma {:induction false} RegionTrimmed(start: nat, len: nat)
    requires 0 < start && start + len <= USIZE_MAX
    ensures match RegionOf(start, len)
            case None => HoldsNoBlock(start, start + len)
            case Some(r) => Trimmed(start, start + len, r)
  {
    hide AlignUp;
    var base := AlignUp(start, ALIGN);
    AlignedIsMultiple(base);
    forall b: Block | b.Ok() && start <= b.at ensures base <= b.at {
      AlignedIsMultiple(b.at);
      AlignUpIsLeast(start, ALIGN, b.at);
    }
  }

  // ---------------------------------------------------------------------------
  // The peak
  // ---------------------------------------------------------------------------

  /** The high-water mark is the most that was ever in use: no state had more, and some state had as much. */
  lemma {:induction false} HighWaterIsPeak(ops: seq<Op>, states: seq<State>, n: nat)
    requires Run(ops, states) && n < |states|
    ensures forall i: nat :: i <= n ==> states[i].used <= states[n].highWater
    ensures exists i: nat :: i <= n && states[i].used == states[n].highWater
    decreases n
  {
    if n > 0 {
      HighWaterIsPeak(ops, states, n - 1);
      var s, t := states[n - 1], states[n];
      assert Step(s, ops[n - 1], t);
      assert t.highWater == if ops[n - 1].Alloc? then Max(s.highWater, t.used) else s.highWater;
      RunsAreSafe(ops, states, n);
      if t.highWater == s.highWater {
        var i: nat :| i <= n - 1 && states[i].used == s.highWater;
        assert states[i].used == t.highWater;
      }
    }
  }
}
