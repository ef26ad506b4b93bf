/**
 A whole BBQr reception: one file's parts, in any order and as often as they come round, taken into
 a buffer of the file's length or more.
 */
module BbqrRun {
  import opened Bytes
  import opened BitWords
  import opened Sets
  import opened Wrappers
  import opened Bbqr

  /** A file cut into parts of `per` bytes, the last as short as it comes out. */
  datatype Sender = Sender(file: seq<byte>, per: nat, encoding: Encoding, fileType: nat, codec: Codec) {
    ghost predicate Ok() {
      0 < per && Total() <= MAX_PARTS && |file| < USIZE_BOUND && codec.Sound()
    }

    ghost function Total(): nat {
      PartsNeeded(|file|, per)
    }

    ghost function Least(a: nat, b: nat): nat {
      if a <= b then a else b
    }

    /** Where part `i` starts in the file. */
    ghost function Start(i: nat): nat {
      Least(i * per, |file|)
    }

    ghost function PieceOf(i: nat): seq<byte>
      requires Start(i) <= Start(i + 1)
    {
      file[Start(i)..Start(i + 1)]
    }

    /** The length of a part that is not the last, or of the only one. */
    ghost function FullLen(): nat {
      if Total() == 1 then |file| else per
    }

    ghost function HeaderFor(i: nat): Header {
      Header(encoding, fileType, Total(), i)
    }

    ghost function LineOf(i: nat): Line
      requires Start(i) <= Start(i + 1)
    {
      Part(HeaderFor(i), codec.encode(encoding, PieceOf(i)))
    }
  }

  lemma TimesNext(i: nat, per: nat, n: nat)
    requires i < n
    ensures i * per + per == (i + 1) * per <= n * per
  {
  }

  /** How long each part is, and where it goes. */
  lemma PieceLengths(s: Sender, i: nat)
    requires 0 < s.per && i < s.Total()
    ensures s.Start(i) <= s.Start(i + 1) && s.Start(i) == i * s.per == s.FullLen() * i
    ensures |s.PieceOf(i)| == if i + 1 < s.Total() then s.FullLen() else |s.file| - i * s.per
    ensures i + 1 == s.Total() ==> |s.file| - i * s.per <= s.FullLen()
    ensures |s.file| > 0 ==> s.FullLen() > 0
  {
    hide PartsNeeded;
    PartsNeededIsLeast(|s.file|, s.per);
    TimesNext(i, s.per, s.Total());
    if i + 1 < s.Total() {
      TimesNext(i + 1, s.per, s.Total());
      BeforeLast(i + 1, s.per, s.Total(), |s.file|);
    } else if |s.file| > 0 {
      BeforeLast(i, s.per, s.Total(), |s.file|);
    }
    if s.Total() == 1 {
      assert i == 0;
    }
  }

  lemma BeforeLast(i: nat, per: nat, n: nat, len: nat)
    requires i < n && (n - 1) * per < len
    ensures i * per < len
  {
    assert i * per <= (n - 1) * per;
  }

  // ---------------------------------------------------------------------------
  // Which parts end up counted
  // ---------------------------------------------------------------------------

  /** One part: the last of several is put off until another has said how long a part is. */
  ghost function Taken(seen: set<nat>, i: nat, total: nat): set<nat> {
    if i + 1 == total && total > 1 && seen == {} then seen else seen + {i}
  }

  ghost function SeenAfter(nums: seq<nat>, total: nat): set<nat> {
    if nums == [] then {} else Taken(SeenAfter(nums[..|nums| - 1], total), nums[|nums| - 1], total)
  }

  /** How many parts come before the first that is not the last one. */
  function PutOff(nums: seq<nat>, total: nat): (k: nat)
    ensures k <= |nums| && (k < |nums| ==> nums[k] + 1 != total) && forall j :: 0 <= j < k ==> nums[j] + 1 == total
  {
    if nums == [] || nums[0] + 1 != total then 0
    else
      var k := PutOff(nums[1..], total);
      1 + k
  }

  lemma {:induction false} PutOffSnoc(nums: seq<nat>, i: nat, total: nat)
    ensures PutOff(nums + [i], total) == if PutOff(nums, total) < |nums| || i + 1 != total then PutOff(nums, total) else |nums| + 1
  {
    if nums == [] {
      assert nums + [i] == [i];
      assert PutOff([i][1..], total) == 0;
    } else {
      assert (nums + [i])[1..] == nums[1..] + [i];
      PutOffSnoc(nums[1..], i, total);
    }
  }

  /** The parts counted are exactly those that came once there was something to measure by. */
  lemma {:induction false} CountedAre(nums: seq<nat>, total: nat)
    requires total > 1
    ensures SeenAfter(nums, total) == SetOf(nums[PutOff(nums, total)..])
  {
    hide PutOff;
    if nums != [] {
      var before, i := nums[..|nums| - 1], nums[|nums| - 1];
      CountedAre(before, total);
      assert nums == before + [i];
      PutOffSnoc(before, i, total);
      var k := PutOff(before, total);
      if k < |before| {
        assert nums[k..] == before[k..] + [i];
        assert before[k] in SetOf(before[k..]);
      } else if i + 1 != total {
        assert nums[k..] == [i] && before[k..] == [];
      } else {
        assert nums[|nums|..] == [] && before[k..] == [];
      }
    }
  }

  // ---------------------------------------------------------------------------
  // What is held
  // ---------------------------------------------------------------------------

  ghost predicate HoldsAt(s: Sender, out: seq<byte>, i: nat) {
    && s.Start(i) <= s.Start(i + 1) && i * s.per + |s.PieceOf(i)| <= |out|
    && out[i * s.per..i * s.per + |s.PieceOf(i)|] == s.PieceOf(i)
  }

  ghost predicate Tracks(s: Sender, header: Option<Header>, partLen: nat, lastLen: nat, seen: set<nat>, out: seq<byte>) {
    && (header.Some? ==> header.value == s.HeaderFor(0))
    && (header.None? ==> seen == {})
    && partLen == (if seen == {} then 0 else s.FullLen())
    && (forall i :: i in seen ==> i < s.Total() && HoldsAt(s, out, i))
    && (forall i :: i in seen && i + 1 == s.Total() ==> lastLen == |s.PieceOf(i)|)
    && |s.file| <= |out|
  }

  lemma SpliceHolds(s: Sender, out: seq<byte>, i: nat, after: seq<byte>, j: nat)
    requires 0 < s.per && i < s.Total() && j < s.Total() && |s.file| <= |out|
    requires s.Start(i) <= s.Start(i + 1) && i * s.per + |s.PieceOf(i)| <= |out|
    requires after == Spliced(out, i * s.per, s.PieceOf(i))
    requires j == i || HoldsAt(s, out, j)
    ensures HoldsAt(s, after, j)
  {
    hide PartsNeeded, Spliced;
    PieceLengths(s, i);
    PieceLengths(s, j);
    if j < i {
      TimesNext(j, s.per, i);
    } else if i < j {
      TimesNext(i, s.per, j);
    }
    PieceShort(s, i);
    PieceShort(s, j);
    SpliceAt(out, i * s.per, s.PieceOf(i), j * s.per, j * s.per + |s.PieceOf(j)|);
  }

  lemma SpliceAt(out: seq<byte>, at: nat, d: seq<byte>, b: nat, e: nat)
    requires at + |d| <= |out| && b <= e <= |out|
    ensures Spliced(out, at, d)[at..at + |d|] == d
    ensures e <= at || at + |d| <= b ==> Spliced(out, at, d)[b..e] == out[b..e]
  {
    assert at + |d| <= b ==> Spliced(out, at, d)[at + |d|..] == out[at + |d|..];
  }

  lemma PieceShort(s: Sender, i: nat)
    requires 0 < s.per && s.Start(i) <= s.Start(i + 1) && s.Start(i) == i * s.per
    ensures |s.PieceOf(i)| <= s.per
  {
    assert (i + 1) * s.per == i * s.per + s.per;
  }

  lemma SoundLine(s: Sender, i: nat)
    requires s.Ok() && i < s.Total() && s.Start(i) <= s.Start(i + 1)
    ensures var body := s.LineOf(i).body;
            && Decodable(s.encoding, |body|) && DecodedLen(s.encoding, |body|) == |s.PieceOf(i)|
            && s.codec.decode(s.encoding, body) == Some(s.PieceOf(i))
  {
    EncodedIsDecodable(s.encoding, |s.PieceOf(i)|);
  }

  /** Taking one of the sender's parts keeps everything held, and counts it or puts it off. */
  lemma {:induction false} TakeKeeps(
      s: Sender, i: nat, was: Option<Header>, wasLen: nat, wasLast: nat, wasSeen: set<nat>, wasOut: seq<byte>,
      now: Option<Header>, nowLen: nat, nowLast: nat, nowSeen: set<nat>, nowOut: seq<byte>,
      r: Result<Placed>)
    requires s.Ok() && i < s.Total() && s.Start(i) <= s.Start(i + 1) && Tracks(s, was, wasLen, wasLast, wasSeen, wasOut)
    requires TakenAs(s.HeaderFor(i), s.LineOf(i).body, s.codec, was, wasLen, wasLast, wasSeen, wasOut,
                     now, nowLen, nowLast, nowSeen, nowOut, r)
    ensures Tracks(s, now, nowLen, nowLast, nowSeen, nowOut) && now.Some?
    ensures nowSeen == Taken(wasSeen, i, s.Total())
    ensures r.Ok? <==> i in nowSeen && (r.Err? ==> r == Err(PartLenUnknown))
  {
    hide PartsNeeded, Spliced, HoldsAt, DecodedLen, Decodable, Codec.Sound, Sender.PieceOf, Sender.Start;
    SoundLine(s, i);
    PieceLengths(s, i);
    WithinFile(s, i);
    if wasSeen != {} {
      var k :| k in wasSeen;
      PieceLengths(s, k);
    }
    if nowSeen != wasSeen || r.Ok? {
      forall j | j in nowSeen ensures HoldsAt(s, nowOut, j) {
        SpliceHolds(s, wasOut, i, nowOut, j);
      }
    }
  }

  /** A part ends within the file. */
  lemma WithinFile(s: Sender, i: nat)
    requires 0 < s.per && i < s.Total() && s.Start(i) <= s.Start(i + 1)
    ensures s.FullLen() * i + |s.PieceOf(i)| == i * s.per + |s.PieceOf(i)| <= |s.file|
  {
    hide PartsNeeded;
    PieceLengths(s, i);
  }

  /** All parts held, the buffer begins with the file. */
  lemma AssembledIsFile(s: Sender, out: seq<byte>)
    requires 0 < s.per && |s.file| <= |out| && forall i: nat :: i < s.Total() ==> HoldsAt(s, out, i)
    ensures out[..|s.file|] == s.file
  {
    hide PartsNeeded;
    PartsNeededIsLeast(|s.file|, s.per);
    forall k | 0 <= k < |s.file| ensures out[k] == s.file[k] {
      var i, r := k / s.per, k % s.per;
      assert k == i * s.per + r;
      if i >= s.Total() {
        TimesGrows(s.Total(), i, s.per);
      }
      assert HoldsAt(s, out, i);
      PieceLengths(s, i);
      assert (i + 1) * s.per == i * s.per + s.per;
      assert out[i * s.per..i * s.per + |s.PieceOf(i)|][r] == s.PieceOf(i)[r];
    }
  }

  lemma TimesGrows(a: nat, b: nat, p: nat)
    requires a <= b
    ensures a * p <= b * p
  {
  }

  // ---------------------------------------------------------------------------
  // A whole run
  // ---------------------------------------------------------------------------

  ghost predicate IsLine(s: Sender, i: nat, line: Line) {
    s.Start(i) <= s.Start(i + 1) && line == s.LineOf(i)
  }

  /** Take one of the sender's parts. */
  method TakePart(c: Collector, s: Sender, i: nat, line: Line, out: array<byte>) returns (r: Result<Placed>)
    requires c.Valid() && s.Ok() && i < s.Total() && IsLine(s, i, line)
    requires Tracks(s, c.header, c.partLen, c.lastLen, c.Seen(), out[..])
    modifies c, out
    ensures c.Valid() && c.header.Some? && Tracks(s, c.header, c.partLen, c.lastLen, c.Seen(), out[..])
    ensures c.Seen() == Taken(old(c.Seen()), i, s.Total())
    ensures r.Ok? <==> i in c.Seen() && (r.Err? ==> r == Err(PartLenUnknown))
  {
    hide PartsNeeded, Tracks, TakenAs, Decodable, DecodedLen, Codec.Sound, Taken, Members;
    ghost var header, partLen, lastLen, seen, was := c.header, c.partLen, c.lastLen, c.Seen(), out[..];
    SoundLine(s, i);
    r := c.Take(line, out, s.codec);
    TakeKeeps(s, i, header, partLen, lastLen, seen, was, c.header, c.partLen, c.lastLen, c.Seen(), out[..], r);
  }

  lemma CompleteIsFile(s: Sender, header: Option<Header>, partLen: nat, lastLen: nat, seen: set<nat>, out: seq<byte>)
    requires s.Ok() && Tracks(s, header, partLen, lastLen, seen, out) && |seen| == s.Total()
    ensures |s.file| <= |out| && out[..|s.file|] == s.file
    ensures partLen * (s.Total() - 1) + lastLen == |s.file|
  {
    hide PartsNeeded, HoldsAt;
    PartsNeededIsLeast(|s.file|, s.per);
    FullSet(seen, s.Total());
    AssembledIsFile(s, out);
    assert s.Total() - 1 in seen;
    PieceLengths(s, s.Total() - 1);
  }

  /**
   Any order of the parts, with repeats: what is counted is what `SeenAfter` says, every counted part
   is in its place, and a complete collection is the file and knows its length.
   */
  method TakeAll(s: Sender, nums: seq<nat>, lines: seq<Line>, out: array<byte>) returns (c: Collector, len: Option<nat>)
    requires s.Ok() && |lines| == |nums| && |s.file| <= out.Length
    requires forall k :: 0 <= k < |nums| ==> nums[k] < s.Total() && IsLine(s, nums[k], lines[k])
    modifies out
    ensures fresh(c) && c.Valid() && c.Seen() == SeenAfter(nums, s.Total())
    ensures forall i :: i in c.Seen() ==> HoldsAt(s, out[..], i)
    ensures c.Complete() <==> c.Seen() == Numbers(s.Total())
    ensures c.Complete() ==> |s.file| <= out.Length && out[..|s.file|] == s.file && len == Some(|s.file|)
    ensures !c.Complete() ==> len == None
  {
    hide PartsNeeded, HoldsAt, Codec.Sound, Taken, Members;
    PartsNeededIsLeast(|s.file|, s.per);
    c := new Collector();
    for k := 0 to |nums|
      invariant fresh(c) && c.Valid() && Tracks(s, c.header, c.partLen, c.lastLen, c.Seen(), out[..])
      invariant k > 0 ==> c.header.Some?
      invariant c.Seen() == SeenAfter(nums[..k], s.Total())
    {
      assert nums[..k + 1][..k] == nums[..k];
      var r := TakePart(c, s, nums[k], lines[k], out);
    }
    assert nums[..|nums|] == nums;
    FullIffCounted(c.Seen(), s.Total());
    len := c.FileLen();
    if c.Complete() {
      CompleteIsFile(s, c.header, c.partLen, c.lastLen, c.Seen(), out[..]);
      assert out[..][..|s.file|] == out[..|s.file|];
    }
  }
}
