/**
 A whole reception: a sender's parts, in any order, repeated and lost at will, fed to a collector
 by a caller that stores each new fragment and then confirms it.
 */
module UrRun {
  import opened Bytes
  import opened BitWords
  import opened Wrappers
  import opened Fountain
  import opened Sets
  import opened AliasTable
  import opened UrEncode
  import opened UrCollector
  import Cbor

  // ---------------------------------------------------------------------------
  // Which fragments end up stored
  // ---------------------------------------------------------------------------

  /** Parts are numbered from one. */
  type PartNum = n: nat | 0 < n < U32_BOUND witness 1

  /** One part: when exactly one of its fragments is missing, that one is stored. */
  ghost function Peeled(seen: set<nat>, chosen: set<nat>): set<nat> {
    if |chosen - seen| == 1 then seen + chosen else seen
  }

  /** The fragments stored after parts `nums`, in that order. */
  ghost function SeenAfter(s: Sender, nums: seq<PartNum>): set<nat>
    requires 0 < s.seqLen
  {
    if nums == [] then {}
    else Peeled(SeenAfter(s, nums[..|nums| - 1]), s.ChosenFor(nums[|nums| - 1]))
  }

  /** The pure part of fragment `i` is among `nums`. */
  ghost predicate Met(nums: seq<PartNum>, i: nat) {
    i + 1 in nums
  }

  lemma PeelingGrows(seen: set<nat>, chosen: set<nat>)
    ensures seen <= Peeled(seen, chosen) <= seen + chosen
  {
  }

  /** Nothing stored is ever lost, and what is stored is a fragment of the message. */
  lemma {:induction false} SeenGrows(s: Sender, nums: seq<PartNum>, k: nat)
    requires 0 < s.seqLen && k <= |nums|
    ensures SeenAfter(s, nums[..k]) <= SeenAfter(s, nums)
    ensures forall i :: i in SeenAfter(s, nums) ==> i < s.seqLen
  {
    hide Chosen, Peeled;
    if nums != [] {
      var n := |nums| - 1;
      var before := nums[..n];
      ChosenIsProper(nums[n], s.seqLen, s.checksum(s.message), s.seeder);
      PeelingGrows(SeenAfter(s, before), s.ChosenFor(nums[n]));
      if k <= n {
        assert before[..k] == nums[..k];
        SeenGrows(s, before, k);
      } else {
        assert nums[..k] == nums;
        SeenGrows(s, before, 0);
      }
    }
  }

  /** Once every pure part has been met, every fragment is stored, whatever else came between. */
  lemma {:induction false} PurePartsSuffice(s: Sender, nums: seq<PartNum>)
    requires 0 < s.seqLen
    requires forall i: nat :: i < s.seqLen ==> Met(nums, i)
    ensures SeenAfter(s, nums) == Numbers(s.seqLen)
  {
    hide Chosen;
    SeenGrows(s, nums, 0);
    forall i: nat | i < s.seqLen ensures i in SeenAfter(s, nums) {
      assert Met(nums, i);
      var k :| 0 <= k < |nums| && nums[k] == i + 1;
      PureIsStored(s, nums[..k + 1], i);
      SeenGrows(s, nums, k + 1);
    }
  }

  lemma {:induction false} PureIsStored(s: Sender, nums: seq<PartNum>, i: nat)
    requires i < s.seqLen && nums != [] && nums[|nums| - 1] == i + 1
    ensures i in SeenAfter(s, nums)
  {
    hide Chosen;
    var seen := SeenAfter(s, nums[..|nums| - 1]);
    ChosenIsProper(i + 1, s.seqLen, s.checksum(s.message), s.seeder);
    if i !in seen {
      assert {i} - seen == {i};
    }
  }

  // ---------------------------------------------------------------------------
  // What is held
  // ---------------------------------------------------------------------------

  /** Fragment `i` is where it belongs, padding and all. */
  ghost predicate HoldsAt(message: seq<byte>, f: nat, known: seq<byte>, i: nat) {
    Slot(known, f, i) == Some(Fragment(message, f, i))
  }

  ghost predicate Holds(message: seq<byte>, f: nat, seen: set<nat>, known: seq<byte>) {
    forall i :: i in seen ==> HoldsAt(message, f, known, i)
  }

  lemma SlotFits(known: seq<byte>, f: nat, n: nat, i: nat)
    requires i < n && f * n <= |known|
    ensures i * f + f <= |known| && Slot(known, f, i).Some?
  {
    assert i * f + f == f * (i + 1) <= f * n;
  }

  lemma SlotsApart(f: nat, i: nat, j: nat)
    requires i != j
    ensures i * f + f <= j * f || j * f + f <= i * f
  {
    if i < j {
      assert i * f + f == f * (i + 1) <= f * j;
    } else {
      assert j * f + f == f * (j + 1) <= f * i;
    }
  }

  /** A held fragment's bytes are the message's, byte by byte. */
  lemma {:induction false} HeldByte(message: seq<byte>, f: nat, known: seq<byte>, i: nat, k: nat)
    requires HoldsAt(message, f, known, i) && k < f
    ensures i * f + k < |known| && known[i * f + k] == PaddedAt(known, i * f + k) == PaddedAt(message, i * f + k)
  {
    hide FragmentPrefix;
    assert known[i * f..i * f + f][k] == Fragment(message, f, i)[k];
  }

  /** Storing one more fragment disturbs no other. */
  lemma StoredHolds(message: seq<byte>, f: nat, seen: set<nat>, known: seq<byte>, i: nat, after: seq<byte>)
    requires Holds(message, f, seen, known) && i * f + f <= |known|
    requires after == known[..i * f] + Fragment(message, f, i) + known[i * f + f..]
    ensures Holds(message, f, seen + {i}, after)
  {
    assert after[i * f..i * f + f] == Fragment(message, f, i);
    forall j | j in seen && j != i ensures HoldsAt(message, f, after, j) {
      assert HoldsAt(message, f, known, j);
      SlotsApart(f, i, j);
      assert after[j * f..j * f + f] == known[j * f..j * f + f];
    }
  }

  /** With every fragment held, what is held begins with the message. */
  lemma AssembledIsMessage(message: seq<byte>, n: nat, seen: set<nat>, known: seq<byte>)
    requires 0 < n && Holds(message, FragmentLen(|message|, n), seen, known) && FragmentLen(|message|, n) * n <= |known|
    requires forall i: nat :: i < n ==> i in seen
    ensures |message| <= |known| && known[..|message|] == message
  {
    hide HoldsAt;
    var f := FragmentLen(|message|, n);
    forall k | 0 <= k < |message| ensures known[k] == message[k] {
      var i, r := Split(k, f, n);
      assert HoldsAt(message, f, known, i);
      HeldByte(message, f, known, i, r);
    }
  }

  lemma Split(k: nat, f: nat, n: nat) returns (i: nat, r: nat)
    requires k < f * n
    ensures k == i * f + r && r < f && i < n
  {
    i, r := k / f, k % f;
    if n <= i {
      Monotone(n, i, f);
    }
  }

  lemma Monotone(n: nat, i: nat, f: nat)
    requires n <= i
    ensures f * n <= i * f
  {
  }

  /** Reducing a mixture of the message against what is held leaves the missing fragment. */
  lemma {:induction false} ReducedIsFragment(s: Sender, seqNum: nat, seen: set<nat>, known: seq<byte>, t: nat, left: seq<byte>)
    requires 0 < seqNum && 0 < s.seqLen
    requires t in s.ChosenFor(seqNum) && s.ChosenFor(seqNum) - {t} <= seen
    requires Holds(s.message, s.FragLen(), seen, known)
    requires XoredOut(s.Data(seqNum), left, known, s.ChosenFor(seqNum) - {t}, s.seqLen)
    ensures left == Fragment(s.message, s.FragLen(), t)
  {
    hide Chosen, HoldsAt, XorOver, PaddedAt, Column, Mixed, Fragment;
    var f, chosen := s.FragLen(), s.ChosenFor(seqNum);
    ChosenIsProper(seqNum, s.seqLen, s.checksum(s.message), s.seeder);
    forall k | 0 <= k < f ensures left[k] == Fragment(s.message, f, t)[k] {
      var column, held := Column(s.message, f, k, s.seqLen), Column(known, f, k, s.seqLen);
      forall i | i in chosen && i != t ensures held[i] == column[i] {
        assert i in chosen - {t};
        HeldByte(s.message, f, known, i, k);
      }
      UnmixInvertsMix(column, held, chosen, t, s.seqLen);
    }
  }

  // ---------------------------------------------------------------------------
  // One part
  // ---------------------------------------------------------------------------

  /**
   A part as it reaches the camera: which one, its type in whatever case it was written, and whether
   it is the whole message in one code, which has no header around it.
   */
  datatype Sent = Sent(num: PartNum, ty: string, whole: bool)

  ghost function Payload(s: Sender, sent: Sent): seq<byte>
    requires 0 < s.seqLen
  {
    if sent.whole then s.message else s.Body(sent.num)
  }

  ghost function LineOf(s: Sender, sent: Sent): Line
    requires 0 < s.seqLen
  {
    Ur(sent.ty, !sent.whole, Some(Payload(s, sent)))
  }

  /** The collector is collecting this sender's message, or nothing yet; what it counts is held. */
  ghost predicate Tracks(s: Sender, ty: string, of: Option<Cbor.Part>, was: string, seen: set<nat>, known: seq<byte>)
    requires 0 < s.seqLen
  {
    && (of.None? ==> seen == {})
    && (of.Some? ==> SameMessage(of.value, s.Header(1)) && was == Lower(ty))
    && (forall i :: i in seen ==> i < s.seqLen)
    && s.FragLen() * s.seqLen <= |known|
    && Holds(s.message, s.FragLen(), seen, known)
  }

  /** A sender's part as a caller may meet it: of the collected type, and not longer than there is room for. */
  ghost predicate Sendable(s: Sender, ty: string, sent: Sent, room: nat)
    requires 0 < s.seqLen
  {
    && Lower(sent.ty) == Lower(ty) && |sent.ty| <= MAX_TYPE && |Payload(s, sent)| <= room
    && (sent.whole ==> s.seqLen == 1 && sent.num == 1)
  }

  lemma FragmentIsShort(m: nat, n: nat)
    requires 0 < n
    ensures FragmentLen(m, n) <= m
  {
    var f := (m + n - 1) / n;
    if m < f {
      TimesAtLeast(m + 1, f, n);
    }
  }

  lemma TimesAtLeast(a: nat, b: nat, n: nat)
    requires 0 < a <= b && 0 < n
    ensures a + n - 1 <= b * n
  {
    ProductAtLeast(a - 1, n - 1);
    TimesMore(a, b, n);
  }

  lemma ProductAtLeast(x: nat, y: nat)
    ensures (x + 1) * (y + 1) >= x + y + 1
  {
    assert (x + 1) * (y + 1) == x * y + x + y + 1;
  }

  lemma TimesMore(a: nat, b: nat, n: nat)
    requires a <= b
    ensures a * n <= b * n
  {
  }

  /** A sender's own parts are admitted, and carry what the sender mixed. */
  lemma {:induction false} Admitted(s: Sender, ty: string, of: Option<Cbor.Part>, was: string, sent: Sent, room: nat)
    requires s.Ok() && Sendable(s, ty, sent, room)
    requires of.Some? ==> SameMessage(of.value, s.Header(1)) && was == Lower(ty)
    ensures var n := |Payload(s, sent)|;
            && s.FragLen() <= n
            && Admit(of, was, LineOf(s, sent), room, s.checksum) == Ok((s.Header(sent.num), n - s.FragLen(), n))
            && Payload(s, sent)[n - s.FragLen()..] == s.Data(sent.num)
  {
    hide Carried, Payload, Lower, Chosen, Mixed, Fragment, Cbor.PartOf, Cbor.PartBytes, Sender.Data, Sender.Body;
    Carries(s, sent);
    LowerTwice(ty);
  }

  /**
   Once one message is being collected, a sound part of any other is refused and nothing is recorded:
   by its type when the types differ, however they are spelt, else by its lengths or its checksum.
   */
  lemma {:induction false} OthersRefused(s: Sender, ty: string, of: Option<Cbor.Part>, was: string, other: Sender, sent: Sent, room: nat)
    requires s.Ok() && of.Some? && SameMessage(of.value, s.Header(1)) && was == Lower(ty)
    requires other.Ok() && (sent.whole ==> other.seqLen == 1 && sent.num == 1)
    requires |sent.ty| <= MAX_TYPE && |Payload(other, sent)| <= room
    ensures var sameType := |sent.ty| == |ty| && forall i :: 0 <= i < |ty| ==> SameLetter(sent.ty[i], ty[i]);
            var sameMessage := other.seqLen == s.seqLen && |other.message| == |s.message|
                               && other.checksum(other.message) == s.checksum(s.message);
            match Admit(of, was, LineOf(other, sent), room, other.checksum)
            case Ok(_) => sameType && sameMessage
            case Err(e) => if sameType then !sameMessage && e == Mismatch else e == TypeMismatch
  {
    hide Carried, Payload, Lower, Chosen, Mixed, Fragment, Cbor.PartOf, Cbor.PartBytes, Sender.Data, Sender.Body;
    Carries(other, sent);
    LowerTwice(ty);
    SameTypeIff(sent.ty, ty);
  }

  /** What a sender's part carries: its header, and its data behind it. */
  lemma {:induction false} Carries(s: Sender, sent: Sent)
    requires s.Ok() && (sent.whole ==> s.seqLen == 1 && sent.num == 1)
    ensures var n := |Payload(s, sent)|;
            && s.FragLen() <= n
            && Carried(!sent.whole, Payload(s, sent), s.checksum) == Ok((s.Header(sent.num), n - s.FragLen(), n))
            && Payload(s, sent)[n - s.FragLen()..] == s.Data(sent.num)
  {
    hide Chosen, Mixed, Fragment, Cbor.PartOf, Cbor.PartBytes;
    FragmentIsShort(|s.message|, s.seqLen);
    if sent.whole {
      WholeIsOneFragment(s);
    } else {
      Cbor.PartRoundTrip(s.Header(sent.num), s.Data(sent.num), s.Body(sent.num));
    }
  }

  /** A message sent whole is its own only fragment. */
  lemma {:induction false} WholeIsOneFragment(s: Sender)
    requires s.seqLen == 1
    ensures s.FragLen() == |s.message| && s.Data(1) == s.message
  {
    hide Chosen;
    ChosenIsProper(1, 1, s.checksum(s.message), s.seeder);
    PureIsFragment(s.message, s.FragLen(), 1, 0);
    assert Fragment(s.message, s.FragLen(), 0) == s.message;
  }

  /** What came of one part: refused because it could not be reduced, or one more fragment. */
  ghost predicate Fed(s: Sender, num: PartNum, seen: set<nat>, left: seq<byte>, r: Result<Placed>)
    requires 0 < s.seqLen
  {
    match r
    case Err(_) => num > s.seqLen && Peeled(seen, s.ChosenFor(num)) == seen
    case Ok(p) =>
      && p.index < s.seqLen && p.index in s.ChosenFor(num)
      && Peeled(seen, s.ChosenFor(num)) == seen + {p.index}
      && left == Fragment(s.message, s.FragLen(), p.index)
      && (p.isNew <==> p.index !in seen) && (num > s.seqLen ==> p.isNew)
      && Delivers(s.message, s.FragLen(), left, p)
  }

  /** The first `len` bytes of the fragment are the message's at `offset`, and all of the message there is in it. */
  ghost predicate Delivers(message: seq<byte>, f: nat, fragment: seq<byte>, p: Placed) {
    && p.len <= |fragment| == f
    && (0 < p.len ==> p.offset + p.len <= |message| && fragment[..p.len] == message[p.offset..p.offset + p.len])
    && forall a: nat :: InFragment(p.index, f, a) && a < |message| ==> p.offset <= a < p.offset + p.len
  }

  /** Where `AcceptMixing` says a fragment of the message goes is where its bytes are. */
  lemma {:induction false} PlacedDelivers(s: Sender, num: PartNum, i: nat, start: nat, end: nat, isNew: bool, have: nat)
    requires 0 < s.seqLen && i < s.seqLen
    ensures Delivers(s.message, s.FragLen(), Fragment(s.message, s.FragLen(), i), PlacedAt(s.Header(num), i, start, end, isNew, have))
    ensures var p := PlacedAt(s.Header(num), i, start, end, isNew, have);
            p.offset + p.len <= |s.message| <==> i * s.FragLen() <= |s.message|
  {
    hide FragmentLen, FragmentPrefix;
    var f := s.FragLen();
    var fragment := Fragment(s.message, f, i);
    var p := PlacedAt(s.Header(num), i, start, end, isNew, have);
    assert p.offset == i * f;
    if 0 < p.len {
      forall k | 0 <= k < p.len ensures fragment[k] == s.message[p.offset + k] {
        assert fragment[k] == PaddedAt(s.message, i * f + k);
      }
      assert fragment[..p.len] == s.message[p.offset..p.offset + p.len];
    }
  }

  /** A fragment can lie wholly past the end: the fourth of five bytes in fours is placed at six, and is empty. */
  lemma PlacedPastTheEnd(s: Sender)
    requires |s.message| == 5 && s.seqLen == 4
    ensures var p := PlacedAt(s.Header(4), 3, 0, 2, true, 0);
            p.offset == 6 && p.len == 0
  {
  }

  lemma {:induction false} PureIsFed(s: Sender, num: PartNum, seen: set<nat>, left: seq<byte>, r: Result<Placed>)
    requires s.Ok() && num <= s.seqLen && r.Ok?
    requires r.value == PlacedAt(s.Header(num), num - 1, r.value.start, r.value.end, num - 1 !in seen, r.value.have)
    requires left == s.Data(num)
    ensures Fed(s, num, seen, left, r)
  {
    hide Chosen, Delivers;
    var i: nat := num - 1;
    PlacedDelivers(s, num, i, r.value.start, r.value.end, i !in seen, r.value.have);
    ChosenIsProper(num, s.seqLen, s.checksum(s.message), s.seeder);
    PureIsFragment(s.message, s.FragLen(), s.seqLen, i);
    if i in seen {
      assert {i} - seen == {};
    } else {
      assert {i} - seen == {i};
    }
  }

  lemma {:induction false} MixtureIsFed(s: Sender, num: PartNum, seen: set<nat>, known: seq<byte>, left: seq<byte>, r: Result<Placed>,
                                        start: nat, end: nat, count: nat)
    requires s.Ok() && num > s.seqLen
    requires Holds(s.message, s.FragLen(), seen, known)
    requires Accepted(s.Header(num), start, end, s.Data(num), left, seen, count, Some(known), s.seeder, r)
    ensures Fed(s, num, seen, left, r)
  {
    hide Chosen, Delivers;
    var chosen := s.ChosenFor(num);
    ChosenIsProper(num, s.seqLen, s.checksum(s.message), s.seeder);
    if |chosen - seen| == 1 {
      var t := TheOne(chosen - seen);
      AllButOne(chosen, seen, t);
      forall i | i in chosen - {t} ensures Slot(known, s.FragLen(), i).Some? {
        assert HoldsAt(s.message, s.FragLen(), known, i);
      }
      assert Reducible(s.Header(num), seen, Some(known), s.seeder) == Ok(t);
      ReducedIsFragment(s, num, seen, known, t, left);
      PlacedDelivers(s, num, t, start, end, t !in seen, count);
    }
  }

  lemma AllButOne(chosen: set<nat>, seen: set<nat>, t: nat)
    requires |chosen - seen| == 1 && t in chosen - seen
    ensures chosen - {t} <= seen && seen + chosen == seen + {t}
  {
    assert |chosen - seen - {t}| == 0;
    forall i | i in chosen && i != t ensures i in seen {
      assert i !in chosen - seen - {t};
    }
  }

  /** Store a fragment where it belongs. */
  method Store(known: array<byte>, f: nat, i: nat, scratch: array<byte>, start: nat, ghost message: seq<byte>, ghost seen: set<nat>)
    requires known != scratch && i * f + f <= known.Length && start + f <= scratch.Length
    requires scratch[start..start + f] == Fragment(message, f, i) && Holds(message, f, seen, known[..])
    modifies known
    ensures Holds(message, f, seen + {i}, known[..])
  {
    ghost var was := known[..];
    var at := i * f;
    for k := 0 to f
      invariant known[..] == was[..at] + scratch[start..start + k] + was[at + k..]
    {
      known[at + k] := scratch[start + k];
    }
    StoredHolds(message, f, seen, was, i, known[..]);
  }

  /** Every byte of the message that is in a fragment of `seen` is in `out`. */
  ghost predicate Delivered(message: seq<byte>, f: nat, seen: set<nat>, out: seq<byte>) {
    && |message| <= |out|
    && forall i: nat, a: nat :: i in seen && InFragment(i, f, a) && a < |message| ==> out[a] == message[a]
  }

  ghost predicate InFragment(i: nat, f: nat, a: nat) {
    i * f <= a < i * f + f
  }

  /** Hand on `len` bytes of the fragment, to `offset`: all a caller that keeps no fragments does. */
  method Deliver(out: array<byte>, scratch: array<byte>, p: Placed, f: nat, ghost message: seq<byte>, ghost seen: set<nat>)
    requires out != scratch && p.start + f <= scratch.Length
    requires Delivers(message, f, scratch[p.start..p.start + f], p) && Delivered(message, f, seen, out[..])
    modifies out
    ensures Delivered(message, f, seen + {p.index}, out[..])
    ensures out[|message|..] == old(out[|message|..])
  {
    ghost var was := out[..];
    for k := 0 to p.len
      invariant forall a: nat :: a < out.Length ==> out[a] == if p.offset <= a < p.offset + k then message[a] else was[a]
    {
      assert scratch[p.start..p.start + f][..p.len][k] == message[p.offset..p.offset + p.len][k];
      out[p.offset + k] := scratch[p.start + k];
    }
    assert forall a: nat :: a < |message| ==> was[a] == message[a] ==> out[a] == message[a];
  }

  /** Accepting a sender's part: what it is fed as, before anything is stored. */
  method Receive(c: Collector, s: Sender, ty: string, sent: Sent, line: Line, scratch: array<byte>, known: seq<byte>)
    returns (r: Result<Placed>)
    requires c.Valid() && s.Ok() && Sendable(s, ty, sent, scratch.Length) && line == LineOf(s, sent)
    requires Tracks(s, ty, c.of, c.ty, c.Seen(), known)
    modifies c`of, c`ty, scratch
    ensures c.Valid() && c.of.Some? && SameMessage(c.of.value, s.Header(1)) && c.ty == Lower(ty)
    ensures s.FragLen() <= |Payload(s, sent)| <= scratch.Length
    ensures var n := |Payload(s, sent)|;
            && (r.Ok? ==> r.value.start == n - s.FragLen() && r.value.end == n)
            && Fed(s, sent.num, c.Seen(), scratch[n - s.FragLen()..n], r)
  {
    hide Chosen, Mixed, Accepted, Admit, Lower, Holds, Fed, Cbor.PartBytes;
    Admitted(s, ty, c.of, c.ty, sent, scratch.Length);
    ghost var f, n := s.FragLen(), |Payload(s, sent)|;
    assert Payload(s, sent)[n - f..n] == s.Data(sent.num);
    r := c.AcceptMixing(line, scratch, Some(known), s.checksum, s.seeder);
    ReceivedIsFed(s, sent.num, c.Seen(), known, scratch[n - f..n], r, n - f, n, c.count);
  }

  lemma {:induction false} ReceivedIsFed(s: Sender, num: PartNum, seen: set<nat>, known: seq<byte>, left: seq<byte>,
                                         r: Result<Placed>, start: nat, end: nat, count: nat)
    requires s.Ok() && Holds(s.message, s.FragLen(), seen, known)
    requires Accepted(s.Header(num), start, end, s.Data(num), left, seen, count, Some(known), s.seeder, r)
    ensures r.Ok? ==> r.value.start == start && r.value.end == end
    ensures Fed(s, num, seen, left, r)
  {
    hide Chosen;
    if num <= s.seqLen {
      PureIsFed(s, num, seen, left, r);
    } else {
      MixtureIsFed(s, num, seen, known, left, r, start, end, count);
    }
  }

  /** What a caller does with one line: accept it, store the fragment when it is new, and confirm it. */
  method Feed(c: Collector, s: Sender, ty: string, sent: Sent, line: Line, scratch: array<byte>, known: array<byte>, out: array<byte>)
    returns (r: Result<Placed>)
    requires c.Valid() && s.Ok() && Sendable(s, ty, sent, scratch.Length) && line == LineOf(s, sent)
    requires known != scratch && out != scratch && out != known
    requires Tracks(s, ty, c.of, c.ty, c.Seen(), known[..]) && Delivered(s.message, s.FragLen(), c.Seen(), out[..])
    modifies c, scratch, known, out
    ensures Delivered(s.message, s.FragLen(), c.Seen(), out[..]) && out[|s.message|..] == old(out[|s.message|..])
    ensures c.Valid() && c.of.Some? && Tracks(s, ty, c.of, c.ty, c.Seen(), known[..])
    ensures c.Seen() == Peeled(old(c.Seen()), s.ChosenFor(sent.num))
    ensures r.Ok? ==> r.value.have == |c.Seen()| && (sent.num > s.seqLen ==> r.value.isNew)
  {
    hide Chosen, Mixed, Lower, Peeled, Cbor.PartBytes, Holds, Slot, Delivers, Delivered, FragmentLen, Sendable, LineOf, SameMessage;
    r := Receive(c, s, ty, sent, line, scratch, known[..]);
    if r.Ok? {
      var start, index, fragment := r.value.start, r.value.index, r.value.end - r.value.start;
      SlotFits(known[..], fragment, s.seqLen, index);
      if r.value.isNew {
        Deliver(out, scratch, r.value, fragment, s.message, c.Seen());
        Store(known, fragment, index, scratch, start, s.message, c.Seen());
      } else {
        assert c.Seen() + {index} == c.Seen();
      }
      var placed := c.Confirm(r.value);
      r := Ok(placed);
    }
  }

  // ---------------------------------------------------------------------------
  // A whole run
  // ---------------------------------------------------------------------------

  function NumsOf(sents: seq<Sent>): (nums: seq<PartNum>)
    ensures |nums| == |sents| && forall k :: 0 <= k < |sents| ==> nums[k] == sents[k].num
  {
    if sents == [] then [] else NumsOf(sents[..|sents| - 1]) + [sents[|sents| - 1].num]
  }

  /** A finished collection holds the message, and its checksum agrees. */
  lemma {:induction false} CompleteIsMessage(
      s: Sender, ty: string, of: Option<Cbor.Part>, was: string, seen: set<nat>, known: seq<byte>)
    requires s.Ok() && of.Some? && Tracks(s, ty, of, was, seen, known) && |seen| == of.value.seqLen
    ensures |s.message| <= |known| && known[..|s.message|] == s.message
    ensures s.checksum(known[..|s.message|]) == of.value.checksum
  {
    FullSet(seen, s.seqLen);
    AssembledIsMessage(s.message, s.seqLen, seen, known);
  }

  /**
   Any of the sender's parts, in any order, as often as they come: what is stored is exactly what
   peeling them one by one stores, every stored fragment is the message's own, and a collection that
   is complete has assembled the message and verifies it.
   */
  method Collect(
      s: Sender, ty: string, sents: seq<Sent>, lines: seq<Line>, scratch: array<byte>, known: array<byte>, out: array<byte>)
    returns (c: Collector, verified: bool)
    requires s.Ok() && |lines| == |sents|
    requires forall k :: 0 <= k < |sents| ==> Sendable(s, ty, sents[k], scratch.Length) && lines[k] == LineOf(s, sents[k])
    requires known != scratch && s.FragLen() * s.seqLen <= known.Length
    requires out != scratch && out != known && |s.message| <= out.Length
    modifies scratch, known, out
    ensures out[|s.message|..] == old(out[|s.message|..])
    ensures c.Complete() ==> out[..|s.message|] == s.message
    ensures forall m :: c.Verify(m, s.checksum) <==> c.Complete() && s.checksum(m) == s.checksum(s.message)
    ensures fresh(c) && c.Valid() && c.Seen() == SeenAfter(s, NumsOf(sents))
    ensures Holds(s.message, s.FragLen(), c.Seen(), known[..])
    ensures c.Complete() <==> c.Seen() == Numbers(s.seqLen)
    ensures verified <==> c.Complete()
    ensures c.Complete() ==> |s.message| <= known.Length && known[..|s.message|] == s.message
  {
    hide Tracks, SeenAfter, NumsOf, Chosen, Peeled, Lower, Holds, Cbor.PartBytes, Mixed;
    c := new Collector();
    NothingTracked(s, ty, c.ty, known[..]);
    assert Delivered(s.message, s.FragLen(), {}, out[..]);
    for k := 0 to |sents|
      invariant Delivered(s.message, s.FragLen(), c.Seen(), out[..]) && out[|s.message|..] == old(out[|s.message|..])
      invariant fresh(c) && c.Valid() && Tracks(s, ty, c.of, c.ty, c.Seen(), known[..])
      invariant k > 0 ==> c.of.Some?
      invariant c.Seen() == SeenAfter(s, NumsOf(sents[..k]))
    {
      OneMoreSent(s, sents, k);
      var r := Feed(c, s, ty, sents[k], lines[k], scratch, known, out);
    }
    assert sents[..|sents|] == sents;
    verified := false;
    TrackedFullIffCounted(s, ty, c.of, c.ty, c.Seen(), known[..]);
    if c.Complete() {
      CompleteIsMessage(s, ty, c.of, c.ty, c.Seen(), known[..]);
      DeliveredIsMessage(s.message, s.seqLen, c.Seen(), out[..]);
      assert known[..][..|s.message|] == known[..|s.message|] && out[..][..|s.message|] == out[..|s.message|];
      verified := c.Verify(out[..|s.message|], s.checksum);
    }
  }

  /** With every fragment met, what has been handed on is the message. */
  lemma DeliveredIsMessage(message: seq<byte>, n: nat, seen: set<nat>, out: seq<byte>)
    requires 0 < n && Delivered(message, FragmentLen(|message|, n), seen, out)
    requires forall i: nat :: i < n ==> i in seen
    ensures out[..|message|] == message
  {
    hide FragmentLen;
    var f := FragmentLen(|message|, n);
    forall a: nat | a < |message| ensures out[a] == message[a] {
      var i, r := Split(a, f, n);
      assert InFragment(i, f, a);
    }
  }

  lemma NothingTracked(s: Sender, ty: string, was: string, known: seq<byte>)
    requires 0 < s.seqLen && s.FragLen() * s.seqLen <= |known|
    ensures Tracks(s, ty, None, was, {}, known) && SeenAfter(s, NumsOf([])) == {}
  {
  }

  lemma {:induction false} OneMoreSent(s: Sender, sents: seq<Sent>, k: nat)
    requires 0 < s.seqLen && k < |sents|
    ensures SeenAfter(s, NumsOf(sents[..k + 1])) == Peeled(SeenAfter(s, NumsOf(sents[..k])), s.ChosenFor(sents[k].num))
  {
    hide Peeled, Chosen;
    assert sents[..k + 1][..k] == sents[..k];
    assert NumsOf(sents[..k + 1])[..k] == NumsOf(sents[..k]);
  }

  lemma {:induction false} TrackedFullIffCounted(
      s: Sender, ty: string, of: Option<Cbor.Part>, was: string, seen: set<nat>, known: seq<byte>)
    requires 0 < s.seqLen && Tracks(s, ty, of, was, seen, known)
    ensures Holds(s.message, s.FragLen(), seen, known)
    ensures of.Some? ==> of.value.seqLen == s.seqLen && of.value.checksum == s.Header(1).checksum
    ensures |seen| == s.seqLen <==> seen == Numbers(s.seqLen)
    ensures of.None? ==> seen == {}
  {
    FullIffCounted(seen, s.seqLen);
  }
}
