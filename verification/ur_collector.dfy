/**
 Collecting the fragments of one message from whatever parts arrive, in whatever order.

 `Collector` keeps no payload: it says where a fragment belongs, the caller stores it and then
 confirms it. A part past `seq_len` is reduced against the fragments already stored.
 */
module UrCollector {
  import opened Bytes
  import opened BitWords
  import opened Wrappers
  import opened Fountain
  import opened AliasTable
  import opened UrEncode
  import Cbor

  const MAX_PARTS: nat := 1024
  const MAX_TYPE: nat := 32
  const SEEN_WORDS: nat := 16

  datatype Error =
    | NotUr
    | Numbering
    | Bytewords
    | BadCbor(why: Cbor.Error)
    | Mixture(seqNum: nat, seqLen: nat)
    | Mismatch
    | TypeMismatch
    | TypeTooLong

  type Result<T> = Outcome<T, Error>

  /** A line as the text layer reads it: the bytewords are sound, or they are not. */
  datatype Line =
    | NotALine
    | Ur(ty: string, sequenced: bool, payload: Option<seq<byte>>)

  /** Where a part's bytes are in the scratch buffer, and where they belong. */
  datatype Placed = Placed(index: nat, start: nat, end: nat, offset: nat, len: nat, isNew: bool, have: nat, total: nat)

  function LowerChar(c: char): char {
    if 'A' <= c <= 'Z' then ((c as int) + 32) as char else c
  }

  function Lower(s: string): (r: string)
    ensures |r| == |s|
  {
    if s == "" then "" else [LowerChar(s[0])] + Lower(s[1..])
  }

  lemma {:induction false} LowerTwice(s: string)
    ensures Lower(Lower(s)) == Lower(s)
  {
    if s != "" {
      LowerTwice(s[1..]);
    }
  }

  /** Two types are the same exactly when they are letter for letter, upper or lower case. */
  lemma {:induction false} SameTypeIff(s: string, t: string)
    ensures Lower(s) == Lower(t) <==> |s| == |t| && forall i :: 0 <= i < |s| ==> SameLetter(s[i], t[i])
  {
    if s != "" && t != "" {
      SameTypeIff(s[1..], t[1..]);
      assert Lower(s)[1..] == Lower(s[1..]) && Lower(t)[1..] == Lower(t[1..]);
      assert Lower(s) == Lower(t) <==> LowerChar(s[0]) == LowerChar(t[0]) && Lower(s[1..]) == Lower(t[1..]);
      assert LowerChar(s[0]) == LowerChar(t[0]) <==> SameLetter(s[0], t[0]);
      if |s| == |t| && forall i :: 0 <= i < |s| ==> SameLetter(s[i], t[i]) {
        assert forall i :: 0 <= i < |s| - 1 ==> SameLetter(s[1..][i], t[1..][i]);
      }
      if SameLetter(s[0], t[0]) && |s| == |t| && forall i :: 0 <= i < |s| - 1 ==> SameLetter(s[1..][i], t[1..][i]) {
        forall i | 0 <= i < |s| ensures SameLetter(s[i], t[i]) {
          if i > 0 {
            assert SameLetter(s[1..][i - 1], t[1..][i - 1]);
          }
        }
      }
    }
  }

  ghost predicate SameLetter(a: char, b: char) {
    || a == b
    || ('A' <= a <= 'Z' && b as int == a as int + 32)
    || ('A' <= b <= 'Z' && a as int == b as int + 32)
  }

  /** What is being collected: one message, told by its type and the header fields that repeat. */
  datatype About = About(part: Cbor.Part, ty: string)

  predicate SameMessage(a: Cbor.Part, b: Cbor.Part) {
    a.seqLen == b.seqLen && a.messageLen == b.messageLen && a.checksum == b.checksum
  }

  /** What a sound line carries: its header and where its fragment is in the decoded bytes. */
  function Carried(sequenced: bool, payload: seq<byte>, checksum: Checksum): (r: Result<(Cbor.Part, nat, nat)>)
    ensures r.Ok? ==> r.value.1 <= r.value.2 <= |payload|
  {
    if !sequenced then
      Ok((Cbor.Part(1, 1, |payload| % U32_BOUND, checksum(payload)), 0, |payload|))
    else
      match Cbor.PartOf(payload)
      case Ok(p) => Ok(p)
      case Err(e) => Err(BadCbor(e))
  }

  /** Everything `accept` checks before it records anything, in its order. */
  function Admit(of: Option<Cbor.Part>, ty: string, line: Line, room: nat, checksum: Checksum)
    : (r: Result<(Cbor.Part, nat, nat)>)
    ensures r.Ok? ==>
              && line.Ur? && |line.ty| <= MAX_TYPE && line.payload.Some? && |line.payload.value| <= room
              && r.value.1 <= r.value.2 <= |line.payload.value|
              && 0 < r.value.0.seqLen <= MAX_PARTS && 0 < r.value.0.seqNum
              && r.value.2 - r.value.1 == FragmentLen(r.value.0.messageLen, r.value.0.seqLen)
  {
    if line.NotALine? then Err(NotUr)
    else if |line.ty| > MAX_TYPE then Err(TypeTooLong)
    else if line.payload.None? || |line.payload.value| > room then Err(Bytewords)
    else
      var (part, start, end) :- Carried(line.sequenced, line.payload.value, checksum);
      if part.seqLen == 0 || part.seqLen > MAX_PARTS then Err(Numbering)
      else if part.seqNum == 0 then Err(Numbering)
      else if of.Some? && Lower(ty) != Lower(line.ty) then Err(TypeMismatch)
      else if of.Some? && !SameMessage(of.value, part) then Err(Mismatch)
      else if end - start != FragmentLen(part.messageLen, part.seqLen) then Err(Mismatch)
      else Ok((part, start, end))
  }

  function Min(a: nat, b: nat): nat { if a <= b then a else b }

  /** Where fragment `index` of a message goes. */
  function PlacedAt(p: Cbor.Part, index: nat, start: nat, end: nat, isNew: bool, have: nat): Placed
    requires 0 < p.seqLen
  {
    var f := FragmentLen(p.messageLen, p.seqLen);
    var offset := f * index;
    var left := if offset <= p.messageLen then p.messageLen - offset else 0;
    Placed(index, start, end, offset, Min(f, left), isNew, have, p.seqLen)
  }

  class Collector {
    var of: Option<Cbor.Part>
    var ty: string
    var seen: seq<nat>
    var count: nat

    ghost predicate Valid()
      reads this
    {
      && |seen| == SEEN_WORDS && Words(seen) && count == |Members(seen)|
      && (of.Some? ==> 0 < of.value.seqLen <= MAX_PARTS && ty == Lower(ty))
      && (of.None? ==> Members(seen) == {})
    }

    ghost function Seen(): set<nat>
      reads this
    {
      Members(seen)
    }

    constructor ()
      ensures Valid() && of == None && Seen() == {}
    {
      of := None;
      ty := "";
      var words := NoneSeen();
      seen := words;
      count := 0;
    }

    static method NoneSeen() returns (words: seq<nat>)
      ensures |words| == SEEN_WORDS && Words(words) && Members(words) == {}
    {
      ZeroFits(WIDTH);
      words := [0, 0, 0, 0, 0, 0, 0, 0, 0, 0, 0, 0, 0, 0, 0, 0];
      IsEmptySound(words);
    }

    /** Every fragment has been stored. */
    predicate Complete()
      reads this
    {
      of.Some? && count == of.value.seqLen
    }

    predicate Verify(message: seq<byte>, checksum: Checksum)
      reads this
    {
      of.Some? && Complete() && checksum(message) == of.value.checksum
    }

    /** Record that a fragment has been stored. */
    method Confirm(placed: Placed) returns (r: Placed)
      requires Valid() && of.Some? && placed.index < MAX_PARTS
      modifies this`seen, this`count
      ensures Valid() && Seen() == old(Seen()) + {placed.index}
      ensures r == placed.(isNew := placed.index !in old(Seen()), have := count)
    {
      var isNew := !Has(seen, placed.index);
      WithSound(seen, placed.index);
      if isNew {
        seen := With(seen, placed.index);
        count := count + 1;
      }
      r := placed.(isNew := isNew, have := count);
    }

    /** The members of `words` that have not been stored. */
    method Missing(words: seq<nat>, seqLen: nat) returns (missing: seq<nat>)
      requires Valid() && |words| == BITMAP_WORDS && Words(words)
      requires forall i :: i in Members(words) ==> i < seqLen
      ensures |missing| == BITMAP_WORDS && Words(missing) && Members(missing) == Members(words) - Seen()
    {
      missing := words;
      for i := 0 to seqLen
        invariant |missing| == BITMAP_WORDS && Words(missing)
        invariant Members(missing) == Members(words) - set j: nat | 0 <= j < i && j in Seen()
      {
        if Has(seen, i) {
          WithoutBitSound(missing, i);
          missing := WithoutBit(missing, i);
        }
      }
    }

    /** Turn a mixture into the one fragment it can still be, in place. */
    method Unmix(part: Cbor.Part, start: nat, end: nat, scratch: array<byte>, known: Option<seq<byte>>, seeder: Seeder)
      returns (r: Result<nat>)
      requires Valid() && 0 < part.seqNum && 0 < part.seqLen
      requires start <= end <= scratch.Length && end - start == FragmentLen(part.messageLen, part.seqLen)
      modifies scratch
      ensures match Reducible(part, Seen(), known, seeder)
              case Err(e) => r == Err(e)
              case Ok(t) => r == Ok(t) && Reduced(old(scratch[start..end]), scratch[start..end], known.value, part, t, seeder)
      ensures scratch[..start] == old(scratch[..start]) && scratch[end..] == old(scratch[end..])
    {
      hide TargetOf;
      hide PartChosen;
      var refused := Mixture(part.seqNum, part.seqLen);
      if known.None? {
        return Err(refused);
      }
      var words;
      words, r := Target(part, seeder);
      if r.Ok? {
        var ok := XorOut(words, part.seqLen, r.value, end - start, known.value, scratch, start);
        if !ok {
          return Err(refused);
        }
      }
    }

    /** The fragments a mixture combines, and the only one of them still missing. */
    method Target(part: Cbor.Part, seeder: Seeder) returns (words: seq<nat>, r: Result<nat>)
      requires Valid() && 0 < part.seqNum && 0 < part.seqLen
      ensures r == TargetOf(part, Seen(), seeder)
      ensures r.Ok? ==> Members(words) == PartChosen(part, seeder) && forall i :: i in Members(words) ==> i < part.seqLen
    {
      words := [];
      var chosen := ChooseFragments(part.seqNum, part.seqLen, part.checksum, seeder);
      if chosen.None? {
        return words, Err(Numbering);
      }
      words := chosen.value;
      ChosenIsProper(part.seqNum, part.seqLen, part.checksum, seeder);
      var missing := Missing(words, part.seqLen);
      OnlySound(missing);
      var target := Only(missing);
      if target.None? {
        return words, Err(Mixture(part.seqNum, part.seqLen));
      }
      OnlyOne(Members(missing), target.value);
      return words, Ok(target.value);
    }

    /** Read one line, decoding it into `scratch`. The part is not counted until it is confirmed. */
    method AcceptMixing(line: Line, scratch: array<byte>, known: Option<seq<byte>>, checksum: Checksum, seeder: Seeder)
      returns (r: Result<Placed>)
      requires Valid()
      modifies this`of, this`ty, scratch
      ensures Valid()
      ensures match Admit(old(of), old(ty), line, scratch.Length, checksum)
              case Err(e) => r == Err(e) && of == old(of) && ty == old(ty)
              case Ok((part, start, end)) =>
                && (if old(of).None? then of == Some(part) && ty == Lower(line.ty) else of == old(of) && ty == old(ty))
                && Accepted(part, start, end, line.payload.value[start..end], scratch[start..end], Seen(), count, known, seeder, r)
    {
      hide Accepted, Lower, Carried, FragmentLen;
      if line.NotALine? {
        return Err(NotUr);
      }
      if |line.ty| > MAX_TYPE {
        return Err(TypeTooLong);
      }
      if line.payload.None? || |line.payload.value| > scratch.Length {
        return Err(Bytewords);
      }
      CopyInto(scratch, line.payload.value);
      var carried :- PartIn(line.sequenced, line.payload.value, checksum);
      var (part, start, end) := carried;
      if part.seqLen == 0 || part.seqLen > MAX_PARTS {
        return Err(Numbering);
      }
      if part.seqNum == 0 {
        return Err(Numbering);
      }
      if of.Some? {
        if Lower(ty) != Lower(line.ty) {
          return Err(TypeMismatch);
        }
        if of.value.seqLen != part.seqLen || of.value.messageLen != part.messageLen || of.value.checksum != part.checksum {
          return Err(Mismatch);
        }
      }
      if end - start != FragmentLen(part.messageLen, part.seqLen) {
        return Err(Mismatch);
      }
      ghost var data := line.payload.value[start..end];
      assert scratch[start..end] == data;
      if of.None? {
        LowerTwice(line.ty);
        ty := Lower(line.ty);
        of := Some(part);
      }
      r := Place(part, start, end, data, scratch, known, seeder);
    }

    /** Where an admitted part belongs, once a mixture has been reduced. */
    method Place(part: Cbor.Part, start: nat, end: nat, ghost data: seq<byte>, scratch: array<byte>,
                 known: Option<seq<byte>>, seeder: Seeder)
      returns (r: Result<Placed>)
      requires Valid() && 0 < part.seqNum && 0 < part.seqLen
      requires start <= end <= scratch.Length && end - start == FragmentLen(part.messageLen, part.seqLen)
      requires scratch[start..end] == data
      modifies scratch
      ensures Accepted(part, start, end, data, scratch[start..end], Seen(), count, known, seeder, r)
    {
      var index := part.seqNum - 1;
      if part.seqNum > part.seqLen {
        var target := Unmix(part, start, end, scratch, known, seeder);
        if target.Err? {
          return Err(target.error);
        }
        index := target.value;
      }
      var placed := PlaceOf(part, index, start, end);
      return Ok(placed);
    }

    /** Where fragment `index` goes, and how much of it is message. */
    method PlaceOf(part: Cbor.Part, index: nat, start: nat, end: nat) returns (placed: Placed)
      requires Valid() && 0 < part.seqLen
      ensures placed == PlacedAt(part, index, start, end, index !in Seen(), count)
    {
      hide FragmentLen;
      HasIsMember(seen, index);
      var fragment := FragmentLen(part.messageLen, part.seqLen);
      var offset := fragment * index;
      var left := if part.messageLen < offset then 0 else part.messageLen - offset;
      return Placed(index, start, end, offset, if left < fragment then left else fragment, !Has(seen, index), count, part.seqLen);
    }
  }

  /** The part a decoded line carries: a whole message is its own only part. */
  method PartIn(sequenced: bool, payload: seq<byte>, checksum: Checksum) returns (r: Result<(Cbor.Part, nat, nat)>)
    ensures r == Carried(sequenced, payload, checksum)
  {
    if !sequenced {
      return Ok((Cbor.Part(1, 1, |payload| % U32_BOUND, checksum(payload)), 0, |payload|));
    }
    var part := Cbor.ReadPart(payload);
    match part
    case Ok(p) => return Ok(p);
    case Err(e) => return Err(BadCbor(e));
  }

  method CopyInto(scratch: array<byte>, payload: seq<byte>)
    requires |payload| <= scratch.Length
    modifies scratch
    ensures scratch[..|payload|] == payload && scratch[|payload|..] == old(scratch[|payload|..])
  {
    for i := 0 to |payload|
      invariant scratch[..i] == payload[..i] && scratch[|payload|..] == old(scratch[|payload|..])
    {
      scratch[i] := payload[i];
    }
  }

  // ---------------------------------------------------------------------------
  // What a mixture reduces to
  // ---------------------------------------------------------------------------

  /** Every one of the fragments `chosen` names is within what is held. */
  ghost predicate WithinKnown(chosen: set<nat>, f: nat, known: seq<byte>) {
    forall i :: i in chosen ==> Slot(known, f, i).Some?
  }

  /** `known.get(i * f..i * f + f)`: fragment `i` of what is held. */
  function Slot(known: seq<byte>, f: nat, i: nat): (r: Option<seq<byte>>)
    ensures r.Some? ==> |r.value| == f && forall k :: 0 <= k < f ==> PaddedAt(known, i * f + k) == r.value[k]
  {
    if i * f + f <= |known| then Some(known[i * f..i * f + f]) else None
  }

  ghost function PartChosen(p: Cbor.Part, seeder: Seeder): set<nat>
    requires 0 < p.seqNum && 0 < p.seqLen
  {
    Chosen(p.seqNum, p.seqLen, p.checksum, seeder)
  }

  /** The only fragment of a mixture that is not stored. */
  ghost function TargetOf(p: Cbor.Part, seen: set<nat>, seeder: Seeder): Result<nat>
    requires 0 < p.seqNum && 0 < p.seqLen
  {
    var missing := PartChosen(p, seeder) - seen;
    if p.seqLen > MAX_FRAGMENTS then Err(Numbering)
    else if |missing| != 1 then Err(Mixture(p.seqNum, p.seqLen))
    else Ok(TheOne(missing))
  }

  /** Which fragment a mixture can be reduced to, given those stored. */
  ghost function Reducible(p: Cbor.Part, seen: set<nat>, known: Option<seq<byte>>, seeder: Seeder): Result<nat>
    requires 0 < p.seqNum && 0 < p.seqLen
  {
    if known.None? then Err(Mixture(p.seqNum, p.seqLen))
    else
      var t :- TargetOf(p, seen, seeder);
      if WithinKnown(PartChosen(p, seeder) - {t}, FragmentLen(p.messageLen, p.seqLen), known.value) then Ok(t)
      else Err(Mixture(p.seqNum, p.seqLen))
  }

  ghost function TheOne(s: set<nat>): (t: nat)
    requires |s| == 1
    ensures t in s
  {
    var t :| t in s; t
  }

  lemma OnlyOne(s: set<nat>, t: nat)
    requires s == {t}
    ensures |s| == 1 && TheOne(s) == t
  {
  }

  /** `after` is `before` with the other chosen fragments XORed out. */
  ghost predicate Reduced(before: seq<byte>, after: seq<byte>, known: seq<byte>, p: Cbor.Part, t: nat, seeder: Seeder)
    requires 0 < p.seqNum && 0 < p.seqLen
  {
    XoredOut(before, after, known, PartChosen(p, seeder) - {t}, p.seqLen)
  }

  ghost predicate XoredOut(before: seq<byte>, after: seq<byte>, known: seq<byte>, chosen: set<nat>, n: nat) {
    XoredUpTo(before, after, known, chosen, n, n)
  }

  /** As far as the first `i` fragments go. */
  ghost predicate XoredUpTo(before: seq<byte>, after: seq<byte>, known: seq<byte>, chosen: set<nat>, n: nat, i: nat)
    requires i <= n
  {
    && |after| == |before|
    && forall k :: 0 <= k < |after| ==> after[k] == Xor(before[k], XorOver(Column(known, |after|, k, n), chosen, i))
  }

  ghost predicate XorsTo(before: seq<byte>, src: seq<byte>, after: seq<byte>) {
    |before| == |src| == |after| && forall k :: 0 <= k < |after| ==> after[k] == Xor(before[k], src[k])
  }

  lemma {:induction false} NothingXored(before: seq<byte>, known: seq<byte>, chosen: set<nat>, n: nat)
    ensures XoredUpTo(before, before, known, chosen, n, 0)
  {
    forall k | 0 <= k < |before| ensures before[k] == Xor(before[k], XorOver(Column(known, |before|, k, n), chosen, 0)) {
      XorZero(before[k]);
    }
  }

  lemma {:induction false} OneMoreXored(before: seq<byte>, mid: seq<byte>, src: seq<byte>, after: seq<byte>,
                                        known: seq<byte>, chosen: set<nat>, n: nat, i: nat)
    requires i < n && XoredUpTo(before, mid, known, chosen, n, i) && XorsTo(mid, src, after) && i in chosen
    requires Slot(known, |src|, i) == Some(src)
    ensures XoredUpTo(before, after, known, chosen, n, i + 1)
  {
    forall k | 0 <= k < |after|
      ensures after[k] == Xor(before[k], XorOver(Column(known, |after|, k, n), chosen, i + 1))
    {
      var column := Column(known, |after|, k, n);
      assert column[i] == src[k];
      XorAssociates(before[k], XorOver(column, chosen, i), column[i]);
    }
  }

  lemma {:induction false} OneSkipped(before: seq<byte>, after: seq<byte>, known: seq<byte>, chosen: set<nat>, n: nat, i: nat)
    requires i < n && XoredUpTo(before, after, known, chosen, n, i) && i !in chosen
    ensures XoredUpTo(before, after, known, chosen, n, i + 1)
  {
  }

  /** What `AcceptMixing` returns for an admitted part, and what it leaves where the fragment is. */
  ghost predicate Accepted(p: Cbor.Part, start: nat, end: nat, data: seq<byte>, left: seq<byte>, seen: set<nat>,
                           count: nat, known: Option<seq<byte>>, seeder: Seeder, r: Result<Placed>)
    requires 0 < p.seqNum && 0 < p.seqLen
  {
    if p.seqNum <= p.seqLen then
      r == Ok(PlacedAt(p, p.seqNum - 1, start, end, p.seqNum - 1 !in seen, count)) && left == data
    else
      match Reducible(p, seen, known, seeder)
      case Err(e) => r == Err(e)
      case Ok(t) =>
        r == Ok(PlacedAt(p, t, start, end, t !in seen, count)) && Reduced(data, left, known.value, p, t, seeder)
  }

  /** XOR `src` into the buffer at `start`. */
  method XorInto(scratch: array<byte>, start: nat, src: seq<byte>)
    requires start + |src| <= scratch.Length
    modifies scratch
    ensures XorsTo(old(scratch[start..start + |src|]), src, scratch[start..start + |src|])
    ensures scratch[..start] == old(scratch[..start]) && scratch[start + |src|..] == old(scratch[start + |src|..])
  {
    for i := 0 to |src|
      invariant forall k :: 0 <= k < i ==> scratch[start + k] == Xor(old(scratch[start + k]), src[k])
      invariant forall k :: start + i <= k < scratch.Length ==> scratch[k] == old(scratch[k])
      invariant forall k :: 0 <= k < start ==> scratch[k] == old(scratch[k])
    {
      scratch[start + i] := Xor(scratch[start + i], src[i]);
    }
  }

  /** One chosen fragment XORed out of the mixture at `start`, if enough is held. */
  method XorOne(f: nat, known: seq<byte>, scratch: array<byte>, start: nat, ghost was: seq<byte>, ghost others: set<nat>,
                ghost n: nat, i: nat)
    returns (ok: bool)
    requires start + f <= scratch.Length && i < n && i in others
    requires XoredUpTo(was, scratch[start..start + f], known, others, n, i)
    modifies scratch
    ensures ok <==> Slot(known, f, i).Some?
    ensures ok ==> XoredUpTo(was, scratch[start..start + f], known, others, n, i + 1)
    ensures scratch[..start] == old(scratch[..start]) && scratch[start + f..] == old(scratch[start + f..])
  {
    var src := Slot(known, f, i);
    if src.None? {
      return false;
    }
    ghost var mid := scratch[start..start + f];
    XorInto(scratch, start, src.value);
    OneMoreXored(was, mid, src.value, scratch[start..start + f], known, others, n, i);
    return true;
  }

  /** XOR every chosen fragment but one out of the mixture at `start`. */
  method XorOut(words: seq<nat>, seqLen: nat, target: nat, f: nat, known: seq<byte>, scratch: array<byte>, start: nat)
    returns (ok: bool)
    requires start + f <= scratch.Length && forall i :: i in Members(words) ==> i < seqLen
    modifies scratch
    ensures ok <==> WithinKnown(Members(words) - {target}, f, known)
    ensures ok ==> XoredOut(old(scratch[start..start + f]), scratch[start..start + f], known, Members(words) - {target}, seqLen)
    ensures scratch[..start] == old(scratch[..start]) && scratch[start + f..] == old(scratch[start + f..])
  {
    ghost var others := Members(words) - {target};
    ghost var was := scratch[start..start + f];
    NothingXored(was, known, others, seqLen);
    for i: nat := 0 to seqLen
      invariant forall j :: j in others && j < i ==> Slot(known, f, j).Some?
      invariant XoredUpTo(was, scratch[start..start + f], known, others, seqLen, i)
      invariant scratch[..start] == old(scratch[..start]) && scratch[start + f..] == old(scratch[start + f..])
    {
      if i == target || !Has(words, i) {
        OneSkipped(was, scratch[start..start + f], known, others, seqLen, i);
        continue;
      }
      var ok := XorOne(f, known, scratch, start, was, others, seqLen, i);
      if !ok {
        return false;
      }
    }
    return true;
  }
}
