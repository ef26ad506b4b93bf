/**
 The CBOR heads the UR transport reads and writes, and the walk that steps over an item.

 `Reader.Skip` is a loop with a count of pending items; it is held against the recursive
 grammar of section 3 of RFC 8949.
 */
module Cbor {
  import opened Bytes
  import opened Wrappers

  datatype Error =
    | Short
    | Unsupported(info: nat)
    | WrongType(expected: nat, found: nat)
    | NotAPart
    | TooLarge
    | TooDeep
    | NoRoom

  type Result<T> = Outcome<T, Error>

  const UINT: nat := 0
  const NINT: nat := 1
  const BYTES: nat := 2
  const TEXT: nat := 3
  const ARRAY: nat := 4
  const MAP: nat := 5
  const TAG: nat := 6
  const SIMPLE: nat := 7

  const SKIP_LIMIT: nat := 4096

  // ---------------------------------------------------------------------------
  // Heads
  // ---------------------------------------------------------------------------

  /** How many bytes follow a first byte with additional information `info`. */
  function Width(info: nat): Result<nat> {
    if info <= 23 then Ok(0)
    else if info == 24 then Ok(1)
    else if info == 25 then Ok(2)
    else if info == 26 then Ok(4)
    else if info == 27 then Ok(8)
    else Err(Unsupported(info))
  }

  /** The count that `info`, and the bytes at `pos`, encode; and where the next byte is. */
  function CountAt(buf: seq<byte>, pos: nat, info: nat): (r: Result<(nat, nat)>)
    requires pos <= |buf| && info < 32
    ensures r.Ok? ==> r.value.0 < U64_BOUND && pos <= r.value.1 <= |buf|
  {
    var width :- Width(info);
    if width == 0 then Ok((info, pos))
    else if |buf| - pos < width then Err(Short)
    else
      Pow256Bounds(width);
      Ok((FromBe(buf[pos..pos + width]), pos + width))
  }

  lemma {:induction false} Pow256Bounds(width: nat)
    requires width == 1 || width == 2 || width == 4 || width == 8
    ensures Pow256(width) <= U64_BOUND
    ensures Pow256(1) == 0x100 && Pow256(2) == 0x1_0000 && Pow256(4) == U32_BOUND && Pow256(8) == U64_BOUND
  {
    Pow256Four();
  }

  /** An item's head: its major type, its argument, and where what follows it starts. */
  datatype Head = Head(major: nat, arg: nat, next: nat)

  function Major(b: byte): nat { b as nat / 32 }

  function Info(b: byte): nat { b as nat % 32 }

  function HeadAt(buf: seq<byte>, pos: nat): (r: Result<Head>)
    requires pos <= |buf|
    ensures r.Ok? ==> r.value.major < 8 && r.value.arg < U64_BOUND && pos < r.value.next <= |buf|
  {
    if pos == |buf| then Err(Short) else
      var (arg, next) :- CountAt(buf, pos + 1, Info(buf[pos]));
      Ok(Head(Major(buf[pos]), arg, next))
  }

  /** A head spelt out: the argument in the first byte, or in the one, two, four or eight after it. */
  ghost predicate HeadStands(buf: seq<byte>, pos: nat, h: Head) {
    && pos < |buf| && h.major == buf[pos] as nat / 32 && h.next <= |buf|
    && match buf[pos] % 32
       case 24 => h.next == pos + 2 && h.arg == FromBe(buf[pos + 1..pos + 2])
       case 25 => h.next == pos + 3 && h.arg == FromBe(buf[pos + 1..pos + 3])
       case 26 => h.next == pos + 5 && h.arg == FromBe(buf[pos + 1..pos + 5])
       case 27 => h.next == pos + 9 && h.arg == FromBe(buf[pos + 1..pos + 9])
       case info => info < 24 && h.next == pos + 1 && h.arg == info as nat
  }

  /** A head is read exactly when one stands there whole; the reserved forms are named, and nothing else is. */
  lemma HeadReadsIff(buf: seq<byte>, pos: nat, h: Head)
    requires pos <= |buf|
    ensures HeadAt(buf, pos) == Ok(h) <==> HeadStands(buf, pos, h)
    ensures (exists info :: HeadAt(buf, pos) == Err(Unsupported(info))) <==> pos < |buf| && buf[pos] % 32 > 27
    ensures pos < |buf| && buf[pos] % 32 > 27 ==> HeadAt(buf, pos) == Err(Unsupported(buf[pos] as nat % 32))
  {
  }

  // ---------------------------------------------------------------------------
  // The grammar
  // ---------------------------------------------------------------------------

  /**
   Where an item ends, how many data items it is (itself and all inside it), and whether every
   two-byte simple value in it is 32 or more.
   */
  datatype Extent = Extent(end: nat, count: nat, plain: bool)

  /** Bytes of content right after a head. */
  function ContentLength(h: Head): nat {
    if h.major == BYTES || h.major == TEXT then h.arg else 0
  }

  /** Items nested inside the item with this head. */
  function Nested(h: Head): nat {
    if h.major == ARRAY then h.arg
    else if h.major == MAP then 2 * h.arg
    else if h.major == TAG then 1
    else 0
  }

  /** A two-byte simple value below 32, which section 3.3 of RFC 8949 says is not well-formed. */
  predicate BadSimple(buf: seq<byte>, pos: nat)
    requires pos < |buf|
  {
    Major(buf[pos]) == SIMPLE && Info(buf[pos]) == 24 && HeadAt(buf, pos).Ok? && HeadAt(buf, pos).value.arg < 32
  }

  /** The definite-length item at `pos`, if there is one; `strict` refuses bad simple values. */
  function ItemAt(buf: seq<byte>, pos: nat, strict: bool): (r: Option<Extent>)
    requires pos <= |buf|
    ensures r.Some? ==> pos < r.value.end <= |buf| && 1 <= r.value.count <= r.value.end - pos
    decreases |buf| - pos, 0
  {
    match HeadAt(buf, pos)
    case Err(_) => None
    case Ok(h) =>
      if strict && BadSimple(buf, pos) then None
      else if |buf| - h.next < ContentLength(h) then None
      else
        match ItemsAt(buf, h.next + ContentLength(h), Nested(h), strict)
        case None => None
        case Some(e) => Some(Extent(e.end, 1 + e.count, !BadSimple(buf, pos) && e.plain))
  }

  /** One stretch of items and then another. */
  function Then(first: Extent, second: Option<Extent>): (r: Option<Extent>)
    ensures r.Some? <==> second.Some?
    ensures r.Some? ==> r.value == Extent(second.value.end, first.count + second.value.count, first.plain && second.value.plain)
  {
    match second
    case None => None
    case Some(e) => Some(Extent(e.end, first.count + e.count, first.plain && e.plain))
  }

  /** `n` items one after another. */
  function ItemsAt(buf: seq<byte>, pos: nat, n: nat, strict: bool): (r: Option<Extent>)
    requires pos <= |buf|
    ensures r.Some? ==> pos <= r.value.end <= |buf| && n <= r.value.count <= r.value.end - pos
    decreases |buf| - pos, 1, n
  {
    if n == 0 then Some(Extent(pos, 0, true)) else
      match ItemAt(buf, pos, strict)
      case None => None
      case Some(e) => Then(e, ItemsAt(buf, e.end, n - 1, strict))
  }

  /** The strict grammar is the lenient one, less the items with a bad simple value in them. */
  lemma {:induction false} StrictItem(buf: seq<byte>, pos: nat)
    requires pos <= |buf|
    ensures var lax := ItemAt(buf, pos, false);
            ItemAt(buf, pos, true) == if lax.Some? && lax.value.plain then lax else None
    decreases |buf| - pos, 0
  {
    hide HeadAt, ContentLength, Nested;
    match HeadAt(buf, pos)
    case Err(_) =>
    case Ok(h) =>
      if |buf| - h.next >= ContentLength(h) {
        StrictItems(buf, h.next + ContentLength(h), Nested(h));
      }
  }

  lemma {:induction false} StrictItems(buf: seq<byte>, pos: nat, n: nat)
    requires pos <= |buf|
    ensures var lax := ItemsAt(buf, pos, n, false);
            ItemsAt(buf, pos, n, true) == if lax.Some? && lax.value.plain then lax else None
    decreases |buf| - pos, 1, n
  {
    if n > 0 {
      StrictItem(buf, pos);
      var e := ItemAt(buf, pos, false);
      if e.Some? {
        StrictItems(buf, e.value.end, n - 1);
      }
    }
  }

  /** What the walk is held against: `n` items, bad simple values allowed. */
  function Walk(buf: seq<byte>, pos: nat, n: nat): (r: Option<Extent>)
    requires pos <= |buf|
    ensures r.Some? ==> pos <= r.value.end <= |buf| && n <= r.value.count <= r.value.end - pos
  {
    ItemsAt(buf, pos, n, false)
  }

  function WalkOne(buf: seq<byte>, pos: nat): (r: Option<Extent>)
    requires pos <= |buf|
    ensures r.Some? ==> pos < r.value.end <= |buf|
  {
    ItemAt(buf, pos, false)
  }

  function AndThen(first: Option<Extent>, buf: seq<byte>, n: nat): Option<Extent>
    requires first.Some? ==> first.value.end <= |buf|
  {
    match first
    case None => None
    case Some(e) => Then(e, Walk(buf, e.end, n))
  }

  lemma {:induction false} ThenAssociates(first: Extent, middle: Option<Extent>, buf: seq<byte>, n: nat)
    requires middle.Some? ==> middle.value.end <= |buf|
    ensures AndThen(Then(first, middle), buf, n) == Then(first, AndThen(middle, buf, n))
  {
  }

  lemma {:induction false} WalkNext(buf: seq<byte>, pos: nat, n: nat)
    requires pos <= |buf| && 0 < n
    ensures Walk(buf, pos, n) == AndThen(WalkOne(buf, pos), buf, n - 1)
  {
  }

  lemma {:induction false} WalkNone(buf: seq<byte>, pos: nat)
    requires pos <= |buf|
    ensures Walk(buf, pos, 0) == Some(Extent(pos, 0, true))
  {
  }

  lemma {:induction false} WalkInto(buf: seq<byte>, pos: nat, h: Head)
    requires pos <= |buf| && HeadAt(buf, pos) == Ok(h)
    ensures WalkOne(buf, pos) ==
            if |buf| - h.next < ContentLength(h) then None
            else Then(Extent(h.next, 1, !BadSimple(buf, pos)), Walk(buf, h.next + ContentLength(h), Nested(h)))
  {
  }

  lemma {:induction false} WalkStuck(buf: seq<byte>, pos: nat, n: nat)
    requires pos <= |buf| && 0 < n && HeadAt(buf, pos).Err?
    ensures Walk(buf, pos, n) == None
  {
    WalkNext(buf, pos, n);
    assert WalkOne(buf, pos) == None;
  }

  /** Items told as some of them and then the others. */
  lemma {:induction false} WalkSplit(buf: seq<byte>, pos: nat, m: nat, n: nat)
    requires pos <= |buf|
    ensures Walk(buf, pos, m + n) == AndThen(Walk(buf, pos, m), buf, n)
    decreases m
  {
    if m > 0 {
      WalkNext(buf, pos, m);
      WalkNext(buf, pos, m + n);
      var e := WalkOne(buf, pos);
      if e.Some? {
        WalkSplit(buf, e.value.end, m - 1, n);
        ThenAssociates(e.value, Walk(buf, e.value.end, m - 1), buf, n);
      }
    } else {
      WalkNone(buf, pos);
    }
  }

  /**
   One step of the walk: with `pending` items to go, reading a head leaves the items nested in
   it, and the others, to go -- and the same items in all.
   */
  lemma {:induction false} OneStep(buf: seq<byte>, pos: nat, pending: nat, h: Head)
    requires pos <= |buf| && 0 < pending && HeadAt(buf, pos) == Ok(h)
    ensures |buf| - h.next < ContentLength(h) ==> Walk(buf, pos, pending) == None
    ensures |buf| - h.next >= ContentLength(h) ==>
              Walk(buf, pos, pending) == Then(Extent(h.next, 1, !BadSimple(buf, pos)),
                                              Walk(buf, h.next + ContentLength(h), Nested(h) + (pending - 1)))
  {
    WalkNext(buf, pos, pending);
    WalkInto(buf, pos, h);
    var first := Extent(h.next, 1, !BadSimple(buf, pos));
    if |buf| - h.next >= ContentLength(h) {
      var after := h.next + ContentLength(h);
      var nested := Walk(buf, after, Nested(h));
      assert WalkOne(buf, pos) == Then(first, nested);
      WalkSplit(buf, after, Nested(h), pending - 1);
      ThenAssociates(first, nested, buf, pending - 1);
      assert Walk(buf, pos, pending) == AndThen(Then(first, nested), buf, pending - 1);
      assert Walk(buf, pos, pending) == Then(first, AndThen(nested, buf, pending - 1));
      assert AndThen(nested, buf, pending - 1) == Walk(buf, after, Nested(h) + (pending - 1));
    } else {
      assert WalkOne(buf, pos) == None;
      assert Walk(buf, pos, pending) == None;
    }
  }

  // ---------------------------------------------------------------------------
  // Reading
  // ---------------------------------------------------------------------------

  /** `bytes` folded big-endian, as `read_count` does it. */
  method FoldBe(bytes: seq<byte>) returns (n: nat)
    ensures n == FromBe(bytes)
  {
    n := 0;
    for i := 0 to |bytes|
      invariant n == FromBe(bytes[..i])
    {
      assert bytes[..i + 1][..i] == bytes[..i];
      n := n * 0x100 + bytes[i] as nat;
    }
    assert bytes[..|bytes|] == bytes;
  }

  method ReadCount(buf: seq<byte>, pos: nat, info: nat) returns (r: Result<(nat, nat)>)
    requires pos <= |buf| && info < 32
    ensures r == CountAt(buf, pos, info)
  {
    var width :- Width(info);
    if width == 0 {
      return Ok((info, pos));
    }
    if |buf| - pos < width {
      return Err(Short);
    }
    var n := FoldBe(buf[pos..pos + width]);
    return Ok((n, pos + width));
  }

  /** `pending + claimed`, refused when it passes `SKIP_LIMIT` or does not fit a `u64`. */
  function BoundedAdd(pending: nat, claimed: nat): Result<nat> {
    if pending + claimed < U64_BOUND && pending + claimed <= SKIP_LIMIT then Ok(pending + claimed) else Err(TooDeep)
  }

  function CheckedDouble(n: nat): Result<nat> {
    if 2 * n < U64_BOUND then Ok(2 * n) else Err(TooDeep)
  }

  /** What the walk's verdict has to be, given the item the grammar finds. */
  predicate Verdict(r: Result<()>, item: Option<Extent>) {
    && (r.Ok? <==> item.Some? && item.value.count <= SKIP_LIMIT)
    && (item.Some? && item.value.count > SKIP_LIMIT ==> r == Err(TooDeep))
  }

  class Reader {
    const buf: seq<byte>
    var pos: nat

    constructor (document: seq<byte>)
      ensures buf == document && pos == 0
    {
      buf := document;
      pos := 0;
    }

    /** An item's head; on an error the cursor stays where it was. */
    method ReadHead() returns (r: Result<Head>)
      requires pos <= |buf|
      modifies this
      ensures r == HeadAt(buf, old(pos))
      ensures pos == if r.Ok? then r.value.next else old(pos)
    {
      if pos == |buf| {
        return Err(Short);
      }
      var first := buf[pos];
      var count := ReadCount(buf, pos + 1, Info(first));
      if count.Err? {
        return Err(count.error);
      }
      pos := count.value.1;
      return Ok(Head(Major(first), count.value.0, pos));
    }

    /** An unsigned integer of type `expected`'s major, or why there is none. */
    method HeadOf(expected: nat) returns (r: Result<nat>)
      requires pos <= |buf|
      modifies this
      ensures old(pos) == |buf| ==> r == Err(Short)
      ensures old(pos) < |buf| && Major(buf[old(pos)]) != expected ==> r == Err(WrongType(expected, Major(buf[old(pos)])))
      ensures old(pos) < |buf| && Major(buf[old(pos)]) == expected ==>
                match HeadAt(buf, old(pos)) case Ok(h) => r == Ok(h.arg) && pos == h.next case Err(e) => r == Err(e)
      ensures r.Err? ==> pos == old(pos)
    {
      if pos == |buf| {
        return Err(Short);
      }
      if Major(buf[pos]) != expected {
        return Err(WrongType(expected, Major(buf[pos])));
      }
      var h := ReadHead();
      if h.Err? {
        return Err(h.error);
      }
      return Ok(h.value.arg);
    }

    /**
     Step over one item. It succeeds exactly on the items of the grammar with at most
     `SKIP_LIMIT` data items, and then stands right behind them; a longer item is too deep.
     */
    method Skip() returns (r: Result<()>)
      requires pos <= |buf| < U32_BOUND
      modifies this
      ensures pos <= |buf|
      ensures Verdict(r, WalkOne(buf, old(pos)))
      ensures r.Ok? ==> pos == WalkOne(buf, old(pos)).value.end
    {
      ghost var whole := WalkOne(buf, pos);
      WalkOneIsWalk(buf, pos);
      var pending: nat, steps: nat := 1, 0;
      while pending > 0
        invariant pos <= |buf| && pending <= SKIP_LIMIT && steps <= SKIP_LIMIT
        invariant Remaining(whole, steps, Walk(buf, pos, pending))
        decreases SKIP_LIMIT - steps
      {
        steps := steps + 1;
        if steps > SKIP_LIMIT || pending > SKIP_LIMIT {
          return Err(TooDeep);
        }
        pending := pending - 1;
        var next := SkipStep(pending);
        if next.Err? {
          return Err(next.error);
        }
        pending := next.value;
      }
      WalkNone(buf, pos);
      return Ok(());
    }

    /** Read one head and pass its content: how many items are then pending. */
    method SkipStep(pending: nat) returns (r: Result<nat>)
      requires pos <= |buf| < U32_BOUND && pending < SKIP_LIMIT
      modifies this
      ensures pos <= |buf|
      ensures r.Ok? ==> r.value <= SKIP_LIMIT
                        && Remaining(Walk(buf, old(pos), pending + 1), 1, Walk(buf, pos, r.value))
      ensures r.Err? ==>
                || Walk(buf, old(pos), pending + 1).None?
                || (r == Err(TooDeep) && Walk(buf, old(pos), pending + 1).value.count > SKIP_LIMIT + 1)
      ensures r.Err? ==> r.error == match HeadAt(buf, old(pos))
                                    case Err(e) => e
                                    case Ok(h) => if h.major != BYTES && h.major != TEXT then TooDeep
                                                  else if h.arg >= U32_BOUND then TooLarge else Short
    {
      hide Walk, HeadAt, BadSimple;
      ghost var start := pos;
      var head := ReadHead();
      if head.Err? {
        WalkStuck(buf, pos, pending + 1);
        return Err(head.error);
      }
      var h := head.value;
      OneStep(buf, start, pending + 1, h);
      if h.major == UINT || h.major == NINT || h.major == SIMPLE {
        return Ok(pending);
      } else if h.major == BYTES || h.major == TEXT {
        if h.arg >= U32_BOUND {
          return Err(TooLarge);
        }
        if |buf| - pos < h.arg {
          return Err(Short);
        }
        pos := pos + h.arg;
        return Ok(pending);
      } else if h.major == ARRAY {
        r := BoundedAdd(pending, h.arg);
      } else if h.major == MAP {
        var pairs := CheckedDouble(h.arg);
        if pairs.Err? {
          return pairs;
        }
        r := BoundedAdd(pending, pairs.value);
      } else {
        r := Ok(pending + 1);
      }
    }
  }

  /** `whole` is `steps` data items and then what `rest` says. */
  ghost predicate Remaining(whole: Option<Extent>, steps: nat, rest: Option<Extent>) {
    && whole.Some? == rest.Some?
    && (whole.Some? ==> whole.value.end == rest.value.end && whole.value.count == steps + rest.value.count)
  }

  lemma {:induction false} WalkOneIsWalk(buf: seq<byte>, pos: nat)
    requires pos <= |buf|
    ensures Remaining(WalkOne(buf, pos), 0, Walk(buf, pos, 1))
  {
    WalkNext(buf, pos, 1);
    var e := WalkOne(buf, pos);
    if e.Some? {
      WalkNone(buf, e.value.end);
    }
  }

  /** `Skip` on a whole document: where it stands afterwards, when it succeeds. */
  function SkipEnd(buf: seq<byte>, pos: nat): Option<nat>
    requires pos <= |buf|
  {
    match WalkOne(buf, pos)
    case None => None
    case Some(e) => if e.count <= SKIP_LIMIT then Some(e.end) else None
  }

  /**
   The walk accepts exactly the well-formed items of at most `SKIP_LIMIT` data items, when no
   bad simple value is met; what it accepts beyond those are the items with one inside.
   */
  lemma {:induction false} SkipMeetsGrammar(buf: seq<byte>, pos: nat, end: nat)
    requires pos <= |buf|
    ensures var item := ItemAt(buf, pos, true);
            (item.Some? && item.value.count <= SKIP_LIMIT && item.value.end == end)
            <==> (SkipEnd(buf, pos) == Some(end) && WalkOne(buf, pos).value.plain)
  {
    StrictItem(buf, pos);
  }

  /**
   The walk steps over two bytes such as `F8 00`, which no decoder may take for an item: a
   simple value below 32 in the two-byte form.
   */
  lemma {:induction false} SkipTakesBadSimple(buf: seq<byte>)
    requires |buf| == 2 && buf[0] == 0xF8 && buf[1] < 32
    ensures SkipEnd(buf, 0) == Some(2) && ItemAt(buf, 0, true) == None
  {
    var last := buf[1..2];
    assert last[..0] == [] && FromBe(last) == buf[1] as nat;
    var h := Head(SIMPLE, buf[1] as nat, 2);
    assert HeadAt(buf, 0) == Ok(h);
    WalkInto(buf, 0, h);
    WalkNone(buf, 2);
  }

  // ---------------------------------------------------------------------------
  // One part of a multi-part message
  // ---------------------------------------------------------------------------

  /** What a part says about itself. */
  datatype Part = Part(seqNum: nat, seqLen: nat, messageLen: nat, checksum: nat)

  /** An unsigned integer, and where what follows it starts. */
  function UintAt(buf: seq<byte>, pos: nat): (r: Result<(nat, nat)>)
    requires pos <= |buf|
    ensures r.Ok? ==> pos < r.value.1 <= |buf|
  {
    if pos == |buf| then Err(Short)
    else if Major(buf[pos]) != UINT then Err(WrongType(UINT, Major(buf[pos])))
    else CountAt(buf, pos + 1, Info(buf[pos]))
  }

  function FitsU32(n: nat): Result<nat> {
    if n < U32_BOUND then Ok(n) else Err(TooLarge)
  }

  /** Where the elements of an array of five start. */
  function ArrayOfFive(buf: seq<byte>): (r: Result<nat>)
    ensures r.Ok? ==> r.value <= |buf|
  {
    if |buf| == 0 then Err(Short)
    else if Major(buf[0]) != ARRAY then Err(NotAPart)
    else
      var (count, next) :- CountAt(buf, 1, Info(buf[0]));
      if count != 5 then Err(NotAPart) else Ok(next)
  }

  /** Two unsigned integers, and where what follows them starts. */
  function TwoUints(buf: seq<byte>, pos: nat): (r: Result<(nat, nat, nat)>)
    requires pos <= |buf|
    ensures r.Ok? ==> r.value.2 <= |buf|
  {
    var (a, p) :- UintAt(buf, pos);
    var (b, q) :- UintAt(buf, p);
    Ok((a, b, q))
  }

  /** The range of the byte string at `pos`. */
  function BytesAt(buf: seq<byte>, pos: nat): (r: Result<(nat, nat)>)
    requires pos <= |buf|
    ensures r.Ok? ==> r.value.0 <= r.value.1 <= |buf|
  {
    if pos == |buf| then Err(Short)
    else if Major(buf[pos]) != BYTES then Err(NotAPart)
    else
      var (claimed, start) :- CountAt(buf, pos + 1, Info(buf[pos]));
      var len :- FitsU32(claimed);
      if |buf| - start < len then Err(Short) else Ok((start, start + len))
  }

  /** `part`: an array of five, and the range of the fragment within `buf`. */
  function PartOf(buf: seq<byte>): (r: Result<(Part, nat, nat)>)
    ensures r.Ok? ==> r.value.1 <= r.value.2 <= |buf|
  {
    var p0 :- ArrayOfFive(buf);
    var (seqNum, seqLen, p2) :- TwoUints(buf, p0);
    var (messageLen, checksum, p4) :- TwoUints(buf, p2);
    var (start, end) :- BytesAt(buf, p4);
    var num :- FitsU32(seqNum);
    var total :- FitsU32(seqLen);
    var size :- FitsU32(messageLen);
    var crc :- FitsU32(checksum);
    Ok((Part(num, total, size, crc), start, end))
  }

  /** A part in `buf`, head by head: the array's, the four numbers', the byte string's. */
  ghost predicate PartStands(buf: seq<byte>, p: Part, start: nat, end: nat, n0: nat, n1: nat, n2: nat, n3: nat, n4: nat) {
    && n0 <= |buf| && n1 <= |buf| && n2 <= |buf| && n3 <= |buf| && n4 <= |buf| && start <= end <= |buf|
    && HeadAt(buf, 0) == Ok(Head(ARRAY, 5, n0))
    && HeadAt(buf, n0) == Ok(Head(UINT, p.seqNum, n1)) && HeadAt(buf, n1) == Ok(Head(UINT, p.seqLen, n2))
    && HeadAt(buf, n2) == Ok(Head(UINT, p.messageLen, n3)) && HeadAt(buf, n3) == Ok(Head(UINT, p.checksum, n4))
    && HeadAt(buf, n4) == Ok(Head(BYTES, end - start, start)) && end - start < U32_BOUND
    && p.seqNum < U32_BOUND && p.seqLen < U32_BOUND && p.messageLen < U32_BOUND && p.checksum < U32_BOUND
  }

  /** A part is read exactly when one stands there, its numbers within 32 bits and its fragment whole. */
  lemma {:induction false} PartReadsIff(buf: seq<byte>, p: Part, start: nat, end: nat)
    ensures PartOf(buf) == Ok((p, start, end))
       <==> exists n0: nat, n1: nat, n2: nat, n3: nat, n4: nat :: PartStands(buf, p, start, end, n0, n1, n2, n3, n4)
  {
    hide CountAt, Info, Major;
    if PartOf(buf) == Ok((p, start, end)) {
      var n0 := ArrayOfFive(buf).value;
      var n1, n2 := UintAt(buf, n0).value.1, TwoUints(buf, n0).value.2;
      var n3, n4 := UintAt(buf, n2).value.1, TwoUints(buf, n2).value.2;
      assert PartStands(buf, p, start, end, n0, n1, n2, n3, n4);
    }
  }

  /** An unsigned integer at `pos`, which has to be one. */
  method ReadUint(buf: seq<byte>, pos: nat) returns (r: Result<(nat, nat)>)
    requires pos <= |buf|
    ensures r == UintAt(buf, pos)
  {
    if pos == |buf| {
      return Err(Short);
    }
    if Major(buf[pos]) != UINT {
      return Err(WrongType(UINT, Major(buf[pos])));
    }
    r := ReadCount(buf, pos + 1, Info(buf[pos]));
  }

  /** `part` as it runs: the lengths are judged before the numbers are. */
  method ReadPart(buf: seq<byte>) returns (r: Result<(Part, nat, nat)>)
    ensures r == PartOf(buf)
  {
    hide CountAt, UintAt, Major;
    if |buf| == 0 {
      return Err(Short);
    }
    if Major(buf[0]) != ARRAY {
      return Err(NotAPart);
    }
    var count :- ReadCount(buf, 1, Info(buf[0]));
    if count.0 != 5 {
      return Err(NotAPart);
    }
    var seqNum :- ReadUint(buf, count.1);
    var seqLen :- ReadUint(buf, seqNum.1);
    var messageLen :- ReadUint(buf, seqLen.1);
    var checksum :- ReadUint(buf, messageLen.1);
    var at := checksum.1;
    if at == |buf| {
      return Err(Short);
    }
    if Major(buf[at]) != BYTES {
      return Err(NotAPart);
    }
    var len :- ReadCount(buf, at + 1, Info(buf[at]));
    if len.0 >= U32_BOUND {
      return Err(TooLarge);
    }
    if |buf| - len.1 < len.0 {
      return Err(Short);
    }
    if seqNum.0 >= U32_BOUND || seqLen.0 >= U32_BOUND || messageLen.0 >= U32_BOUND || checksum.0 >= U32_BOUND {
      return Err(TooLarge);
    }
    return Ok((Part(seqNum.0, seqLen.0, messageLen.0, checksum.0), len.1, len.1 + len.0));
  }

  // ---------------------------------------------------------------------------
  // Writing
  // ---------------------------------------------------------------------------

  /** How many bytes past the first an argument needs. */
  function ArgWidth(arg: nat): nat {
    if arg < 24 then 0 else if arg < 0x100 then 1 else if arg < 0x1_0000 then 2 else if arg < U32_BOUND then 4 else 8
  }

  function ArgInfo(arg: nat): nat {
    if arg < 24 then arg else if arg < 0x100 then 24 else if arg < 0x1_0000 then 25 else if arg < U32_BOUND then 26 else 27
  }

  /** A head in the shortest form that holds its argument. */
  function HeadBytes(major: nat, arg: nat): (s: seq<byte>)
    requires major < 8
    ensures |s| == 1 + ArgWidth(arg)
  {
    [(major * 32 + ArgInfo(arg)) as byte] + ToBe(arg, ArgWidth(arg))
  }

  /** `s` stands at `pos` in `buf`. */
  ghost predicate StandsAt(buf: seq<byte>, pos: nat, s: seq<byte>) {
    pos + |s| <= |buf| && buf[pos..pos + |s|] == s
  }

  /** A head that was written reads back, wherever it stands. */
  lemma {:induction false} HeadRoundTrip(major: nat, arg: nat, buf: seq<byte>, pos: nat)
    requires major < 8 && arg < U64_BOUND && StandsAt(buf, pos, HeadBytes(major, arg))
    ensures HeadAt(buf, pos) == Ok(Head(major, arg, pos + |HeadBytes(major, arg)|))
  {
    var s, width := HeadBytes(major, arg), ArgWidth(arg);
    assert buf[pos] == buf[pos..pos + |s|][0] == s[0];
    FirstByte(major, ArgInfo(arg));
    if width > 0 {
      assert buf[pos + 1..pos + 1 + width] == buf[pos..pos + |s|][1..] == ToBe(arg, width);
      Pow256Bounds(width);
      FromToBe(arg, width);
    }
  }

  lemma FirstByte(major: nat, info: nat)
    requires major < 8 && info < 32
    ensures Major((major * 32 + info) as byte) == major && Info((major * 32 + info) as byte) == info
  {
  }

  /** What a writer writes is an item of the strict grammar: a number, a string with its content, a simple value but 24 to 31. */
  lemma {:induction false} WrittenIsItem(major: nat, arg: nat, content: seq<byte>)
    requires arg < U64_BOUND
    requires if major == BYTES || major == TEXT then |content| == arg
             else (major == UINT || major == NINT || (major == SIMPLE && !(24 <= arg < 32))) && content == []
    ensures var s := HeadBytes(major, arg) + content;
            ItemAt(s, 0, true) == Some(Extent(|s|, 1, true))
  {
    hide HeadAt, HeadBytes, BadSimple;
    var s := HeadBytes(major, arg) + content;
    WrittenHead(major, arg, content);
    assert ItemsAt(s, |s|, 0, true) == Some(Extent(|s|, 0, true));
  }

  lemma {:induction false} WrittenHead(major: nat, arg: nat, content: seq<byte>)
    requires major < 8 && arg < U64_BOUND && !(major == SIMPLE && 24 <= arg < 32)
    ensures var h, s := HeadBytes(major, arg), HeadBytes(major, arg) + content;
            HeadAt(s, 0) == Ok(Head(major, arg, |h|)) && !BadSimple(s, 0)
  {
    hide HeadAt;
    var s := HeadBytes(major, arg) + content;
    assert StandsAt(s, 0, HeadBytes(major, arg));
    HeadRoundTrip(major, arg, s, 0);
    FirstByte(major, ArgInfo(arg));
    assert s[0] == HeadBytes(major, arg)[0];
  }

  /** No head that reads as the same type and argument is shorter than the one written. */
  lemma {:induction false} HeadIsShortest(buf: seq<byte>, pos: nat, h: Head)
    requires pos <= |buf| && HeadAt(buf, pos) == Ok(h)
    ensures |HeadBytes(h.major, h.arg)| <= h.next - pos
  {
    var info := Info(buf[pos]);
    if info >= 24 {
      var width := Width(info).value;
      Pow256Bounds(width);
      assert h.arg == FromBe(buf[pos + 1..pos + 1 + width]);
    }
  }

  class Writer {
    const out: array<byte>
    var pos: nat

    constructor (buffer: array<byte>)
      ensures out == buffer && pos == 0
    {
      out := buffer;
      pos := 0;
    }

    method Push(b: byte) returns (r: Result<()>)
      requires pos <= out.Length
      modifies this, out
      ensures pos <= out.Length
      ensures r == if old(pos) < out.Length then Ok(()) else Err(NoRoom)
      ensures r.Ok? ==> out[..pos] == old(out[..pos]) + [b]
      ensures r.Err? ==> pos == old(pos) && out[..] == old(out[..])
    {
      if pos >= out.Length {
        return Err(NoRoom);
      }
      out[pos] := b;
      pos := pos + 1;
      return Ok(());
    }

    method Raw(data: seq<byte>) returns (r: Result<()>)
      requires pos <= out.Length
      modifies this, out
      ensures pos <= out.Length
      ensures r == if old(pos) + |data| <= out.Length then Ok(()) else Err(NoRoom)
      ensures r.Ok? ==> out[..pos] == old(out[..pos]) + data
      ensures r.Err? ==> pos == old(pos) && out[..] == old(out[..])
    {
      if pos + |data| > out.Length {
        return Err(NoRoom);
      }
      ghost var was := out[..pos];
      for i := 0 to |data|
        invariant pos == old(pos)
        invariant out[..pos + i] == was + data[..i]
      {
        out[pos + i] := data[i];
        assert out[..pos + i + 1] == was + data[..i] + [data[i]];
      }
      pos := pos + |data|;
      return Ok(());
    }

    /**
     A head, shortest form. It fails exactly when the head does not fit, and then everything
     written before it is still there.
     */
    method WriteHead(major: nat, arg: nat) returns (r: Result<()>)
      requires pos <= out.Length && major < 8 && arg < U64_BOUND
      modifies this, out
      ensures pos <= out.Length
      ensures r == if old(pos) + |HeadBytes(major, arg)| <= out.Length then Ok(()) else Err(NoRoom)
      ensures r.Ok? ==> out[..pos] == old(out[..pos]) + HeadBytes(major, arg)
      ensures old(pos) <= pos && out[..old(pos)] == old(out[..pos])
    {
      ghost var was := out[..pos];
      var pushed := Push((major * 32 + ArgInfo(arg)) as byte);
      if pushed.Err? || arg < 24 {
        return pushed;
      }
      if arg < 0x100 {
        r := Push(arg as byte);
        assert ToBe(arg, 1) == [arg as byte] by {
          assert ToBe(arg / 0x100, 0) == [];
        }
      } else {
        r := Raw(ToBe(arg, ArgWidth(arg)));
      }
    }
  }

  /** A part's header and fragment, as an encoder writes them. */
  function PartBytes(p: Part, data: seq<byte>): seq<byte> {
    [0x85] + UintPair(p.seqNum, p.seqLen, PartTail(p, data))
  }

  function PartTail(p: Part, data: seq<byte>): seq<byte> {
    UintPair(p.messageLen, p.checksum, HeadBytes(BYTES, |data|) + data)
  }

  /** Two unsigned integers and then `rest`. */
  function UintPair(a: nat, b: nat, rest: seq<byte>): seq<byte> {
    HeadBytes(UINT, a) + (HeadBytes(UINT, b) + rest)
  }

  lemma Peel(buf: seq<byte>, pos: nat, h: seq<byte>, t: seq<byte>)
    requires pos <= |buf| && buf[pos..] == h + t
    ensures StandsAt(buf, pos, h) && buf[pos + |h|..] == t
  {
    assert buf[pos..pos + |h|] == buf[pos..][..|h|];
    assert buf[pos + |h|..] == buf[pos..][|h|..];
  }

  lemma {:induction false} HeadPeels(buf: seq<byte>, pos: nat, major: nat, arg: nat, t: seq<byte>) returns (next: nat)
    requires pos <= |buf| && major < 8 && arg < U64_BOUND && buf[pos..] == HeadBytes(major, arg) + t
    ensures pos < next <= |buf| && buf[next..] == t
    ensures Major(buf[pos]) == major && CountAt(buf, pos + 1, Info(buf[pos])) == Ok((arg, next))
  {
    Peel(buf, pos, HeadBytes(major, arg), t);
    HeadRoundTrip(major, arg, buf, pos);
    next := pos + |HeadBytes(major, arg)|;
    assert HeadAt(buf, pos) == Ok(Head(major, arg, next));
  }

  /** The byte `85` opens an array of five. */
  lemma {:induction false} ArrayPeels(buf: seq<byte>)
    requires buf != [] && buf[0] == 0x85
    ensures ArrayOfFive(buf) == Ok(1)
  {
    assert Width(5) == Ok(0);
  }

  lemma {:induction false} PairPeels(buf: seq<byte>, pos: nat, a: nat, b: nat, rest: seq<byte>) returns (next: nat)
    requires pos <= |buf| && a < U32_BOUND && b < U32_BOUND && buf[pos..] == UintPair(a, b, rest)
    ensures TwoUints(buf, pos) == Ok((a, b, next)) && next <= |buf| && buf[next..] == rest
  {
    hide CountAt, Info, Major, HeadBytes;
    var p := HeadPeels(buf, pos, UINT, a, HeadBytes(UINT, b) + rest);
    assert UintAt(buf, pos) == Ok((a, p));
    next := HeadPeels(buf, p, UINT, b, rest);
    assert UintAt(buf, p) == Ok((b, next));
  }

  lemma {:induction false} DataPeels(buf: seq<byte>, pos: nat, data: seq<byte>) returns (start: nat)
    requires pos <= |buf| && |data| < U32_BOUND && buf[pos..] == HeadBytes(BYTES, |data|) + data
    ensures BytesAt(buf, pos) == Ok((start, |buf|)) && start + |data| == |buf| && buf[start..] == data
  {
    start := HeadPeels(buf, pos, BYTES, |data|, data);
  }

  lemma {:induction false} PartFromPieces(buf: seq<byte>, p: Part, p0: nat, p2: nat, p4: nat, start: nat, end: nat)
    requires p.seqNum < U32_BOUND && p.seqLen < U32_BOUND && p.messageLen < U32_BOUND && p.checksum < U32_BOUND
    requires p0 <= |buf| && p2 <= |buf| && p4 <= |buf|
    requires ArrayOfFive(buf) == Ok(p0) && TwoUints(buf, p0) == Ok((p.seqNum, p.seqLen, p2))
    requires TwoUints(buf, p2) == Ok((p.messageLen, p.checksum, p4)) && BytesAt(buf, p4) == Ok((start, end))
    ensures PartOf(buf) == Ok((p, start, end))
  {
  }

  lemma {:induction false} TailPeels(buf: seq<byte>, pos: nat, p: Part, data: seq<byte>) returns (p4: nat, start: nat)
    requires pos <= |buf| && p.messageLen < U32_BOUND && p.checksum < U32_BOUND && |data| < U32_BOUND
    requires buf[pos..] == PartTail(p, data)
    ensures p4 <= |buf| && TwoUints(buf, pos) == Ok((p.messageLen, p.checksum, p4))
    ensures BytesAt(buf, p4) == Ok((start, |buf|)) && start + |data| == |buf| && buf[start..] == data
  {
    p4 := PairPeels(buf, pos, p.messageLen, p.checksum, HeadBytes(BYTES, |data|) + data);
    start := DataPeels(buf, p4, data);
  }

  lemma {:induction false} NumbersRead(buf: seq<byte>, p: Part, numbers: seq<byte>, tail: seq<byte>) returns (p2: nat)
    requires p.seqNum < U32_BOUND && p.seqLen < U32_BOUND
    requires buf == [0x85] + numbers && numbers == UintPair(p.seqNum, p.seqLen, tail)
    ensures ArrayOfFive(buf) == Ok(1) && p2 <= |buf| && buf[p2..] == tail
    ensures TwoUints(buf, 1) == Ok((p.seqNum, p.seqLen, p2))
  {
    assert buf[1..] == numbers;
    ArrayPeels(buf);
    p2 := PairPeels(buf, 1, p.seqNum, p.seqLen, tail);
  }

  lemma {:induction false} RestReads(buf: seq<byte>, p: Part, data: seq<byte>, p2: nat)
    requires p.seqNum < U32_BOUND && p.seqLen < U32_BOUND && p.messageLen < U32_BOUND && p.checksum < U32_BOUND
    requires |data| < U32_BOUND
    requires buf != [] && ArrayOfFive(buf) == Ok(1) && p2 <= |buf| && buf[p2..] == PartTail(p, data)
    requires TwoUints(buf, 1) == Ok((p.seqNum, p.seqLen, p2))
    ensures |data| <= |buf| && PartOf(buf) == Ok((p, |buf| - |data|, |buf|)) && buf[|buf| - |data|..] == data
  {
    var p4, start := TailPeels(buf, p2, p, data);
    PartFromPieces(buf, p, 1, p2, p4, start, |buf|);
  }

  /** A part that was written reads back, its fragment in place. */
  lemma {:induction false} PartRoundTrip(p: Part, data: seq<byte>, buf: seq<byte>)
    requires p.seqNum < U32_BOUND && p.seqLen < U32_BOUND && p.messageLen < U32_BOUND && p.checksum < U32_BOUND
    requires |data| < U32_BOUND && buf == PartBytes(p, data)
    ensures |data| <= |buf| && PartOf(buf) == Ok((p, |buf| - |data|, |buf|)) && buf[|buf| - |data|..] == data
  {
    var tail := PartTail(p, data);
    var p2 := NumbersRead(buf, p, UintPair(p.seqNum, p.seqLen, tail), tail);
    RestReads(buf, p, data, p2);
  }

  /** A part whose fragment was cut short is refused. */
  lemma {:induction false} ShortPart(p: Part, data: seq<byte>, kept: nat, buf: seq<byte>)
    requires p.seqNum < U32_BOUND && p.seqLen < U32_BOUND && p.messageLen < U32_BOUND && p.checksum < U32_BOUND
    requires kept < |data| < U32_BOUND && buf == PartBytes(p, data)[..|PartBytes(p, data)| - (|data| - kept)]
    ensures PartOf(buf) == Err(Short)
  {
    hide HeadBytes, CountAt, Major, Info;
    var rest := HeadBytes(BYTES, |data|) + data[..kept];
    var tail := UintPair(p.messageLen, p.checksum, rest);
    var numbers := UintPair(p.seqNum, p.seqLen, tail);
    assert buf == [0x85] + numbers;
    var p2 := NumbersRead(buf, p, numbers, tail);
    var p4 := PairPeels(buf, p2, p.messageLen, p.checksum, rest);
    var start := HeadPeels(buf, p4, BYTES, |data|, data[..kept]);
    assert BytesAt(buf, p4) == Err(Short);
  }
}
