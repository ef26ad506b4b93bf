/**
 Placing BBQr parts as they are caught. `Collector` holds no data: which parts have been seen, and
 the length of a full part, which is all it takes to turn an index into an offset.

 The codec itself (headers, base32, hex) is any pair of functions that undo each other.
 */
module Bbqr {
  import opened Bytes
  import opened BitWords
  import opened Wrappers

  const MAX_PARTS: nat := 1295
  const SEEN_WORDS: nat := 21
  const HEADER_LEN: nat := 8
  const USIZE_BOUND: nat := U32_BOUND

  datatype Encoding = Hex | Base32 | Zlib

  datatype Header = Header(encoding: Encoding, fileType: nat, numParts: nat, index: nat)

  datatype Error = Codec | Mismatch | TooLong | PartLenUnknown

  type Result<T> = Outcome<T, Error>

  datatype Placed = Placed(index: nat, offset: nat, len: nat, isNew: bool, have: nat, total: nat)

  /** A line: not a part at all, or a header in range and a body. */
  datatype Line = NotAPart | Part(header: Header, body: seq<byte>) {
    predicate Ok() {
      Part? ==> header.index < header.numParts <= MAX_PARTS
    }
  }

  // ---------------------------------------------------------------------------
  // Lengths
  // ---------------------------------------------------------------------------

  /** `encoded_len`: characters for `n` bytes. */
  function EncodedLen(e: Encoding, n: nat): nat {
    if e.Hex? then 2 * n else (8 * n + 4) / 5
  }

  /** `decoded_len_bound`: bytes from `chars` characters, rounded down. */
  function DecodedLen(e: Encoding, chars: nat): nat {
    if e.Hex? then chars / 2 else chars * 5 / 8
  }

  /** The length test a body has to pass. */
  predicate Decodable(e: Encoding, chars: nat) {
    if e.Hex? then chars % 2 == 0 else chars % 8 != 1 && chars % 8 != 3 && chars % 8 != 6
  }

  /** The test lets through exactly the lengths an encoder makes, and each of them names one length of data. */
  lemma DecodableIff(e: Encoding, chars: nat)
    ensures Decodable(e, chars) <==> exists n: nat :: EncodedLen(e, n) == chars
    ensures Decodable(e, chars) ==> EncodedLen(e, DecodedLen(e, chars)) == chars
  {
    hide EncodedLen, DecodedLen, Decodable;
    if Decodable(e, chars) {
      DecodableIsEncoded(e, chars);
    } else if n: nat :| EncodedLen(e, n) == chars {
      EncodedIsDecodable(e, n);
    }
  }

  lemma DecodableIsEncoded(e: Encoding, chars: nat)
    requires Decodable(e, chars)
    ensures EncodedLen(e, DecodedLen(e, chars)) == chars
  {
  }

  lemma EncodedIsDecodable(e: Encoding, n: nat)
    ensures Decodable(e, EncodedLen(e, n)) && DecodedLen(e, EncodedLen(e, n)) == n
  {
    if !e.Hex? {
      var q, r := n / 5, n % 5;
      assert EncodedLen(e, n) == 8 * q + (8 * r + 4) / 5;
    }
  }

  /** Base32 spends a character on every five bits, and no more characters than that takes. */
  lemma EncodedLenIsLeast(n: nat, chars: nat)
    ensures EncodedLen(Hex, n) == 2 * n
    ensures 8 * n <= 5 * chars <==> EncodedLen(Base32, n) <= chars
    ensures EncodedLen(Zlib, n) == EncodedLen(Base32, n)
  {
  }

  /** `part_len` */
  function PartLen(e: Encoding, bytes: nat): nat {
    HEADER_LEN + EncodedLen(e, bytes)
  }

  /** `fits` */
  function Fits(e: Encoding, chars: nat): nat {
    if chars <= HEADER_LEN then 0
    else if e.Hex? then (chars - HEADER_LEN) / 2
    else (chars - HEADER_LEN) / 8 * 5
  }

  /** How many bytes a group of whole characters is. */
  function Group(e: Encoding): nat {
    if e.Hex? then 1 else 5
  }

  /** The most bytes in whole groups whose line fits. */
  lemma FitsIsMost(e: Encoding, chars: nat)
    requires chars >= HEADER_LEN
    ensures PartLen(e, Fits(e, chars)) <= chars && Fits(e, chars) % Group(e) == 0
    ensures forall n: nat :: n % Group(e) == 0 && PartLen(e, n) <= chars ==> n <= Fits(e, chars)
  {
  }

  /** `parts_needed` */
  function PartsNeeded(len: nat, per: nat): nat {
    if per == 0 then 0 else if len == 0 then 1 else (len + per - 1) / per
  }

  /** As many parts as it takes, and no more. */
  lemma PartsNeededIsLeast(len: nat, per: nat)
    requires per > 0
    ensures 1 <= PartsNeeded(len, per)
    ensures len == 0 ==> PartsNeeded(len, per) == 1
    ensures len <= PartsNeeded(len, per) * per && (len > 0 ==> (PartsNeeded(len, per) - 1) * per < len)
  {
    if len > 0 {
      var n := PartsNeeded(len, per);
      assert len + per - 1 == n * per + (len + per - 1) % per;
    }
  }

  // ---------------------------------------------------------------------------
  // The collector
  // ---------------------------------------------------------------------------

  function General(h: Header): Header {
    h.(index := 0)
  }

  /** What `accept` does with a part whose length is sound: what it learns as a full part's length, or why not. */
  function Learned(h: Header, len: nat, partLen: nat): Result<nat> {
    if h.index + 1 != h.numParts then
      if partLen == 0 then Ok(len) else if partLen != len then Err(Mismatch) else Ok(partLen)
    else if h.index == 0 then Ok(len)
    else if partLen == 0 then Err(PartLenUnknown)
    else if len > partLen then Err(Mismatch)
    else Ok(partLen)
  }

  datatype Codec = Codec_(encode: (Encoding, seq<byte>) -> seq<byte>, decode: (Encoding, seq<byte>) -> Option<seq<byte>>) {
    /** Lengths are what they should be, and decoding undoes encoding. */
    ghost predicate Sound() {
      && (forall e: Encoding, d: seq<byte> :: |encode(e, d)| == EncodedLen(e, |d|) && decode(e, encode(e, d)) == Some(d))
      && (forall e: Encoding, b: seq<byte> :: decode(e, b).Some? ==> |decode(e, b).value| == DecodedLen(e, |b|))
    }
  }

  class Collector {
    var header: Option<Header>
    var partLen: nat
    var lastLen: nat
    var seen: seq<nat>
    var count: nat

    ghost predicate Valid()
      reads this
    {
      |seen| == SEEN_WORDS && Words(seen) && count == |Members(seen)|
    }

    ghost function Seen(): set<nat>
      reads this
    {
      Members(seen)
    }

    constructor ()
      ensures Valid() && header == None && partLen == 0 && Seen() == {}
    {
      ZeroFits(WIDTH);
      var words: seq<nat> := [0, 0, 0, 0, 0, 0, 0, 0, 0, 0, 0, 0, 0, 0, 0, 0, 0, 0, 0, 0, 0];
      IsEmptySound(words);
      header, partLen, lastLen, seen, count := None, 0, 0, words, 0;
    }

    predicate Complete()
      reads this
    {
      header.Some? && count == header.value.numParts
    }

    /** Work out where a part belongs, without storing it. */
    method Accept(line: Line) returns (r: Result<Placed>)
      requires Valid() && line.Ok()
      modifies this`header, this`partLen
      ensures Valid()
      ensures line.NotAPart? || !Decodable(line.header.encoding, |line.body|) ==>
                r == Err(Error.Codec) && header == old(header) && partLen == old(partLen)
      ensures line.Part? && Decodable(line.header.encoding, |line.body|) && old(header).Some? ==>
                var h, of := line.header, old(header).value;
                && header == old(header)
                && (h.encoding != of.encoding || h.fileType != of.fileType || h.numParts != of.numParts ==>
                      r == Err(Mismatch) && partLen == old(partLen))
      ensures line.Part? && Decodable(line.header.encoding, |line.body|) ==>
                AcceptedAs(line.header, DecodedLen(line.header.encoding, |line.body|), old(header), old(partLen),
                           header, partLen, Seen(), count, r)
    {
      hide Decodable, DecodedLen, Has, Members;
      if line.NotAPart? || !Decodable(line.header.encoding, |line.body|) {
        return Err(Error.Codec);
      }
      var h := line.header;
      var len := DecodedLen(h.encoding, |line.body|);
      var isLast := h.index + 1 == h.numParts;
      if header.None? {
        header := Some(h.(index := 0));
      } else if header.value != h.(index := 0) {
        return Err(Mismatch);
      }
      if !isLast {
        if partLen == 0 {
          partLen := len;
        } else if partLen != len {
          return Err(Mismatch);
        }
      } else if h.index == 0 {
        partLen := len;
      } else if partLen == 0 {
        return Err(PartLenUnknown);
      } else if len > partLen {
        return Err(Mismatch);
      }
      var offset := partLen * h.index;
      if offset + len >= USIZE_BOUND {
        return Err(TooLong);
      }
      HasIsMember(seen, h.index);
      var isNew := !Has(seen, h.index);
      return Ok(Placed(h.index, offset, len, isNew, count, h.numParts));
    }

    /** Record that a part has been written. */
    method Confirm(placed: Placed) returns (r: Placed)
      requires Valid() && placed.index < MAX_PARTS
      modifies this`lastLen, this`seen, this`count
      ensures Valid() && Seen() == old(Seen()) + {placed.index}
      ensures lastLen == if placed.index + 1 == placed.total then placed.len else old(lastLen)
      ensures r == placed.(isNew := placed.index !in old(Seen()), have := count)
    {
      if placed.index + 1 == placed.total {
        lastLen := placed.len;
      }
      var isNew := !Has(seen, placed.index);
      WithSound(seen, placed.index);
      if isNew {
        seen := With(seen, placed.index);
        count := count + 1;
      }
      r := placed.(isNew := isNew, have := count);
    }

    /** Take one line, decoding it into `out` where it belongs. */
    method Take(line: Line, out: array<byte>, codec: Codec) returns (r: Result<Placed>)
      requires Valid() && line.Ok() && codec.Sound()
      modifies this, out
      ensures Valid()
      ensures line.Part? && Decodable(line.header.encoding, |line.body|) ==>
                TakenAs(line.header, line.body, codec, old(header), old(partLen), old(lastLen), old(Seen()), old(out[..]),
                        header, partLen, lastLen, Seen(), out[..], r)
      ensures line.NotAPart? || !Decodable(line.header.encoding, |line.body|) ==>
                && r == Err(Error.Codec) && header == old(header) && partLen == old(partLen)
                && Seen() == old(Seen()) && out[..] == old(out[..])
    {
      hide Decodable, DecodedLen, Codec.Sound;
      var placed :- Accept(line);
      var end := placed.offset + placed.len;
      if end > out.Length {
        return Err(TooLong);
      }
      var data := codec.decode(line.header.encoding, line.body);
      if data.None? {
        return Err(Error.Codec);
      }
      DecodedLength(codec, line.header.encoding, line.body);
      CopyAt(out, placed.offset, data.value);
      var p := Confirm(placed);
      return Ok(p);
    }

    /** The file's length, once every part has been seen. */
    function FileLen(): Option<nat>
      reads this
    {
      if Complete() && header.value.numParts > 0 then Some(partLen * (header.value.numParts - 1) + lastLen) else None
    }
  }

  lemma DecodedLength(codec: Codec, e: Encoding, b: seq<byte>)
    requires codec.Sound() && codec.decode(e, b).Some?
    ensures |codec.decode(e, b).value| == DecodedLen(e, |b|)
  {
  }

  function Spliced(s: seq<byte>, at: nat, d: seq<byte>): (r: seq<byte>)
    requires at + |d| <= |s|
    ensures |r| == |s|
  {
    s[..at] + d + s[at + |d|..]
  }

  method CopyAt(out: array<byte>, at: nat, d: seq<byte>)
    requires at + |d| <= out.Length
    modifies out
    ensures out[..] == Spliced(old(out[..]), at, d)
  {
    for i := 0 to |d|
      invariant out[..] == old(out[..at]) + d[..i] + old(out[at + i..])
    {
      out[at + i] := d[i];
    }
  }

  /** What `Accept` returns for a part of sound length, and what it has learned by then. */
  ghost predicate AcceptedAs(h: Header, len: nat, was: Option<Header>, wasLen: nat, now: Option<Header>, nowLen: nat,
                             seen: set<nat>, count: nat, r: Result<Placed>)
  {
    if was.Some? && was.value != General(h) then r == Err(Mismatch) && now == was && nowLen == wasLen
    else
      && now == Some(General(h))
      && match Learned(h, len, wasLen)
         case Err(e) => r == Err(e) && nowLen == wasLen
         case Ok(per) =>
           && nowLen == per
           && r == if per * h.index + len >= USIZE_BOUND then Err(TooLong)
                   else Ok(Placed(h.index, per * h.index, len, h.index !in seen, count, h.numParts))
  }

  /** Nothing but the `len` bytes at `at` has changed. */
  ghost predicate SameAround(was: seq<byte>, now: seq<byte>, at: nat, len: nat)
    requires at + len <= |was|
  {
    |now| == |was| && now[..at] == was[..at] && now[at + len..] == was[at + len..]
  }

  /** What `Take` does with a part of sound length; a failed decoding may have written where the part goes. */
  ghost predicate TakenAs(h: Header, body: seq<byte>, codec: Codec, was: Option<Header>, wasLen: nat, wasLast: nat, wasSeen: set<nat>,
                          wasOut: seq<byte>, now: Option<Header>, nowLen: nat, nowLast: nat, nowSeen: set<nat>, nowOut: seq<byte>,
                          r: Result<Placed>)
  {
    var len := DecodedLen(h.encoding, |body|);
    if was.Some? && was.value != General(h) then
      r == Err(Mismatch) && now == was && nowLen == wasLen && nowLast == wasLast && nowSeen == wasSeen && nowOut == wasOut
    else
      && now == Some(General(h))
      && match Learned(h, len, wasLen)
         case Err(e) => r == Err(e) && nowLen == wasLen && nowLast == wasLast && nowSeen == wasSeen && nowOut == wasOut
         case Ok(per) =>
           && nowLen == per
           && var data := codec.decode(h.encoding, body);
              if per * h.index + len >= USIZE_BOUND || per * h.index + len > |wasOut| then
                r == Err(TooLong) && nowLast == wasLast && nowSeen == wasSeen && nowOut == wasOut
              else if data.None? then
                && r == Err(Error.Codec) && nowLast == wasLast && nowSeen == wasSeen
                && SameAround(wasOut, nowOut, per * h.index, len)
              else
                && r.Ok? && r.value.index == h.index && r.value.offset == per * h.index && r.value.len == len
                && (r.value.isNew <==> h.index !in wasSeen)
                && |data.value| == len && nowOut == Spliced(wasOut, per * h.index, data.value)
                && nowSeen == wasSeen + {h.index}
                && nowLast == if h.index + 1 == h.numParts then len else wasLast
  }
}
