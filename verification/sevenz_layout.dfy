/**
 The header this firmware writes, byte for byte, and the proof that the reader gets back from it
 exactly what was put in.

 Every stretch of the header is written down in front of what follows it, so that what is left to
 read after a stretch is always the tail that was given.
 */
module SevenZipLayout {
  import opened Bytes
  import opened SevenZipNumbers
  import opened SevenZipFormat
  import opened Wrappers

  datatype Coder = AesCoder(iv: seq<byte>, salt: seq<byte>, cyclesPower: nat) | CopyCoder {
    predicate Ok() {
      AesCoder? ==> |iv| == 16 && |salt| <= MAX_SALT && cyclesPower < 0x40
    }
  }

  // ---------------------------------------------------------------------------
  // Names
  // ---------------------------------------------------------------------------

  /** A character of a name, by its scalar value. */
  type Scalar = c: nat | c < 0x11_0000 && !(0xD800 <= c < 0xE000)

  /** `c.encode_utf16` */
  function Utf16(c: Scalar): (u: seq<nat>)
    ensures 1 <= |u| <= 2 && forall i :: 0 <= i < |u| ==> u[i] < 0x1_0000
  {
    if c < 0x1_0000 then [c] else [0xD800 + (c - 0x1_0000) / 0x400, 0xDC00 + (c - 0x1_0000) % 0x400]
  }

  /** How many bytes a character is in UTF-8. */
  function Utf8Len(c: Scalar): nat {
    if c < 0x80 then 1 else if c < 0x800 then 2 else if c < 0x1_0000 then 3 else 4
  }

  /** One byte holds seven bits of a character, and `n` hold five for each and one more. */
  lemma Utf8LenIs(c: Scalar, n: nat)
    requires 1 <= n <= 4
    ensures Utf8Len(c) <= n <==> c < Pow2(if n == 1 then 7 else 5 * n + 1)
  {
    assert Pow2(7) == 0x80 && Pow2(11) == 0x800 && Pow2(16) == 0x1_0000 && Pow2(21) == 0x20_0000 by {
      Pow2Small();
    }
  }

  function NameLen(name: seq<Scalar>): nat {
    if name == [] then 0 else NameLen(name[..|name| - 1]) + Utf8Len(name[|name| - 1])
  }

  function Units(name: seq<Scalar>): (u: seq<nat>) {
    if name == [] then [] else Units(name[..|name| - 1]) + Utf16(name[|name| - 1])
  }

  /** The characters some UTF-16 units spell, if they do: a high surrogate only before a low one, and a low one only behind it. */
  function FromUtf16(u: seq<nat>): Option<seq<Scalar>> {
    if u == [] then Some([])
    else
      var last := u[|u| - 1];
      if 0xDC00 <= last < 0xE000 then
        if |u| < 2 || !(0xD800 <= u[|u| - 2] < 0xDC00) then None
        else
          var high := u[|u| - 2];
          match FromUtf16(u[..|u| - 2])
          case None => None
          case Some(name) => Some(name + [0x1_0000 + (high - 0xD800) * 0x400 + (last - 0xDC00)])
      else if last >= 0x1_0000 || 0xD800 <= last < 0xDC00 then None
      else
        match FromUtf16(u[..|u| - 1])
        case None => None
        case Some(name) => Some(name + [last])
  }

  /** The name an archive carries spells the name that was given. */
  lemma {:induction false} UnitsSpellName(name: seq<Scalar>)
    ensures FromUtf16(Units(name)) == Some(name)
  {
    hide FromUtf16, Utf16;
    if name == [] {
      NothingSpelt();
    } else {
      var before, c := name[..|name| - 1], name[|name| - 1];
      UnitsSpellName(before);
      OneMoreSpelt(Units(before), before, c);
      assert name == before + [c];
    }
  }

  lemma NothingSpelt()
    ensures FromUtf16([]) == Some([])
  {
  }

  lemma {:induction false} OneMoreSpelt(u: seq<nat>, name: seq<Scalar>, c: Scalar)
    requires FromUtf16(u) == Some(name)
    ensures FromUtf16(u + Utf16(c)) == Some(name + [c])
  {
    var v := u + Utf16(c);
    if c < 0x1_0000 {
      assert v[|v| - 1] == c && v[..|v| - 1] == u;
    } else {
      Surrogates(c);
      var high, low := Utf16(c)[0], Utf16(c)[1];
      assert v[|v| - 1] == low && v[|v| - 2] == high && v[..|v| - 2] == u;
    }
  }

  lemma Surrogates(c: Scalar)
    requires c >= 0x1_0000
    ensures |Utf16(c)| == 2 && 0xD800 <= Utf16(c)[0] < 0xDC00 && 0xDC00 <= Utf16(c)[1] < 0xE000
    ensures 0x1_0000 + (Utf16(c)[0] - 0xD800) * 0x400 + (Utf16(c)[1] - 0xDC00) == c
  {
  }

  function UnitBytes(units: seq<nat>): (s: seq<byte>)
    ensures |s| == 2 * |units|
  {
    if units == [] then [] else UnitBytes(units[..|units| - 1]) + ToLe(units[|units| - 1], 2)
  }

  lemma {:induction false} UnitBytesConcat(a: seq<nat>, b: seq<nat>)
    ensures UnitBytes(a + b) == UnitBytes(a) + UnitBytes(b)
  {
    if b == [] {
      assert a + b == a;
    } else {
      assert (a + b)[..|a + b| - 1] == a + b[..|b| - 1];
      UnitBytesConcat(a, b[..|b| - 1]);
    }
  }

  /** A name has no more UTF-16 units than UTF-8 bytes. */
  lemma {:induction false} UnitsAreFew(name: seq<Scalar>)
    ensures |Units(name)| <= NameLen(name)
  {
    if name != [] {
      UnitsAreFew(name[..|name| - 1]);
    }
  }

  // ---------------------------------------------------------------------------
  // The header
  // ---------------------------------------------------------------------------

  function PackBody(packPos: nat, packedLen: nat, rest: seq<byte>): seq<byte> {
    NumberBytes(packPos) + (NumberBytes(1) + ([K_SIZE] + (NumberBytes(packedLen) + ([K_END] + rest))))
  }

  function PropBytes(c: Coder): (s: seq<byte>)
    requires c.AesCoder? && c.Ok()
    ensures |s| == 2 + |c.salt| + 16
  {
    var first := c.cyclesPower + (if c.salt == [] then 0 else 0x80) + 0x40;
    var second := (if c.salt == [] then 0 else |c.salt| - 1) * 0x10 + 15;
    [first as byte, second as byte] + (c.salt + c.iv)
  }

  function CoderBytes(c: Coder, rest: seq<byte>): seq<byte>
    requires c.Ok()
  {
    match c
    case AesCoder(_, salt, _) =>
      NumberBytes(2) + ([0x24] + (AES_CODER_ID + (NumberBytes(2 + |salt| + 16) + (PropBytes(c) + ([0x01] + (COPY_CODER_ID + rest))))))
    case CopyCoder => NumberBytes(1) + ([0x01] + (COPY_CODER_ID + rest))
  }

  function PairBytes(c: Coder, rest: seq<byte>): seq<byte> {
    if c.AesCoder? then NumberBytes(1) + (NumberBytes(0) + rest) else rest
  }

  function SizeBytes(c: Coder, len: nat, rest: seq<byte>): seq<byte> {
    [K_CODERS_UNPACK_SIZE] + (if c.AesCoder? then NumberBytes(len) + (NumberBytes(len) + rest) else NumberBytes(len) + rest)
  }

  function FolderBody(c: Coder, len: nat, rest: seq<byte>): seq<byte>
    requires c.Ok()
  {
    [K_FOLDER] + (NumberBytes(1) + ([0] + CoderBytes(c, PairBytes(c, SizeBytes(c, len, [K_END] + rest)))))
  }

  function SubstreamsBody(crc: nat, rest: seq<byte>): seq<byte> {
    [K_CRC] + ([1] + (ToLe(crc, 4) + ([K_END] + rest)))
  }

  function StreamsBody(packPos: nat, c: Coder, len: nat, packedLen: nat, crc: nat, rest: seq<byte>): seq<byte>
    requires c.Ok()
  {
    [K_PACK_INFO] + PackBody(packPos, packedLen,
      [K_UNPACK_INFO] + FolderBody(c, len,
        [K_SUBSTREAMS_INFO] + SubstreamsBody(crc, [K_END] + rest)))
  }

  function NameBody(name: seq<Scalar>): (s: seq<byte>)
    ensures |s| == 1 + 2 * (|Units(name)| + 1) && s[0] == 0
  {
    [0] + (UnitBytes(Units(name)) + [0, 0])
  }

  function FilesBody(name: seq<Scalar>, rest: seq<byte>): seq<byte> {
    NumberBytes(1) + ([K_NAME] + (NumberBytes(1 + 2 * (|Units(name)| + 1)) + (NameBody(name) + ([K_END] + rest))))
  }

  /** The whole of the next header. */
  function HeaderBytes(name: seq<Scalar>, len: nat, packedLen: nat, crc: nat, c: Coder): seq<byte>
    requires c.Ok()
  {
    [K_HEADER] + ([K_MAIN_STREAMS] + StreamsBody(0, c, len, packedLen, crc, [K_FILES_INFO] + FilesBody(name, [K_END])))
  }

  // ---------------------------------------------------------------------------
  // Reading it back
  // ---------------------------------------------------------------------------

  /** What is left to read from `pos` on. */
  ghost predicate Ahead(d: seq<byte>, pos: nat, s: seq<byte>) {
    pos <= |d| && d[pos..] == s
  }

  lemma ByteReads(d: seq<byte>, pos: nat, b: byte, rest: seq<byte>) returns (p: nat)
    requires Ahead(d, pos, [b] + rest)
    ensures ByteAt(d, pos) == Ok((b, p)) && Ahead(d, p, rest)
  {
    p := pos + 1;
    assert d[pos..][0] == d[pos];
    assert d[p..] == d[pos..][1..];
  }

  lemma TakeReads(d: seq<byte>, pos: nat, s: seq<byte>, rest: seq<byte>) returns (p: nat)
    requires Ahead(d, pos, s + rest)
    ensures TakeAt(d, pos, |s|) == Ok((s, p)) && Ahead(d, p, rest)
  {
    p := pos + |s|;
    assert d[pos..p] == d[pos..][..|s|];
    assert d[p..] == d[pos..][|s|..];
  }

  lemma {:induction false} NumberReads(d: seq<byte>, pos: nat, v: nat, rest: seq<byte>) returns (p: nat)
    requires v < U64_BOUND && Ahead(d, pos, NumberBytes(v) + rest)
    ensures NumberAt(d, pos) == Ok((v, p)) && Ahead(d, p, rest)
  {
    hide NumberBytes, ValueOf, LeadingOnes, ByteAt, TakeAt;
    NumberRoundTrip(v);
    var s := NumberBytes(v);
    assert s + rest == [s[0]] + (s[1..] + rest);
    var q := ByteReads(d, pos, s[0], s[1..] + rest);
    p := TakeReads(d, q, s[1..], rest);
  }

  lemma {:induction false} PackReads(d: seq<byte>, pos: nat, packPos: nat, packedLen: nat, rest: seq<byte>, none: Option<nat>)
    returns (p: nat)
    requires packPos < U64_BOUND && packedLen < U64_BOUND && Ahead(d, pos, PackBody(packPos, packedLen, rest))
    ensures PackAt(d, pos, none) == Ok(((packPos, Some(packedLen)), p)) && Ahead(d, p, rest)
  {
    hide NumberBytes, NumberAt, ByteAt, Ahead;
    var p1 := NumberReads(d, pos, packPos, NumberBytes(1) + ([K_SIZE] + (NumberBytes(packedLen) + ([K_END] + rest))));
    var p2 := NumberReads(d, p1, 1, [K_SIZE] + (NumberBytes(packedLen) + ([K_END] + rest)));
    var p3 := ByteReads(d, p2, K_SIZE, NumberBytes(packedLen) + ([K_END] + rest));
    var p4 := NumberReads(d, p3, packedLen, [K_END] + rest);
    p := ByteReads(d, p4, K_END, rest);
    assert PackItemsAt(d, p4, Some(packedLen)) == Ok((Some(packedLen), p));
  }

  lemma {:induction false} PropsRead(c: Coder)
    requires c.AesCoder? && c.Ok()
    ensures AesPropsOf(PropBytes(c)) == Ok(AesProps(c.cyclesPower, c.salt, c.iv))
  {
    var props := PropBytes(c);
    var saltLen := |c.salt|;
    assert PropLengths(props) == Ok((saltLen, 16, 2));
    assert props[2..2 + saltLen] == c.salt;
    assert props[2 + saltLen..] + Zeros(0) == c.iv;
    assert props[0] as nat % 0x40 == c.cyclesPower;
  }

  lemma {:induction false} CopyReads(d: seq<byte>, pos: nat, so: Coders, rest: seq<byte>) returns (p: nat)
    requires Ahead(d, pos, [0x01] + (COPY_CODER_ID + rest))
    ensures CoderAt(d, pos, so) == Ok((Coders(so.totalIn + 1, so.totalOut + 1, so.aes), p)) && Ahead(d, p, rest)
  {
    hide ByteAt, TakeAt, Ahead;
    var q := ByteReads(d, pos, 0x01, COPY_CODER_ID + rest);
    p := TakeReads(d, q, COPY_CODER_ID, rest);
  }

  lemma {:induction false} AesReads(d: seq<byte>, pos: nat, c: Coder, rest: seq<byte>) returns (p: nat)
    requires c.AesCoder? && c.Ok()
    requires Ahead(d, pos, [0x24] + (AES_CODER_ID + (NumberBytes(2 + |c.salt| + 16) + (PropBytes(c) + rest))))
    ensures CoderAt(d, pos, Coders(0, 0, None)) == Ok((Coders(1, 1, Some(AesProps(c.cyclesPower, c.salt, c.iv))), p))
    ensures Ahead(d, p, rest)
  {
    hide ByteAt, TakeAt, NumberAt, NumberBytes, PropBytes, AesPropsOf, Ahead;
    var p1 := ByteReads(d, pos, 0x24, AES_CODER_ID + (NumberBytes(2 + |c.salt| + 16) + (PropBytes(c) + rest)));
    var p2 := TakeReads(d, p1, AES_CODER_ID, NumberBytes(2 + |c.salt| + 16) + (PropBytes(c) + rest));
    var p3 := NumberReads(d, p2, 2 + |c.salt| + 16, PropBytes(c) + rest);
    p := TakeReads(d, p3, PropBytes(c), rest);
    PropsRead(c);
  }

  /** What the coders of a header add up to. */
  function CodersOf(c: Coder): Coders {
    match c
    case AesCoder(iv, salt, cyclesPower) => Coders(2, 2, Some(AesProps(cyclesPower, salt, iv)))
    case CopyCoder => Coders(1, 1, None)
  }

  lemma {:induction false} CodersRead(d: seq<byte>, pos: nat, c: Coder, rest: seq<byte>) returns (p: nat)
    requires c.Ok() && Ahead(d, pos, CoderBytes(c, rest))
    ensures CoderListAt(d, pos) == Ok((CodersOf(c), p)) && Ahead(d, p, rest)
  {
    hide NumberBytes, PropBytes, NumberAt, CoderAt, Ahead;
    if c.AesCoder? {
      var tail := [0x01] + (COPY_CODER_ID + rest);
      var first := [0x24] + (AES_CODER_ID + (NumberBytes(2 + |c.salt| + 16) + (PropBytes(c) + tail)));
      var p1 := NumberReads(d, pos, 2, first);
      var p2 := AesReads(d, p1, c, tail);
      var so := Coders(1, 1, Some(AesProps(c.cyclesPower, c.salt, c.iv)));
      p := CopyReads(d, p2, so, rest);
      assert CodersAt(d, p2, 1, so) == Ok((CodersOf(c), p));
      assert CodersAt(d, p1, 2, Coders(0, 0, None)) == Ok((CodersOf(c), p));
    } else {
      var p1 := NumberReads(d, pos, 1, [0x01] + (COPY_CODER_ID + rest));
      p := CopyReads(d, p1, Coders(0, 0, None), rest);
      assert CodersAt(d, p1, 1, Coders(0, 0, None)) == Ok((CodersOf(c), p));
    }
  }

  lemma {:induction false} PairsRead(d: seq<byte>, pos: nat, c: Coder, rest: seq<byte>) returns (p: nat)
    requires Ahead(d, pos, PairBytes(c, rest))
    ensures PairListAt(d, pos, CodersOf(c).totalIn, CodersOf(c).totalOut) == Ok((if c.AesCoder? then {0} else {}, p))
    ensures Ahead(d, p, rest)
  {
    hide NumberBytes, NumberAt, Ahead;
    if c.AesCoder? {
      var p1 := NumberReads(d, pos, 1, NumberBytes(0) + rest);
      p := NumberReads(d, p1, 0, rest);
      var none: set<nat> := {};
      assert PairsAt(d, p, 0, none + {0}) == Ok((none + {0}, p));
      assert none + {0} == {0};
    } else {
      p := pos;
    }
  }

  lemma {:induction false} SizesRead(d: seq<byte>, pos: nat, c: Coder, len: nat, rest: seq<byte>) returns (p: nat)
    requires len < U64_BOUND && Ahead(d, pos, SizeBytes(c, len, rest))
    ensures FolderSizeAt(d, pos, if c.AesCoder? then {0} else {}, CodersOf(c).totalOut) == Ok((len, p)) && Ahead(d, p, rest)
  {
    hide NumberBytes, NumberAt, ByteAt, Ahead;
    if c.AesCoder? {
      var p1 := ByteReads(d, pos, K_CODERS_UNPACK_SIZE, NumberBytes(len) + (NumberBytes(len) + rest));
      var p2 := NumberReads(d, p1, len, NumberBytes(len) + rest);
      p := NumberReads(d, p2, len, rest);
      var none: seq<nat> := [];
      assert SizesAt(d, p1, 0) == Ok((none, p1)) && none + [len] == [len] && [len] + [len] == [len, len];
      assert SizesAt(d, p1, 1) == Ok(([len], p2));
      assert SizesAt(d, p1, 2) == Ok(([len, len], p));
      assert FirstFree({0}, 1, 2) == Ok(1);
    } else {
      var p1 := ByteReads(d, pos, K_CODERS_UNPACK_SIZE, NumberBytes(len) + rest);
      p := NumberReads(d, p1, len, rest);
      var none: seq<nat> := [];
      assert SizesAt(d, p1, 0) == Ok((none, p1)) && none + [len] == [len] && [len] + [len] == [len, len];
      assert SizesAt(d, p1, 1) == Ok(([len], p));
    }
  }

  lemma {:induction false} FolderReads(d: seq<byte>, pos: nat, c: Coder, len: nat, rest: seq<byte>) returns (p: nat)
    requires c.Ok() && len < U64_BOUND && Ahead(d, pos, FolderBody(c, len, rest))
    ensures FolderAt(d, pos) == Ok((Folder(len, CodersOf(c).aes, None), p)) && Ahead(d, p, rest)
  {
    hide NumberBytes, NumberAt, ByteAt, Ahead, CoderBytes, PairBytes, SizeBytes, CoderListAt, PairListAt, FolderSizeAt;
    var coders := CoderBytes(c, PairBytes(c, SizeBytes(c, len, [K_END] + rest)));
    var p1 := ByteReads(d, pos, K_FOLDER, NumberBytes(1) + ([0] + coders));
    var p2 := NumberReads(d, p1, 1, [0] + coders);
    var p3 := ByteReads(d, p2, 0, coders);
    var p4 := CodersRead(d, p3, c, PairBytes(c, SizeBytes(c, len, [K_END] + rest)));
    var p5 := PairsRead(d, p4, c, SizeBytes(c, len, [K_END] + rest));
    var p6 := SizesRead(d, p5, c, len, [K_END] + rest);
    p := ByteReads(d, p6, K_END, rest);
    assert FolderCrcAt(d, p6, None) == Ok((None, p));
  }

  lemma {:induction false} SubstreamsRead(d: seq<byte>, pos: nat, crc: nat, rest: seq<byte>) returns (p: nat)
    requires crc < U32_BOUND && Ahead(d, pos, SubstreamsBody(crc, rest))
    ensures SubstreamsAt(d, pos, None, None) == Ok((Some(crc), p)) && Ahead(d, p, rest)
  {
    hide ByteAt, TakeAt, Ahead, FromLe, ToLe, Pow256;
    var p1 := ByteReads(d, pos, K_CRC, [1] + (ToLe(crc, 4) + ([K_END] + rest)));
    var p2 := ByteReads(d, p1, 1, ToLe(crc, 4) + ([K_END] + rest));
    var p3 := TakeReads(d, p2, ToLe(crc, 4), [K_END] + rest);
    p := ByteReads(d, p3, K_END, rest);
    Pow256Four();
    FromToLe(crc, 4);
    assert DigestAt(d, p1) == Ok((Some(crc), p3));
    assert SubstreamsAt(d, p3, None, Some(crc)) == Ok((Some(crc), p));
  }

  /** What a header's streams should read as. */
  function EntryFor(packPos: nat, c: Coder, len: nat, packedLen: nat, crc: nat): Entry {
    match c
    case AesCoder(iv, salt, cyclesPower) => Aes(Stream(BASE + packPos, packedLen, len, cyclesPower, Some(crc), salt, iv))
    case CopyCoder => Clear(Plain(BASE + packPos, len, Some(crc)))
  }

  lemma {:induction false} StreamsRead(d: seq<byte>, pos: nat, packPos: nat, c: Coder, len: nat, packedLen: nat, crc: nat, rest: seq<byte>)
    returns (p: nat)
    requires BASE + packPos < USIZE_BOUND && c.Ok() && len < USIZE_BOUND && packedLen < USIZE_BOUND && crc < U32_BOUND && (c.CopyCoder? ==> packedLen == len)
    requires Ahead(d, pos, StreamsBody(packPos, c, len, packedLen, crc, rest))
    ensures StreamsInfoAt(d, pos) == Ok((EntryFor(packPos, c, len, packedLen, crc), p)) && Ahead(d, p, rest)
  {
    hide ByteAt, Ahead, PackBody, FolderBody, SubstreamsBody, PackAt, FolderAt, SubstreamsAt;
    var s3 := [K_SUBSTREAMS_INFO] + SubstreamsBody(crc, [K_END] + rest);
    var s2 := [K_UNPACK_INFO] + FolderBody(c, len, s3);
    var p1 := ByteReads(d, pos, K_PACK_INFO, PackBody(packPos, packedLen, s2));
    var p2 := PackReads(d, p1, packPos, packedLen, s2, None);
    var p3 := ByteReads(d, p2, K_UNPACK_INFO, FolderBody(c, len, s3));
    var p4 := FolderReads(d, p3, c, len, s3);
    var p5 := ByteReads(d, p4, K_SUBSTREAMS_INFO, SubstreamsBody(crc, [K_END] + rest));
    var p6 := SubstreamsRead(d, p5, crc, [K_END] + rest);
    p := ByteReads(d, p6, K_END, rest);
    var folder := Folder(len, CodersOf(c).aes, None);
    var st := Streams(packPos, Some(packedLen), Some(folder), Some(crc), true);
    assert StreamsFrom(d, p6, st) == Ok((st, p));
    assert StreamsFrom(d, p4, Streams(packPos, Some(packedLen), Some(folder), None, false)) == Ok((st, p));
    assert StreamsFrom(d, p2, Streams(packPos, Some(packedLen), None, None, false)) == Ok((st, p));
  }

  lemma {:induction false} FilesRead(d: seq<byte>, pos: nat, name: seq<Scalar>, rest: seq<byte>) returns (p: nat)
    requires 1 + 2 * (|Units(name)| + 1) < USIZE_BOUND && Ahead(d, pos, FilesBody(name, rest))
    ensures FilesAt(d, pos) == Ok(((), p)) && Ahead(d, p, rest)
  {
    hide ByteAt, TakeAt, NumberAt, NumberBytes, Ahead, Units;
    var body := NameBody(name);
    hide NameBody;
    var p1 := NumberReads(d, pos, 1, [K_NAME] + (NumberBytes(|body|) + (body + ([K_END] + rest))));
    var p2 := ByteReads(d, p1, K_NAME, NumberBytes(|body|) + (body + ([K_END] + rest)));
    var p3 := NumberReads(d, p2, |body|, body + ([K_END] + rest));
    var p4 := TakeReads(d, p3, body, [K_END] + rest);
    p := ByteReads(d, p4, K_END, rest);
    assert FilePropertiesAt(d, p4) == Ok(((), p));
    assert FilePropertiesAt(d, p1) == Ok(((), p));
  }

  /** The reader finds in a written header exactly what was written, and nothing is left over. */
  lemma {:induction false} HeaderRoundTrip(name: seq<Scalar>, len: nat, packedLen: nat, crc: nat, c: Coder)
    requires c.Ok() && len < USIZE_BOUND && packedLen < USIZE_BOUND && crc < U32_BOUND && (c.CopyCoder? ==> packedLen == len)
    requires 1 + 2 * (|Units(name)| + 1) < USIZE_BOUND
    ensures var d := HeaderBytes(name, len, packedLen, crc, c);
            && HeaderBodyAt(d, 1) == Ok((EntryFor(0, c, len, packedLen, crc), |d|))
            && HeaderFound(d) == match EntryFor(0, c, len, packedLen, crc) case Aes(s) => Ok(File(s)) case Clear(p) => Ok(ClearFile(p))
  {
    hide ByteAt, Ahead, StreamsBody, FilesBody, StreamsInfoAt, FilesAt, Units;
    var d := HeaderBytes(name, len, packedLen, crc, c);
    var files := [K_FILES_INFO] + FilesBody(name, [K_END]);
    var streams := StreamsBody(0, c, len, packedLen, crc, files);
    AtStart(d);
    var p1 := ByteReads(d, 0, K_HEADER, [K_MAIN_STREAMS] + streams);
    FirstByteIsAt(d, p1);
    var p2 := ByteReads(d, p1, K_MAIN_STREAMS, streams);
    var p3 := StreamsRead(d, p2, 0, c, len, packedLen, crc, files);
    var p4 := ByteReads(d, p3, K_FILES_INFO, FilesBody(name, [K_END]));
    var p5 := FilesRead(d, p4, name, [K_END]);
    assert [K_END] + [] == [K_END];
    var p6 := ByteReads(d, p5, K_END, []);
    NothingAhead(d, p6);
  }

  /** The next header of an archive whose real one is encrypted: where that is, and how. */
  function EncodedHeaderBytes(packPos: nat, c: Coder, len: nat, packedLen: nat, crc: nat): (s: seq<byte>)
    requires c.Ok()
    ensures s != []
  {
    [K_ENCODED_HEADER] + StreamsBody(packPos, c, len, packedLen, crc, [])
  }

  /** An encoded header reads as the stream it describes, when it is encrypted; one that is only stored is refused. */
  lemma {:induction false} EncodedHeaderRoundTrip(packPos: nat, c: Coder, len: nat, packedLen: nat, crc: nat)
    requires BASE + packPos < USIZE_BOUND && c.Ok() && len < USIZE_BOUND && packedLen < USIZE_BOUND && crc < U32_BOUND
    requires c.CopyCoder? ==> packedLen == len
    ensures HeaderFound(EncodedHeaderBytes(packPos, c, len, packedLen, crc))
         == match EntryFor(packPos, c, len, packedLen, crc) case Aes(s) => Ok(Header(s)) case Clear(_) => Err(BadArchive)
  {
    hide ByteAt, Ahead, StreamsBody, StreamsInfoAt, HeaderBodyAt;
    var d := EncodedHeaderBytes(packPos, c, len, packedLen, crc);
    AtStart(d);
    var p1 := ByteReads(d, 0, K_ENCODED_HEADER, StreamsBody(packPos, c, len, packedLen, crc, []));
    var p2 := StreamsRead(d, p1, packPos, c, len, packedLen, crc, []);
  }

  lemma AtStart(d: seq<byte>)
    ensures Ahead(d, 0, d)
  {
  }

  lemma FirstByteIsAt(d: seq<byte>, p: nat)
    requires ByteAt(d, 0).Ok? && ByteAt(d, 0).value.1 == p
    ensures p == 1
  {
  }

  lemma NothingAhead(d: seq<byte>, p: nat)
    requires Ahead(d, p, [])
    ensures p == |d|
  {
  }
}
