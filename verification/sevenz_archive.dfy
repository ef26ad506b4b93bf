/**
 Sealing a body into an archive in the buffer it is already in, and getting it back out: in the
 clear, or behind AES-CBC. The cipher is any length-preserving inverse pair.
 */
module SevenZipArchive {
  import opened Bytes
  import opened SevenZipNumbers
  import opened SevenZipFormat
  import opened SevenZipLayout
  import opened SevenZipReader
  import opened SevenZipWriter
  import opened Wrappers

  const OVERHEAD: nat := 160

  type Key = seq<byte>

  /** AES-256-CBC: by key, IV and data. */
  datatype Cipher = Cipher(encrypt: (Key, seq<byte>, seq<byte>) -> seq<byte>, decrypt: (Key, seq<byte>, seq<byte>) -> seq<byte>) {
    /** Whole blocks keep their length, and decrypting undoes encrypting. */
    ghost predicate Sound() {
      forall key: Key, iv: seq<byte>, data: seq<byte> :: |data| % 16 == 0 ==>
        && |encrypt(key, iv, data)| == |data| && |decrypt(key, iv, data)| == |data|
        && decrypt(key, iv, encrypt(key, iv, data)) == data
    }
  }

  /** `n` rounded up to whole blocks. */
  function Padded(n: nat): (p: nat)
    ensures p % 16 == 0 && n <= p < n + 16
  {
    (n + 15) / 16 * 16
  }

  function LenBound(name: seq<Scalar>, dataLen: nat): nat {
    BASE + Padded(dataLen) + OVERHEAD + 2 * NameLen(name)
  }

  // ---------------------------------------------------------------------------
  // The archive as bytes
  // ---------------------------------------------------------------------------

  function StartHeader(packedLen: nat, header: seq<byte>, crc: Crc): (s: seq<byte>)
    ensures |s| == 20
  {
    ToLe(packedLen, 8) + ToLe(|header|, 8) + ToLe(crc(header), 4)
  }

  /** Signature, the checksum of the start header, the start header, what is stored, the header. */
  function ArchiveOf(stored: seq<byte>, header: seq<byte>, crc: Crc): (s: seq<byte>)
    ensures |s| == BASE + |stored| + |header|
  {
    var start := StartHeader(|stored|, header, crc);
    SIGNATURE + ToLe(crc(start), 4) + start + stored + header
  }

  /** The body with zeros up to a whole block. */
  function ZeroPadded(body: seq<byte>): (s: seq<byte>)
    ensures |s| == Padded(|body|) && s[..|body|] == body
  {
    body + Zeros(Padded(|body|) - |body|)
  }

  /** What `seal_at` makes of a body. */
  function Sealed(body: seq<byte>, name: seq<Scalar>, key: Key, c: Coder, cipher: Cipher, crc: Crc): seq<byte>
    requires c.AesCoder? && c.Ok()
  {
    ArchiveOf(cipher.encrypt(key, c.iv, ZeroPadded(body)), HeaderBytes(name, |body|, Padded(|body|), crc(body), c), crc)
  }

  /** What `seal_clear_at` makes of a body. */
  function SealedClear(body: seq<byte>, name: seq<Scalar>, crc: Crc): seq<byte> {
    ArchiveOf(body, HeaderBytes(name, |body|, |body|, crc(body), CopyCoder), crc)
  }

  lemma {:induction false} ArchivePieces(stored: seq<byte>, header: seq<byte>, crc: Crc)
    ensures var a, start := ArchiveOf(stored, header, crc), StartHeader(|stored|, header, crc);
            && a[..6] == SIGNATURE[..6] && a[8..12] == ToLe(crc(start), 4) && a[12..32] == start
            && a[12..20] == ToLe(|stored|, 8) && a[20..28] == ToLe(|header|, 8) && a[28..32] == ToLe(crc(header), 4)
            && a[BASE..BASE + |stored|] == stored && a[BASE + |stored|..] == header
  {
    hide ToLe;
    var a, start := ArchiveOf(stored, header, crc), StartHeader(|stored|, header, crc);
    assert a[12..32] == start;
    assert a[12..20] == start[..8] && a[20..28] == start[8..16] && a[28..32] == start[16..20];
    assert start[..8] == ToLe(|stored|, 8) && start[8..16] == ToLe(|header|, 8) && start[16..20] == ToLe(crc(header), 4);
  }

  /** What the signature header says is where things are. */
  lemma {:induction false} ArchiveOpens(stored: seq<byte>, header: seq<byte>, crc: Crc)
    requires 0 < |header| && BASE + |stored| + |header| < USIZE_BOUND
    ensures OpenOf(ArchiveOf(stored, header, crc), crc) == HeaderFound(header)
  {
    hide ToLe, FromLe, Pow256, ArchiveOf, StartHeader, HeaderFound;
    var a, start := ArchiveOf(stored, header, crc), StartHeader(|stored|, header, crc);
    ArchivePieces(stored, header, crc);
    Pow256Four();
    FromToLe(|stored|, 8);
    FromToLe(|header|, 8);
    FromToLe(crc(header), 4);
    FromToLe(crc(start), 4);
    assert NextHeader(a, crc) == Ok((BASE + |stored|, |a|, crc(header) as nat));
    assert a[BASE + |stored|..|a|] == header;
  }

  // ---------------------------------------------------------------------------
  // Getting the body back
  // ---------------------------------------------------------------------------

  /** `ciphertext_end` */
  function CiphertextEnd(archiveLen: nat, s: Stream): (r: Result<nat>)
    ensures r.Ok? ==> s.packedLen % 16 == 0 && s.unpackedLen <= s.packedLen && r.value == s.offset + s.packedLen <= archiveLen
  {
    if s.packedLen % 16 != 0 then Err(BadCiphertext)
    else if s.unpackedLen > s.packedLen || s.packedLen - s.unpackedLen >= 16 then Err(BadCiphertext)
    else if s.offset + s.packedLen >= USIZE_BOUND || s.offset + s.packedLen > archiveLen then Err(Truncated)
    else Ok(s.offset + s.packedLen)
  }

  function Checked(file: seq<byte>, want: Option<nat>, crc: Crc): Result<seq<byte>> {
    if want.Some? && crc(file) != want.value then Err(BadChecksum) else Ok(file)
  }

  /** `decrypt_in_place`: the file a stream of the archive decrypts to. */
  function Decrypted(archive: seq<byte>, s: Stream, key: Key, cipher: Cipher, crc: Crc): Result<seq<byte>> {
    var end :- CiphertextEnd(|archive|, s);
    var plain := cipher.decrypt(key, s.iv, archive[s.offset..end]);
    if |plain| < s.unpackedLen then Err(BadCiphertext) else Checked(plain[..s.unpackedLen], s.crc, crc)
  }

  /** `extract_in_place`: the file stored in the clear. */
  function Extracted(archive: seq<byte>, p: Plain, crc: Crc): Result<seq<byte>> {
    if p.offset + p.len >= USIZE_BOUND || p.offset + p.len > |archive| then Err(Truncated)
    else Checked(archive[p.offset..p.offset + p.len], p.crc, crc)
  }

  lemma {:induction false} HeaderLength(name: seq<Scalar>, len: nat, packedLen: nat, crc: nat, c: Coder)
    requires c.Ok()
    ensures 0 < |HeaderBytes(name, len, packedLen, crc, c)| <= 120 + 2 * |Units(name)|
  {
    hide Units;
    SmallNumbers();
    hide NumberBytes;
    if c.AesCoder? {
      OneByteNumber(2 + |c.salt| + 16);
    }
  }

  lemma {:induction false} OneByteNumber(v: nat)
    requires v < 0x80
    ensures |NumberBytes(v)| == 1
  {
    Pow2Small();
  }

  lemma {:induction false} SmallNumbers()
    ensures |NumberBytes(0)| == 1 && |NumberBytes(1)| == 1 && |NumberBytes(2)| == 1
  {
    OneByteNumber(0);
    OneByteNumber(1);
    OneByteNumber(2);
  }

  lemma {:induction false} PackIs(len: nat, rest: seq<byte>)
    requires len < 0x80
    ensures PackBody(0, len, rest) == [0x00, 0x01, 0x09, len as byte, 0x00] + rest
  {
    hide NumberBytes;
    ShortNumber(0);
    ShortNumber(1);
    ShortNumber(len);
  }

  lemma {:induction false} FolderIs(len: nat, rest: seq<byte>)
    requires len < 0x80
    ensures FolderBody(CopyCoder, len, rest) == [0x0B, 0x01, 0x00, 0x01, 0x01, 0x00, 0x0C, len as byte, 0x00] + rest
  {
    hide NumberBytes;
    ShortNumber(1);
    ShortNumber(len);
  }

  lemma {:induction false} FilesAre(name: seq<Scalar>)
    requires 1 + 2 * (|Units(name)| + 1) < 0x80
    ensures FilesBody(name, [0x00])
         == [0x01, 0x11, (3 + 2 * |Units(name)|) as byte, 0x00] + (UnitBytes(Units(name)) + [0x00, 0x00, 0x00, 0x00])
  {
    hide NumberBytes, Units, UnitBytes;
    ShortNumber(1);
    ShortNumber(1 + 2 * (|Units(name)| + 1));
  }

  /** Byte for byte, the header of a short body sealed in the clear. */
  lemma {:induction false} ClearHeaderIs(name: seq<Scalar>, len: nat, crc: nat)
    requires len < 0x80 && 1 + 2 * (|Units(name)| + 1) < 0x80
    ensures HeaderBytes(name, len, len, crc, CopyCoder)
         == [0x01, 0x04, 0x06] + ([0x00, 0x01, 0x09, len as byte, 0x00] + ([0x07] + (
            [0x0B, 0x01, 0x00, 0x01, 0x01, 0x00, 0x0C, len as byte, 0x00] + ([0x08, 0x0A, 0x01] + (ToLe(crc, 4) + ([0x00, 0x00, 0x05] + (
            [0x01, 0x11, (3 + 2 * |Units(name)|) as byte, 0x00] + (UnitBytes(Units(name)) + [0x00, 0x00, 0x00, 0x00]))))))))
  {
    hide Units, UnitBytes, ToLe, PackBody, FolderBody, FilesBody;
    var files := FilesBody(name, [0x00]);
    var streams := [0x08] + SubstreamsBody(crc, [0x00] + ([0x05] + files));
    FilesAre(name);
    FolderIs(len, streams);
    PackIs(len, [0x07] + FolderBody(CopyCoder, len, streams));
    var tail := ToLe(crc, 4) + ([0x00, 0x00, 0x05] + files);
    assert SubstreamsBody(crc, [0x00] + ([0x05] + files)) == [0x0A, 0x01] + tail;
    assert streams == [0x08, 0x0A, 0x01] + tail;
  }

  lemma {:induction false} ShortNumber(v: nat)
    requires v < 0x80
    ensures NumberBytes(v) == [v as byte]
  {
    Pow2Small();
  }

  /** A buffer of `LenBound` bytes always holds the archive. */
  lemma {:induction false} BoundIsEnough(body: seq<byte>, name: seq<Scalar>, key: Key, c: Coder, cipher: Cipher, crc: Crc)
    requires c.AesCoder? && c.Ok() && cipher.Sound()
    ensures |Sealed(body, name, key, c, cipher, crc)| <= LenBound(name, |body|)
    ensures |SealedClear(body, name, crc)| <= LenBound(name, |body|)
  {
    hide HeaderBytes, Units, NameLen, ZeroPadded;
    HeaderLength(name, |body|, Padded(|body|), crc(body), c);
    HeaderLength(name, |body|, |body|, crc(body), CopyCoder);
    UnitsAreFew(name);
  }

  /** What was sealed opens as exactly that, and decrypts with the same key to the body. */
  lemma {:induction false} SealRoundTrip(body: seq<byte>, name: seq<Scalar>, key: Key, c: Coder, cipher: Cipher, crc: Crc)
    requires c.AesCoder? && c.Ok() && cipher.Sound() && LenBound(name, |body|) < USIZE_BOUND
    ensures var a := Sealed(body, name, key, c, cipher, crc);
            var s := Stream(BASE, Padded(|body|), |body|, c.cyclesPower, Some(crc(body)), c.salt, c.iv);
            OpenOf(a, crc) == Ok(File(s)) && Decrypted(a, s, key, cipher, crc) == Ok(body)
  {
    hide HeaderBytes, Units, NameLen, ZeroPadded, OpenOf, ArchiveOf, StartHeader, HeaderFound, HeaderBodyAt, Cipher.Sound;
    var header, padded := HeaderBytes(name, |body|, Padded(|body|), crc(body), c), ZeroPadded(body);
    HeaderLength(name, |body|, Padded(|body|), crc(body), c);
    UnitsAreFew(name);
    HeaderRoundTrip(name, |body|, Padded(|body|), crc(body), c);
    SoundFor(cipher, key, c.iv, padded);
    var stored := cipher.encrypt(key, c.iv, padded);
    ArchiveOpens(stored, header, crc);
    ArchivePieces(stored, header, crc);
  }

  lemma SoundFor(cipher: Cipher, key: Key, iv: seq<byte>, data: seq<byte>)
    requires cipher.Sound() && |data| % 16 == 0
    ensures |cipher.encrypt(key, iv, data)| == |data| && |cipher.decrypt(key, iv, data)| == |data|
    ensures cipher.decrypt(key, iv, cipher.encrypt(key, iv, data)) == data
  {
  }

  /** The same for a body sealed in the clear. */
  lemma {:induction false} ClearRoundTrip(body: seq<byte>, name: seq<Scalar>, crc: Crc)
    requires LenBound(name, |body|) < USIZE_BOUND
    ensures var a, p := SealedClear(body, name, crc), Plain(BASE, |body|, Some(crc(body)));
            OpenOf(a, crc) == Ok(ClearFile(p)) && Extracted(a, p, crc) == Ok(body)
  {
    hide HeaderBytes, Units, NameLen, OpenOf, ArchiveOf, StartHeader, HeaderFound, HeaderBodyAt;
    var header := HeaderBytes(name, |body|, |body|, crc(body), CopyCoder);
    HeaderLength(name, |body|, |body|, crc(body), CopyCoder);
    UnitsAreFew(name);
    HeaderRoundTrip(name, |body|, |body|, crc(body), CopyCoder);
    ArchiveOpens(body, header, crc);
    ArchivePieces(body, header, crc);
  }

  // ---------------------------------------------------------------------------
  // An encrypted header
  // ---------------------------------------------------------------------------

  /** An archive as other writers make it, the header encrypted behind the file. */
  function SealedWhole(body: seq<byte>, name: seq<Scalar>, key: Key, c: Coder, h: Coder, cipher: Cipher, crc: Crc): seq<byte>
    requires c.AesCoder? && c.Ok() && h.AesCoder? && h.Ok()
  {
    var file := cipher.encrypt(key, c.iv, ZeroPadded(body));
    var header := HeaderBytes(name, |body|, Padded(|body|), crc(body), c);
    var hidden := cipher.encrypt(key, h.iv, ZeroPadded(header));
    ArchiveOf(file + hidden, EncodedHeaderBytes(|file|, h, |header|, Padded(|header|), crc(header)), crc)
  }

  ghost predicate OpensTwice(a: seq<byte>, hs: Stream, header: seq<byte>, s: Stream, body: seq<byte>, key: Key, cipher: Cipher, crc: Crc) {
    && OpenOf(a, crc) == Ok(Header(hs)) && Decrypted(a, hs, key, cipher, crc) == Ok(header)
    && FileInOf(header) == Ok(s) && Decrypted(a, s, key, cipher, crc) == Ok(body)
  }

  /**
   Such an archive opens in two steps: it opens as its header's stream, that decrypts to the header,
   and the header gives the file's stream, which decrypts to the body.
   */
  lemma {:induction false} WholeRoundTrip(
      body: seq<byte>, name: seq<Scalar>, key: Key, c: Coder, h: Coder, cipher: Cipher, crc: Crc)
    requires c.AesCoder? && c.Ok() && h.AesCoder? && h.Ok() && cipher.Sound()
    requires |SealedWhole(body, name, key, c, h, cipher, crc)| < USIZE_BOUND
    ensures var a := SealedWhole(body, name, key, c, h, cipher, crc);
            var header := HeaderBytes(name, |body|, Padded(|body|), crc(body), c);
            var hs := Stream(BASE + Padded(|body|), Padded(|header|), |header|, h.cyclesPower, Some(crc(header)), h.salt, h.iv);
            var s := Stream(BASE, Padded(|body|), |body|, c.cyclesPower, Some(crc(body)), c.salt, c.iv);
            OpensTwice(a, hs, header, s, body, key, cipher, crc)
  {
    hide HeaderBytes, EncodedHeaderBytes, Units, ZeroPadded, OpenOf, ArchiveOf, StartHeader, HeaderFound, HeaderBodyAt, Cipher.Sound,
         StreamsBody;
    var header := HeaderBytes(name, |body|, Padded(|body|), crc(body), c);
    var file, hidden := cipher.encrypt(key, c.iv, ZeroPadded(body)), cipher.encrypt(key, h.iv, ZeroPadded(header));
    SoundFor(cipher, key, c.iv, ZeroPadded(body));
    SoundFor(cipher, key, h.iv, ZeroPadded(header));
    HeaderHoldsName(name, |body|, Padded(|body|), crc(body), c);
    HeaderRoundTrip(name, |body|, Padded(|body|), crc(body), c);
    HeaderStarts(name, |body|, Padded(|body|), crc(body), c);
    EncodedHeaderRoundTrip(|file|, h, |header|, Padded(|header|), crc(header));
    var encoded := EncodedHeaderBytes(|file|, h, |header|, Padded(|header|), crc(header));
    ArchiveOpens(file + hidden, encoded, crc);
    ArchivePieces(file + hidden, encoded, crc);
    BothStored(ArchiveOf(file + hidden, encoded, crc), file, hidden);
  }

  lemma BothStored(a: seq<byte>, file: seq<byte>, hidden: seq<byte>)
    requires BASE + |file| + |hidden| <= |a| && a[BASE..BASE + |file + hidden|] == file + hidden
    ensures a[BASE..BASE + |file|] == file && a[BASE + |file|..BASE + |file| + |hidden|] == hidden
  {
    var stored := a[BASE..BASE + |file + hidden|];
    assert a[BASE..BASE + |file|] == stored[..|file|];
    assert a[BASE + |file|..BASE + |file| + |hidden|] == stored[|file|..];
  }

  lemma {:induction false} HeaderHoldsName(name: seq<Scalar>, len: nat, packedLen: nat, crc: nat, c: Coder)
    requires c.Ok()
    ensures 1 + 2 * (|Units(name)| + 1) <= |HeaderBytes(name, len, packedLen, crc, c)|
  {
    hide Units, NumberBytes;
  }

  lemma {:induction false} HeaderStarts(name: seq<Scalar>, len: nat, packedLen: nat, crc: nat, c: Coder)
    requires c.Ok()
    ensures ByteAt(HeaderBytes(name, len, packedLen, crc, c), 0) == Ok((K_HEADER, 1))
  {
    hide StreamsBody, FilesBody;
  }

  // ---------------------------------------------------------------------------
  // In the buffer
  // ---------------------------------------------------------------------------

  function Splice(s: seq<byte>, at: nat, piece: seq<byte>): (r: seq<byte>)
    requires at + |piece| <= |s|
    ensures |r| == |s|
  {
    s[..at] + piece + s[at + |piece|..]
  }

  /** Write `s` at `at`. */
  method PutAt(out: array<byte>, at: nat, s: seq<byte>)
    requires at + |s| <= out.Length
    modifies out
    ensures out[..] == Splice(old(out[..]), at, s)
  {
    for i := 0 to |s|
      invariant out[..] == old(out[..at]) + s[..i] + old(out[at + i..])
    {
      out[at + i] := s[i];
    }
  }

  lemma SpliceFront(s: seq<byte>, piece: seq<byte>, n: nat)
    requires n <= |piece| <= |s|
    ensures Splice(s, 0, piece)[..n] == piece[..n]
  {
  }

  /** `finish_archive` */
  method FinishArchive(out: array<byte>, packedEnd: nat, name: seq<Scalar>, len: nat, packedLen: nat, bodyCrc: nat, c: Coder, crc: Crc)
    returns (r: Result<nat>)
    requires BASE + packedLen == packedEnd <= out.Length < USIZE_BOUND && c.Ok() && bodyCrc < U32_BOUND && len <= packedLen
    requires 1 + 2 * (|Units(name)| + 1) < U64_BOUND
    modifies out
    ensures var archive := ArchiveOf(old(out[BASE..packedEnd]), HeaderBytes(name, len, packedLen, bodyCrc, c), crc);
            if |archive| <= out.Length then r == Ok(|archive|) && out[..|archive|] == archive else r == Err(BufferTooSmall)
  {
    hide HeaderBytes, Units, ToLe;
    ghost var stored := out[BASE..packedEnd];
    var w := new Writer(out, packedEnd);
    w.WriteHeader(name, len, packedLen, bodyCrc, c);
    assert out[BASE..packedEnd] == out[..packedEnd][BASE..] == stored;
    ghost var header := w.meant;
    var headerLen :- w.Finish();
    assert out[packedEnd..packedEnd + headerLen] == header;
    StartArchive(out, packedEnd, packedLen, headerLen, crc);
    return Ok(packedEnd + headerLen);
  }

  /** The signature header, once the lengths and the bytes it checks are there. */
  method StartArchive(out: array<byte>, packedEnd: nat, packedLen: nat, headerLen: nat, crc: Crc)
    requires BASE + packedLen == packedEnd && packedEnd + headerLen <= out.Length
    modifies out
    ensures out[..packedEnd + headerLen] == ArchiveOf(old(out[BASE..packedEnd]), old(out[packedEnd..packedEnd + headerLen]), crc)
  {
    hide ToLe, Splice, ArchiveOf, StartHeader;
    ghost var was := out[..];
    var header := out[packedEnd..packedEnd + headerLen];
    PutAt(out, 0, SIGNATURE);
    PutAt(out, 12, ToLe(packedLen, 8));
    PutAt(out, 20, ToLe(headerLen, 8));
    PutAt(out, 28, ToLe(crc(header), 4));
    ghost var s4 := out[..];
    FourPuts(was, SIGNATURE, ToLe(packedLen, 8), ToLe(headerLen, 8), ToLe(crc(header), 4));
    var startCrc := crc(out[12..32]);
    assert out[12..32] == s4[12..32];
    PutAt(out, 8, ToLe(startCrc, 4));
    FifthPut(was, s4, SIGNATURE, ToLe(startCrc, 4), s4[12..32]);
    PutsApart(SIGNATURE, ToLe(startCrc, 4), s4[12..32], was, packedEnd, packedEnd + headerLen);
    StartsArchive(was[BASE..packedEnd], header, s4[12..32], crc);
  }

  lemma FourPuts(was: seq<byte>, sig: seq<byte>, p: seq<byte>, h: seq<byte>, c: seq<byte>)
    requires |was| >= 32 && |sig| == |p| == |h| == 8 && |c| == 4
    ensures var s4 := Splice(Splice(Splice(Splice(was, 0, sig), 12, p), 20, h), 28, c);
            s4[..8] == sig && s4[12..32] == p + h + c && s4[32..] == was[32..]
  {
    var s1 := Splice(was, 0, sig);
    var s2 := Splice(s1, 12, p);
    var s3 := Splice(s2, 20, h);
    var s4 := Splice(s3, 28, c);
    assert s2[12..20] == p && s3[20..28] == h && s4[28..32] == c;
    assert s4[12..20] == s3[12..20] == s2[12..20];
    assert s4[20..28] == s3[20..28];
    assert s4[12..32] == s4[12..20] + s4[20..28] + s4[28..32];
    assert s4[..8] == s3[..8] == s2[..8] == s1[..8];
  }

  lemma FifthPut(was: seq<byte>, s4: seq<byte>, sig: seq<byte>, k: seq<byte>, start: seq<byte>)
    requires |was| == |s4| >= 32 && |k| == 4 && |sig| == 8
    requires s4[..8] == sig && s4[12..32] == start && s4[32..] == was[32..]
    ensures Splice(s4, 8, k) == sig + k + start + was[32..]
  {
    assert s4[12..] == s4[12..32] + s4[32..];
  }

  lemma StartsArchive(stored: seq<byte>, header: seq<byte>, start: seq<byte>, crc: Crc)
    requires start == ToLe(|stored|, 8) + ToLe(|header|, 8) + ToLe(crc(header), 4)
    ensures SIGNATURE + ToLe(crc(start), 4) + start + stored + header == ArchiveOf(stored, header, crc)
  {
  }

  lemma PutsApart(sig: seq<byte>, k: seq<byte>, start: seq<byte>, was: seq<byte>, n: nat, end: nat)
    requires |sig| + |k| + |start| == BASE <= n <= end <= |was|
    ensures (sig + k + start + was[BASE..])[..end] == sig + k + start + was[BASE..n] + was[n..end]
  {
    var front := sig + k + start;
    assert was[BASE..][..end - BASE] == was[BASE..end] == was[BASE..n] + was[n..end];
    assert (front + was[BASE..])[..end] == front + was[BASE..][..end - BASE];
    assert front + (was[BASE..n] + was[n..end]) == front + was[BASE..n] + was[n..end];
  }

  /** `seal_at`: wrap the body already in the buffer, and say how long the archive is. */
  method SealAt(out: array<byte>, bodyLen: nat, name: seq<Scalar>, key: Key, iv: seq<byte>, salt: seq<byte>, cyclesPower: nat,
                cipher: Cipher, crc: Crc)
    returns (r: Result<nat>)
    requires out.Length < USIZE_BOUND && |iv| == 16 && cipher.Sound() && 1 + 2 * (|Units(name)| + 1) < U64_BOUND
    modifies out
    ensures if |salt| > MAX_SALT || cyclesPower > 0x3F then r == Err(BadArchive) && out[..] == old(out[..])
            else if BASE + bodyLen > out.Length then r == Err(BufferTooSmall) && out[..] == old(out[..])
            else
              var a := Sealed(old(out[BASE..BASE + bodyLen]), name, key, AesCoder(iv, salt, cyclesPower), cipher, crc);
              if |a| <= out.Length then r == Ok(|a|) && out[..|a|] == a else r == Err(BufferTooSmall)
  {
    hide HeaderBytes, Units, ArchiveOf, Cipher.Sound, Zeros;
    if |salt| > MAX_SALT || cyclesPower > 0x3F {
      return Err(BadArchive);
    }
    var padded := Padded(bodyLen);
    var ctEnd := BASE + padded;
    if out.Length < ctEnd {
      if BASE + bodyLen <= out.Length {
        SoundFor(cipher, key, iv, ZeroPadded(out[BASE..BASE + bodyLen]));
      }
      return Err(BufferTooSmall);
    }
    var body := out[BASE..BASE + bodyLen];
    var bodyCrc := crc(body);
    PutAt(out, BASE + bodyLen, Zeros(padded - bodyLen));
    assert out[BASE..ctEnd] == ZeroPadded(body);
    SoundFor(cipher, key, iv, ZeroPadded(body));
    PutAt(out, BASE, cipher.encrypt(key, iv, out[BASE..ctEnd]));
    assert out[BASE..ctEnd] == cipher.encrypt(key, iv, ZeroPadded(body));
    r := FinishArchive(out, ctEnd, name, bodyLen, padded, bodyCrc, AesCoder(iv, salt, cyclesPower), crc);
  }

  /** `seal_clear_at`: the body stays where it is, and only the headers are written around it. */
  method SealClearAt(out: array<byte>, bodyLen: nat, name: seq<Scalar>, crc: Crc) returns (r: Result<nat>)
    requires out.Length < USIZE_BOUND && 1 + 2 * (|Units(name)| + 1) < U64_BOUND
    modifies out
    ensures if BASE + bodyLen > out.Length then r == Err(BufferTooSmall) && out[..] == old(out[..])
            else
              var a := SealedClear(old(out[BASE..BASE + bodyLen]), name, crc);
              if |a| <= out.Length then r == Ok(|a|) && out[..|a|] == a else r == Err(BufferTooSmall)
  {
    hide HeaderBytes, Units, ArchiveOf;
    var end := BASE + bodyLen;
    if out.Length < end {
      return Err(BufferTooSmall);
    }
    r := FinishArchive(out, end, name, bodyLen, bodyLen, crc(out[BASE..end]), CopyCoder, crc);
  }

  /** What is handed back, `n` bytes at the front, has the checksum that was recorded for it. */
  ghost predicate Intact(r: Result<nat>, want: Option<nat>, archive: seq<byte>, crc: Crc) {
    r.Ok? ==> r.value <= |archive| && (want.Some? ==> crc(archive[..r.value]) == want.value)
  }

  /** A file with the wrong checksum is refused, and no other is. */
  ghost function Verdict(file: seq<byte>, want: Option<nat>, crc: Crc): (r: Result<nat>)
    ensures want.Some? && crc(file) != want.value ==> r == Err(BadChecksum)
    ensures want.None? || crc(file) == want.value ==> r == Ok(|file|)
  {
    if want == None || want == Some(crc(file) as nat) then Ok(|file|) else Err(BadChecksum)
  }

  /** The ciphertext is whole blocks inside the archive, and less than a block of them is padding. */
  ghost predicate FitsBlocks(s: Stream, archiveLen: nat) {
    && s.packedLen % 16 == 0 && s.unpackedLen <= s.packedLen < s.unpackedLen + 16
    && s.offset + s.packedLen < USIZE_BOUND && s.offset + s.packedLen <= archiveLen
  }

  /** `copy_within(from..end, 0)` */
  method MoveToFront(archive: array<byte>, from: nat, end: nat)
    requires from <= end <= archive.Length
    modifies archive
    ensures archive[..end - from] == old(archive[from..end])
  {
    ghost var was := archive[..];
    for i := 0 to end - from
      invariant archive[..i] == was[from..from + i]
      invariant archive[i..] == was[i..]
    {
      assert archive[from + i] == archive[i..][from] == was[i..][from];
      archive[i] := archive[from + i];
      assert archive[i + 1..] == was[i + 1..];
    }
  }

  /** `decrypt_in_place`: the file comes back at the front of the buffer the archive was in. */
  method DecryptInPlace(archive: array<byte>, s: Stream, key: Key, cipher: Cipher, crc: Crc) returns (r: Result<nat>)
    requires cipher.Sound()
    modifies archive
    ensures match Decrypted(old(archive[..]), s, key, cipher, crc)
            case Ok(file) => |file| <= archive.Length && r == Ok(|file|) && archive[..|file|] == file
            case Err(e) => r == Err(e)
    ensures Intact(r, s.crc, archive[..], crc)
    ensures FitsBlocks(s, archive.Length) ==>
              var plain := cipher.decrypt(key, s.iv, old(archive[s.offset..s.offset + s.packedLen]));
              |plain| == s.packedLen && r == Verdict(plain[..s.unpackedLen], s.crc, crc)
    ensures !FitsBlocks(s, archive.Length) ==> r.Err? && archive[..] == old(archive[..])
  {
    hide Cipher.Sound, Splice;
    ghost var was := archive[..];
    if s.packedLen % 16 != 0 {
      return Err(BadCiphertext);
    }
    if s.unpackedLen > s.packedLen || s.packedLen - s.unpackedLen >= 16 {
      return Err(BadCiphertext);
    }
    var end := s.offset + s.packedLen;
    if end >= USIZE_BOUND || end > archive.Length {
      return Err(Truncated);
    }
    assert was[s.offset..end] == archive[s.offset..end];
    MoveToFront(archive, s.offset, end);
    SoundFor(cipher, key, s.iv, archive[..s.packedLen]);
    var plain := cipher.decrypt(key, s.iv, archive[..s.packedLen]);
    SpliceFront(archive[..], plain, s.unpackedLen);
    PutAt(archive, 0, plain);
    var file := archive[..s.unpackedLen];
    if s.crc.Some? && crc(file) != s.crc.value {
      return Err(BadChecksum);
    }
    return Ok(|file|);
  }

  /** `extract_in_place` */
  method ExtractInPlace(archive: array<byte>, p: Plain, crc: Crc) returns (r: Result<nat>)
    modifies archive
    ensures match Extracted(old(archive[..]), p, crc)
            case Ok(file) => |file| <= archive.Length && r == Ok(|file|) && archive[..|file|] == file
            case Err(e) => r == Err(e)
    ensures Intact(r, p.crc, archive[..], crc)
    ensures p.offset + p.len < USIZE_BOUND && p.offset + p.len <= archive.Length ==>
              r == Verdict(old(archive[p.offset..p.offset + p.len]), p.crc, crc)
    ensures p.offset + p.len >= USIZE_BOUND || p.offset + p.len > archive.Length ==>
              r == Err(Truncated) && archive[..] == old(archive[..])
  {
    ghost var was := archive[..];
    var end := p.offset + p.len;
    if end >= USIZE_BOUND || end > archive.Length {
      return Err(Truncated);
    }
    assert was[p.offset..end] == archive[p.offset..end];
    MoveToFront(archive, p.offset, end);
    var file := archive[..p.len];
    if p.crc.Some? && crc(file) != p.crc.value {
      return Err(BadChecksum);
    }
    return Ok(|file|);
  }
}
