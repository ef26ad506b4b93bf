/**
 The 7-Zip header as this firmware reads it: what each part of it is, at a place in the bytes, and
 where the next part starts. Everything but the one shape a backup has is refused by name.
 */
module SevenZipFormat {
  import opened Bytes
  import opened SevenZipNumbers
  import opened Wrappers

  datatype Error =
    | Truncated | NotSevenZip | BadChecksum | NotOneFile | BadArchive | Compressed | NotEncrypted
    | BadCiphertext | BufferTooSmall

  type Result<T> = Outcome<T, Error>

  const BASE: nat := 32
  const USIZE_BOUND: nat := U32_BOUND
  const MAX_CODERS: nat := 4
  const MAX_SALT: nat := 16

  const SIGNATURE: seq<byte> := [0x37, 0x7A, 0xBC, 0xAF, 0x27, 0x1C, 0x00, 0x04]
  const AES_CODER_ID: seq<byte> := [0x06, 0xF1, 0x07, 0x01]
  const COPY_CODER_ID: seq<byte> := [0x00]

  const K_END: byte := 0x00
  const K_HEADER: byte := 0x01
  const K_MAIN_STREAMS: byte := 0x04
  const K_FILES_INFO: byte := 0x05
  const K_PACK_INFO: byte := 0x06
  const K_UNPACK_INFO: byte := 0x07
  const K_SUBSTREAMS_INFO: byte := 0x08
  const K_SIZE: byte := 0x09
  const K_CRC: byte := 0x0A
  const K_FOLDER: byte := 0x0B
  const K_CODERS_UNPACK_SIZE: byte := 0x0C
  const K_NUM_UNPACK_STREAM: byte := 0x0D
  const K_EMPTY_STREAM: byte := 0x0E
  const K_EMPTY_FILE: byte := 0x0F
  const K_ANTI: byte := 0x10
  const K_NAME: byte := 0x11
  const K_ENCODED_HEADER: byte := 0x17

  /** One AES-encrypted stream, and everything needed to open it. */
  datatype Stream = Stream(offset: nat, packedLen: nat, unpackedLen: nat, cyclesPower: nat, crc: Option<nat>,
                           salt: seq<byte>, iv: seq<byte>)

  /** One stored file in the clear. */
  datatype Plain = Plain(offset: nat, len: nat, crc: Option<nat>)

  datatype Entry = Aes(stream: Stream) | Clear(plain: Plain)

  datatype Found = File(stream: Stream) | Header(stream: Stream) | ClearFile(plain: Plain)

  datatype AesProps = AesProps(cyclesPower: nat, salt: seq<byte>, iv: seq<byte>)

  datatype Folder = Folder(unpackedLen: nat, aes: Option<AesProps>, crc: Option<nat>)

  /** Whether the bit that is worth `mask` is set. */
  predicate HasBit(b: byte, mask: nat)
    requires mask > 0
  {
    b as nat / mask % 2 == 1
  }

  // ---------------------------------------------------------------------------
  // Primitives
  // ---------------------------------------------------------------------------

  function ByteAt(d: seq<byte>, pos: nat): (r: Result<(byte, nat)>)
    ensures r.Ok? ==> pos < r.value.1 <= |d|
  {
    if pos < |d| then Ok((d[pos], pos + 1)) else Err(Truncated)
  }

  function TakeAt(d: seq<byte>, pos: nat, n: nat): (r: Result<(seq<byte>, nat)>)
    ensures r.Ok? ==> pos <= r.value.1 <= |d| && |r.value.0| == n
  {
    if pos + n <= |d| then Ok((d[pos..pos + n], pos + n)) else Err(Truncated)
  }

  function U32At(d: seq<byte>, pos: nat): (r: Result<(nat, nat)>)
    ensures r.Ok? ==> pos < r.value.1 <= |d|
  {
    var (s, p) :- TakeAt(d, pos, 4);
    Ok((FromLe(s), p))
  }

  function NumberAt(d: seq<byte>, pos: nat): (r: Result<(nat, nat)>)
    ensures r.Ok? ==> pos < r.value.1 <= |d|
  {
    var (first, p) :- ByteAt(d, pos);
    var (extra, q) :- TakeAt(d, p, LeadingOnes(first));
    Ok((ValueOf(first, extra), q))
  }

  /** A number that has to be an address on the device. */
  function Usize(v: nat): Result<nat> {
    if v < USIZE_BOUND then Ok(v) else Err(Truncated)
  }

  /** `Ok` when the condition holds. */
  function Need(ok: bool, e: Error): Result<()> {
    if ok then Ok(()) else Err(e)
  }

  /** `BASE.checked_add(offset)` */
  function FromBase(offset: nat): Result<nat> {
    if offset < USIZE_BOUND && BASE + offset < USIZE_BOUND then Ok(BASE + offset) else Err(Truncated)
  }

  // ---------------------------------------------------------------------------
  // Pack info
  // ---------------------------------------------------------------------------

  function DigestAt(d: seq<byte>, pos: nat): (r: Result<(Option<nat>, nat)>)
    ensures r.Ok? ==> pos < r.value.1 <= |d|
  {
    var (all, p) :- ByteAt(d, pos);
    if all == 0 then
      var (bits, q) :- ByteAt(d, p);
      if !HasBit(bits, 0x80) then Ok((None, q)) else
        var (v, s) :- U32At(d, q);
        Ok((Some(v), s))
    else
      var (v, s) :- U32At(d, p);
      Ok((Some(v), s))
  }

  function SkipDigestAt(d: seq<byte>, pos: nat): (r: Result<((), nat)>)
    ensures r.Ok? ==> pos < r.value.1 <= |d|
  {
    var (all, p) :- ByteAt(d, pos);
    if all == 0 then
      var (bits, q) :- TakeAt(d, p, 1);
      var (_, s) :- TakeAt(d, q, if HasBit(bits[0], 0x80) then 4 else 0);
      Ok(((), s))
    else
      var (_, s) :- TakeAt(d, p, 4);
      Ok(((), s))
  }

  function PackItemsAt(d: seq<byte>, pos: nat, packed: Option<nat>): (r: Result<(Option<nat>, nat)>)
    ensures r.Ok? ==> pos < r.value.1 <= |d|
    decreases |d| - pos
  {
    var (id, p) :- ByteAt(d, pos);
    if id == K_SIZE then
      var (n, q) :- NumberAt(d, p);
      PackItemsAt(d, q, Some(n))
    else if id == K_CRC then
      var (_, q) :- SkipDigestAt(d, p);
      PackItemsAt(d, q, packed)
    else if id == K_END then Ok((packed, p))
    else Err(BadArchive)
  }

  function PackAt(d: seq<byte>, pos: nat, packed: Option<nat>): (r: Result<((nat, Option<nat>), nat)>)
    ensures r.Ok? ==> pos < r.value.1 <= |d|
  {
    var (packPos, p) :- NumberAt(d, pos);
    var (count, q) :- NumberAt(d, p);
    var _ :- Need(count == 1, NotOneFile);
    var (n, s) :- PackItemsAt(d, q, packed);
    Ok(((packPos, n), s))
  }

  // ---------------------------------------------------------------------------
  // The folder
  // ---------------------------------------------------------------------------

  /** The lengths of salt and IV, and where they start. */
  function PropLengths(props: seq<byte>): (r: Result<(nat, nat, nat)>)
    ensures r.Ok? ==> r.value.2 <= |props|
  {
    if |props| == 0 then Err(BadArchive)
    else if !HasBit(props[0], 0x80) && !HasBit(props[0], 0x40) then Ok((0, 0, 1))
    else if |props| < 2 then Err(BadArchive)
    else
      var s := if HasBit(props[0], 0x80) then 1 else 0;
      var i := if HasBit(props[0], 0x40) then 1 else 0;
      Ok((s + props[1] as nat / 0x10, i + props[1] as nat % 0x10, 2))
  }

  function Zeros(n: nat): (s: seq<byte>)
    ensures |s| == n && forall i :: 0 <= i < n ==> s[i] == 0
  {
    if n == 0 then [] else Zeros(n - 1) + [0]
  }

  function AesPropsOf(props: seq<byte>): Result<AesProps> {
    var (saltLen, ivLen, at) :- PropLengths(props);
    if |props| - at != saltLen + ivLen || saltLen > MAX_SALT || ivLen > 16 then Err(BadArchive)
    else Ok(AesProps(props[0] as nat % 0x40, props[at..at + saltLen], props[at + saltLen..] + Zeros(16 - ivLen)))
  }

  /** What the coders met so far add up to. */
  datatype Coders = Coders(totalIn: nat, totalOut: nat, aes: Option<AesProps>)

  function StreamCountsAt(d: seq<byte>, pos: nat, given: bool): (r: Result<((nat, nat), nat)>)
    ensures r.Ok? ==> pos <= r.value.1 <= |d| || (!given && r.value.1 == pos)
  {
    if given then
      var (i, p) :- NumberAt(d, pos);
      var (o, q) :- NumberAt(d, p);
      Ok(((i, o), q))
    else Ok(((1, 1), pos))
  }

  function PropertiesAt(d: seq<byte>, pos: nat, given: bool): (r: Result<(seq<byte>, nat)>)
    ensures r.Ok? ==> pos <= r.value.1 <= |d| || (!given && r.value.1 == pos)
  {
    if given then
      var (claimed, p) :- NumberAt(d, pos);
      var n :- Usize(claimed);
      TakeAt(d, p, n)
    else Ok(([], pos))
  }

  function CoderAt(d: seq<byte>, pos: nat, c: Coders): (r: Result<(Coders, nat)>)
    ensures r.Ok? ==> pos < r.value.1 <= |d|
  {
    var (flags, p) :- ByteAt(d, pos);
    var _ :- Need(!HasBit(flags, 0x80), BadArchive);
    var (id, q) :- TakeAt(d, p, flags as nat % 0x10);
    var ((nIn, nOut), s) :- StreamCountsAt(d, q, HasBit(flags, 0x10));
    var _ :- Need(nIn <= MAX_CODERS && nOut <= MAX_CODERS, BadArchive);
    var (props, t) :- PropertiesAt(d, s, HasBit(flags, 0x20));
    if id == AES_CODER_ID then
      var _ :- Need(c.aes.None?, NotEncrypted);
      var aes :- AesPropsOf(props);
      Ok((Coders(c.totalIn + nIn, c.totalOut + nOut, Some(aes)), t))
    else
      var _ :- Need(id == COPY_CODER_ID, Compressed);
      Ok((Coders(c.totalIn + nIn, c.totalOut + nOut, c.aes), t))
  }

  function CodersAt(d: seq<byte>, pos: nat, n: nat, c: Coders): (r: Result<(Coders, nat)>)
    ensures r.Ok? ==> pos <= r.value.1 && (n > 0 ==> r.value.1 <= |d|)
    decreases n
  {
    if n == 0 then Ok((c, pos)) else
      var (next, p) :- CoderAt(d, pos, c);
      CodersAt(d, p, n - 1, next)
  }

  /** The bind pairs: which out-streams are consumed. */
  function PairsAt(d: seq<byte>, pos: nat, n: nat, bound: set<nat>): (r: Result<(set<nat>, nat)>)
    ensures r.Ok? ==> pos <= r.value.1
    decreases n
  {
    if n == 0 then Ok((bound, pos)) else
      var (_, p) :- NumberAt(d, pos);
      var (out, q) :- NumberAt(d, p);
      if out >= USIZE_BOUND || out >= MAX_CODERS || out in bound then Err(BadArchive)
      else PairsAt(d, q, n - 1, bound + {out})
  }

  function SizesAt(d: seq<byte>, pos: nat, n: nat): (r: Result<(seq<nat>, nat)>)
    ensures r.Ok? ==> pos <= r.value.1 && |r.value.0| == n
  {
    if n == 0 then Ok(([], pos)) else
      var (sizes, p) :- SizesAt(d, pos, n - 1);
      var (size, q) :- NumberAt(d, p);
      Ok((sizes + [size], q))
  }

  /** The first out-stream from `i` up that nothing consumes. */
  function FirstFree(bound: set<nat>, i: nat, n: nat): (r: Result<nat>)
    ensures r.Ok? ==> i <= r.value < n && r.value !in bound
    decreases n - i
  {
    if i >= n then Err(BadArchive) else if i !in bound then Ok(i) else FirstFree(bound, i + 1, n)
  }

  function FolderCrcAt(d: seq<byte>, pos: nat, crc: Option<nat>): (r: Result<(Option<nat>, nat)>)
    ensures r.Ok? ==> pos < r.value.1 <= |d|
    decreases |d| - pos
  {
    var (id, p) :- ByteAt(d, pos);
    if id == K_CRC then
      var (c, q) :- DigestAt(d, p);
      FolderCrcAt(d, q, c)
    else if id == K_END then Ok((crc, p))
    else Err(BadArchive)
  }

  function CoderListAt(d: seq<byte>, pos: nat): (r: Result<(Coders, nat)>)
    ensures r.Ok? ==> pos < r.value.1 <= |d| && r.value.0.totalOut > 0
  {
    var (count, p) :- NumberAt(d, pos);
    var _ :- Need(0 < count <= MAX_CODERS, Compressed);
    var (c, q) :- CodersAt(d, p, count, Coders(0, 0, None));
    var _ :- Need(c.aes.Some? || count == 1, BadArchive);
    var _ :- Need(0 < c.totalOut <= MAX_CODERS, BadArchive);
    Ok((c, q))
  }

  function PairListAt(d: seq<byte>, pos: nat, totalIn: nat, totalOut: nat): (r: Result<(set<nat>, nat)>)
    requires 0 < totalOut
    ensures r.Ok? ==> pos <= r.value.1
  {
    var (bound, p) :- PairsAt(d, pos, totalOut - 1, {});
    var _ :- Need(totalIn >= totalOut - 1, BadArchive);
    var _ :- Need(totalIn - (totalOut - 1) == 1, NotOneFile);
    Ok((bound, p))
  }

  function FolderSizeAt(d: seq<byte>, pos: nat, bound: set<nat>, totalOut: nat): (r: Result<(nat, nat)>)
    ensures r.Ok? ==> pos < r.value.1
  {
    var (id, p) :- ByteAt(d, pos);
    var _ :- Need(id == K_CODERS_UNPACK_SIZE, BadArchive);
    var (sizes, q) :- SizesAt(d, p, totalOut);
    var final :- FirstFree(bound, 0, totalOut);
    Ok((sizes[final], q))
  }

  function FolderHeadAt(d: seq<byte>, pos: nat): (r: Result<((), nat)>)
    ensures r.Ok? ==> pos < r.value.1 <= |d|
  {
    var (id, p) :- ByteAt(d, pos);
    var _ :- Need(id == K_FOLDER, BadArchive);
    var (count, q) :- NumberAt(d, p);
    var _ :- Need(count == 1, NotOneFile);
    var (external, s) :- ByteAt(d, q);
    var _ :- Need(external == 0, BadArchive);
    Ok(((), s))
  }

  function FolderAt(d: seq<byte>, pos: nat): (r: Result<(Folder, nat)>)
    ensures r.Ok? ==> pos < r.value.1 <= |d|
  {
    var (_, p) :- FolderHeadAt(d, pos);
    var (c, q) :- CoderListAt(d, p);
    var (bound, s) :- PairListAt(d, q, c.totalIn, c.totalOut);
    var (len, t) :- FolderSizeAt(d, s, bound, c.totalOut);
    var (crc, u) :- FolderCrcAt(d, t, None);
    Ok((Folder(len, c.aes, crc), u))
  }

  // ---------------------------------------------------------------------------
  // Streams
  // ---------------------------------------------------------------------------

  function SubstreamsAt(d: seq<byte>, pos: nat, folderCrc: Option<nat>, crc: Option<nat>): (r: Result<(Option<nat>, nat)>)
    ensures r.Ok? ==> pos < r.value.1 <= |d|
    decreases |d| - pos
  {
    var (id, p) :- ByteAt(d, pos);
    if id == K_NUM_UNPACK_STREAM then
      var (n, q) :- NumberAt(d, p);
      var _ :- Need(n == 1, NotOneFile);
      SubstreamsAt(d, q, folderCrc, crc)
    else if id == K_SIZE then Err(NotOneFile)
    else if id == K_CRC then
      if folderCrc.Some? then SubstreamsAt(d, p, folderCrc, folderCrc)
      else
        var (c, q) :- DigestAt(d, p);
        SubstreamsAt(d, q, folderCrc, c)
    else if id == K_END then Ok((crc, p))
    else Err(BadArchive)
  }

  /** What has been read of the streams. */
  datatype Streams = Streams(packPos: nat, packedLen: Option<nat>, folder: Option<Folder>, subCrc: Option<nat>, haveSub: bool)

  function FolderCrc(folder: Option<Folder>): Option<nat> {
    if folder.Some? then folder.value.crc else None
  }

  function StreamsFrom(d: seq<byte>, pos: nat, st: Streams): (r: Result<(Streams, nat)>)
    ensures r.Ok? ==> pos < r.value.1 <= |d|
    decreases |d| - pos
  {
    var (id, p) :- ByteAt(d, pos);
    if id == K_PACK_INFO then
      var ((packPos, packed), q) :- PackAt(d, p, st.packedLen);
      StreamsFrom(d, q, st.(packPos := packPos, packedLen := packed))
    else if id == K_UNPACK_INFO then
      var (folder, q) :- FolderAt(d, p);
      StreamsFrom(d, q, st.(folder := Some(folder)))
    else if id == K_SUBSTREAMS_INFO then
      var (crc, q) :- SubstreamsAt(d, p, FolderCrc(st.folder), None);
      StreamsFrom(d, q, st.(subCrc := crc, haveSub := true))
    else if id == K_END then Ok((st, p))
    else Err(BadArchive)
  }

  function EntryOf(st: Streams): Result<Entry> {
    if st.folder.None? || st.packedLen.None? then Err(BadArchive) else
      var f := st.folder.value;
      var offset :- FromBase(st.packPos);
      var packedLen :- Usize(st.packedLen.value);
      var unpackedLen :- Usize(f.unpackedLen);
      var crc := if st.haveSub then st.subCrc else f.crc;
      match f.aes
      case Some(a) => Ok(Aes(Stream(offset, packedLen, unpackedLen, a.cyclesPower, crc, a.salt, a.iv)))
      case None => if packedLen != unpackedLen then Err(BadArchive) else Ok(Clear(Plain(offset, unpackedLen, crc)))
  }

  /** Nothing has been read of the streams. */
  function NoStreams(none: Option<nat>): Streams {
    Streams(0, none, None, none, false)
  }

  function StreamsInfoAt(d: seq<byte>, pos: nat): (r: Result<(Entry, nat)>)
    ensures r.Ok? ==> pos < r.value.1 <= |d|
  {
    var (st, p) :- StreamsFrom(d, pos, NoStreams(None));
    var entry :- EntryOf(st);
    Ok((entry, p))
  }

  // ---------------------------------------------------------------------------
  // The header
  // ---------------------------------------------------------------------------

  function FilePropertiesAt(d: seq<byte>, pos: nat): (r: Result<((), nat)>)
    ensures r.Ok? ==> pos < r.value.1 <= |d|
    decreases |d| - pos
  {
    var (id, p) :- ByteAt(d, pos);
    if id == K_END then Ok(((), p)) else
      var (claimed, q) :- NumberAt(d, p);
      var size :- Usize(claimed);
      var (body, s) :- TakeAt(d, q, size);
      if id == K_EMPTY_STREAM || id == K_EMPTY_FILE || id == K_ANTI then Err(NotOneFile)
      else if id == K_NAME && (body == [] || body[0] != 0) then Err(BadArchive)
      else FilePropertiesAt(d, s)
  }

  function FilesAt(d: seq<byte>, pos: nat): (r: Result<((), nat)>)
    ensures r.Ok? ==> pos < r.value.1 <= |d|
  {
    var (count, p) :- NumberAt(d, pos);
    var _ :- Need(count == 1, NotOneFile);
    FilePropertiesAt(d, p)
  }

  function HeaderEndAt(d: seq<byte>, pos: nat): (r: Result<((), nat)>)
    ensures r.Ok? ==> pos < r.value.1 <= |d|
  {
    var (id, p) :- ByteAt(d, pos);
    if id == K_FILES_INFO then
      var (_, q) :- FilesAt(d, p);
      var (end, s) :- ByteAt(d, q);
      var _ :- Need(end == K_END, BadArchive);
      Ok(((), s))
    else
      var _ :- Need(id == K_END, BadArchive);
      Ok(((), p))
  }

  function HeaderBodyAt(d: seq<byte>, pos: nat): (r: Result<(Entry, nat)>)
    ensures r.Ok? ==> pos < r.value.1 <= |d|
  {
    var (id, p) :- ByteAt(d, pos);
    var _ :- Need(id == K_MAIN_STREAMS, BadArchive);
    var (entry, q) :- StreamsInfoAt(d, p);
    var (_, s) :- HeaderEndAt(d, q);
    Ok((entry, s))
  }

  // ---------------------------------------------------------------------------
  // The archive
  // ---------------------------------------------------------------------------

  type u32 = x: nat | x < U32_BOUND

  /** The CRC-32 of some bytes: any function of them. */
  type Crc = seq<byte> -> u32

  function HeaderFound(header: seq<byte>): Result<Found> {
    var (tag, p) :- ByteAt(header, 0);
    if tag == K_HEADER then
      var (entry, _) :- HeaderBodyAt(header, p);
      match entry
      case Aes(s) => Ok(File(s))
      case Clear(c) => Ok(ClearFile(c))
    else if tag == K_ENCODED_HEADER then
      var (entry, _) :- StreamsInfoAt(header, p);
      match entry
      case Aes(s) => Ok(Header(s))
      case Clear(_) => Err(BadArchive)
    else Err(BadArchive)
  }

  /** Where the next header is: its range, and the checksum it should have. */
  function NextHeader(archive: seq<byte>, crc: Crc): (r: Result<(nat, nat, nat)>)
    ensures r.Ok? ==> BASE <= r.value.0 <= r.value.1 <= |archive|
  {
    if |archive| < BASE then Err(Truncated)
    else if archive[..6] != SIGNATURE[..6] then Err(NotSevenZip)
    else if FromLe(archive[8..12]) != crc(archive[12..32]) then Err(BadChecksum)
    else
      var start :- FromBase(FromLe(archive[12..20]));
      var len :- Usize(FromLe(archive[20..28]));
      if start + len >= USIZE_BOUND || start + len > |archive| then Err(Truncated)
      else if len == 0 then Err(NotOneFile)
      else Ok((start, start + len, FromLe(archive[28..32])))
  }

  /** `open`: what is in the archive. */
  function OpenOf(archive: seq<byte>, crc: Crc): Result<Found> {
    var (start, end, want) :- NextHeader(archive, crc);
    if crc(archive[start..end]) != want then Err(BadChecksum)
    else HeaderFound(archive[start..end])
  }

  /** The signature header is whole, and the header it points to is in the archive with the checksum it gives. */
  ghost predicate Framed(archive: seq<byte>, crc: Crc, start: nat, end: nat) {
    && |archive| >= BASE && archive[..6] == SIGNATURE[..6] && FromLe(archive[8..12]) == crc(archive[12..32])
    && start == BASE + FromLe(archive[12..20]) && end == start + FromLe(archive[20..28])
    && start < end <= |archive| && end < USIZE_BOUND
    && crc(archive[start..end]) == FromLe(archive[28..32])
  }

  /** No header is read out of an archive whose checksums do not agree, and none is refused that is framed soundly. */
  lemma OpenReadsIff(archive: seq<byte>, crc: Crc)
    ensures forall start: nat, end: nat :: Framed(archive, crc, start, end) ==> OpenOf(archive, crc) == HeaderFound(archive[start..end])
    ensures (forall start: nat, end: nat :: !Framed(archive, crc, start, end)) ==>
              OpenOf(archive, crc).Err? && OpenOf(archive, crc).error in {Truncated, NotSevenZip, BadChecksum, NotOneFile}
  {
    hide FromLe, HeaderFound;
    if NextHeader(archive, crc).Ok? {
      var next := NextHeader(archive, crc).value;
      assert crc(archive[next.0..next.1]) == next.2 ==> Framed(archive, crc, next.0, next.1);
    }
  }

  /** `file_in` */
  function FileInOf(header: seq<byte>): Result<Stream> {
    var (tag, p) :- ByteAt(header, 0);
    if tag != K_HEADER then Err(BadArchive)
    else
      var (entry, _) :- HeaderBodyAt(header, p);
      match entry
      case Aes(s) => Ok(s)
      case Clear(_) => Err(NotEncrypted)
  }
}
