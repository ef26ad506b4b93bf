/**
 The reader as it runs: one cursor over the header's bytes, moved by loops. Each method is shown to
 do what `SevenZipFormat` says is at its place.
 */
module SevenZipReader {
  import opened Bytes
  import opened SevenZipNumbers
  import opened SevenZipFormat
  import opened Wrappers

  /** A method returned what is at its place, and left the cursor after it. */
  ghost predicate Did<T>(spec: Result<(T, nat)>, r: Result<T>, pos: nat) {
    match spec
    case Ok((v, next)) => r == Ok(v) && pos == next
    case Err(e) => r == Err(e)
  }

  class Reader {
    const data: seq<byte>
    var pos: nat

    constructor (data: seq<byte>)
      ensures this.data == data && pos == 0
    {
      this.data := data;
      pos := 0;
    }

    method Byte() returns (r: Result<byte>)
      modifies this
      ensures Did(ByteAt(data, old(pos)), r, pos)
    {
      if pos >= |data| {
        return Err(Truncated);
      }
      var b := data[pos];
      pos := pos + 1;
      return Ok(b);
    }

    method Take(n: nat) returns (r: Result<seq<byte>>)
      modifies this
      ensures Did(TakeAt(data, old(pos), n), r, pos)
    {
      var end := pos + n;
      if end > |data| {
        return Err(Truncated);
      }
      var s := data[pos..end];
      pos := end;
      return Ok(s);
    }

    method U32Le() returns (r: Result<nat>)
      modifies this
      ensures Did(U32At(data, old(pos)), r, pos)
    {
      var s :- Take(4);
      return Ok(FromLe(s));
    }

    /** `read_number`: an or of bits apart is a sum, and a shift by bytes a multiplication. */
    method Number() returns (r: Result<nat>)
      modifies this
      ensures Did(NumberAt(data, old(pos)), r, pos)
    {
      hide Pow2, Pow256, FromLe, LeadingOnes, HighBits, HasBit, BitsBelow;
      var first :- Byte();
      ghost var start := pos;
      var value, mask: nat := 0, 0x80;
      NoBytes(data[start..start]);
      for i := 0 to 8
        invariant start <= |data| && pos == start + i <= |data| && i <= LeadingOnes(first)
        invariant i < 8 ==> mask == Pow2(7 - i)
        invariant value == FromLe(data[start..start + i])
      {
        BitTells(first, i);
        if !HasBit(first, mask) {
          value := value + BitsBelow(first, mask) * Pow256(i);
          return Ok(value);
        }
        var b :- Byte();
        FromLeSnoc(data[start..start + i], b);
        assert data[start..start + i + 1] == data[start..start + i] + [b];
        value := value + b as nat * Pow256(i);
        mask := mask / 2;
      }
      return Ok(value);
    }

    static lemma {:induction false} NoBytes(s: seq<byte>)
      requires s == []
      ensures FromLe(s) == 0 && Pow2(7) == 0x80
    {
      Pow2Small();
    }

    /** The masked bit says whether there is another byte; below the last of them is the value's top. */
    static lemma {:induction false} BitTells(first: byte, i: nat)
      requires i < 8 && i <= LeadingOnes(first)
      ensures Pow2(7 - i) > 0 && (HasBit(first, Pow2(7 - i)) <==> i < LeadingOnes(first))
      ensures i == LeadingOnes(first) ==> BitsBelow(first, Pow2(7 - i)) == HighBits(first)
      ensures i < 7 ==> Pow2(7 - i) / 2 == Pow2(6 - i)
      ensures i == 7 && LeadingOnes(first) == 8 ==> HighBits(first) == 0
    {
      hide Pow2, HasBit, LeadingOnes, BitsBelow, HighBits;
      Pow2Small();
      MaskTells(first, i, Pow2(7 - i));
    }

    static lemma {:induction false} MaskTells(first: byte, i: nat, mask: nat)
      requires i < 8 && i <= LeadingOnes(first)
      requires mask == if i < 4 then (if i < 2 then (if i == 0 then 128 else 64) else if i == 2 then 32 else 16)
                       else (if i < 6 then (if i == 4 then 8 else 4) else if i == 6 then 2 else 1)
      ensures HasBit(first, mask) <==> i < LeadingOnes(first)
      ensures i == LeadingOnes(first) ==> BitsBelow(first, mask) == HighBits(first)
      ensures LeadingOnes(first) == 8 ==> HighBits(first) == 0
    {
      hide Pow2;
      Pow2Small();
      if i < 4 {
        assert mask == 128 || mask == 64 || mask == 32 || mask == 16;
      } else {
        assert mask == 8 || mask == 4 || mask == 2 || mask == 1;
      }
    }

    /** `b & (mask - 1)` */
    static function BitsBelow(b: byte, mask: nat): nat
      requires mask > 0
    {
      b as nat % mask
    }

    method Digest() returns (r: Result<Option<nat>>)
      modifies this
      ensures Did(DigestAt(data, old(pos)), r, pos)
    {
      hide ByteAt, U32At, HasBit;
      var all :- Byte();
      if all == 0 {
        var bits :- Byte();
        if !HasBit(bits, 0x80) {
          return Ok(None);
        }
      }
      var v :- U32Le();
      return Ok(Some(v));
    }

    /** `skip_digests` for one stream. */
    method SkipDigest() returns (r: Result<()>)
      modifies this
      ensures Did(SkipDigestAt(data, old(pos)), r, pos)
    {
      hide ByteAt, TakeAt, HasBit;
      var all :- Byte();
      var defined := 1;
      if all == 0 {
        var bits :- Take(1);
        defined := if HasBit(bits[0], 0x80) then 1 else 0;
      }
      var _ :- Take(defined * 4);
      return Ok(());
    }

    method PackInfo(already: Option<nat>) returns (r: Result<(nat, Option<nat>)>)
      modifies this
      ensures Did(PackAt(data, old(pos), already), r, pos)
    {
      hide ByteAt, NumberAt, SkipDigestAt;
      var packPos :- Number();
      var count :- Number();
      if count != 1 {
        return Err(NotOneFile);
      }
      ghost var start := pos;
      var packed := already;
      while true
        invariant PackItemsAt(data, start, already) == PackItemsAt(data, pos, packed)
        decreases |data| - pos
      {
        var id :- Byte();
        if id == K_SIZE {
          var n :- Number();
          packed := Some(n);
        } else if id == K_CRC {
          var _ :- SkipDigest();
        } else if id == K_END {
          break;
        } else {
          return Err(BadArchive);
        }
      }
      return Ok((packPos, packed));
    }

    method CoderItem(c: Coders) returns (r: Result<Coders>)
      modifies this
      ensures Did(CoderAt(data, old(pos), c), r, pos)
    {
      hide ByteAt, TakeAt, NumberAt, HasBit, AesPropsOf, Usize;
      var flags :- Byte();
      if HasBit(flags, 0x80) {
        return Err(BadArchive);
      }
      var id :- Take(flags as nat % 0x10);
      var nIn, nOut := 1, 1;
      if HasBit(flags, 0x10) {
        nIn :- Number();
        nOut :- Number();
      }
      if nIn > MAX_CODERS || nOut > MAX_CODERS {
        return Err(BadArchive);
      }
      var totalIn, totalOut := c.totalIn + nIn, c.totalOut + nOut;
      var props := [];
      if HasBit(flags, 0x20) {
        var claimed :- Number();
        var n :- Address(claimed);
        props :- Take(n);
      }
      if id == AES_CODER_ID {
        if c.aes.Some? {
          return Err(NotEncrypted);
        }
        var aes :- ParseAesProps(props);
        return Ok(Coders(totalIn, totalOut, Some(aes)));
      } else if id != COPY_CODER_ID {
        return Err(Compressed);
      }
      return Ok(Coders(totalIn, totalOut, c.aes));
    }

    /** A short IV is filled up with zeros. */
    method FilledUp(short: seq<byte>) returns (iv: seq<byte>)
      requires |short| <= 16
      ensures iv == short + Zeros(16 - |short|)
    {
      iv := short;
      for i: nat := |short| to 16
        invariant iv == short + Zeros(i - |short|)
      {
        iv := iv + [0];
      }
    }

    /** `parse_aes_props` */
    method ParseAesProps(props: seq<byte>) returns (r: Result<AesProps>)
      ensures r == AesPropsOf(props)
    {
      if |props| == 0 {
        return Err(BadArchive);
      }
      var b0 := props[0] as nat;
      var saltLen: nat, ivLen: nat, rest := 0, 0, props[1..];
      if b0 / 0x40 != 0 {
        if |props| < 2 {
          return Err(BadArchive);
        }
        var b1 := props[1] as nat;
        saltLen, ivLen, rest := b0 / 0x80 + b1 / 0x10, b0 / 0x40 % 2 + b1 % 0x10, props[2..];
      }
      if |rest| != saltLen + ivLen || saltLen > MAX_SALT || ivLen > 16 {
        return Err(BadArchive);
      }
      var iv := FilledUp(rest[saltLen..]);
      ghost var at: nat := |props| - |rest|;
      assert PropLengths(props) == Ok((saltLen, ivLen, at));
      assert rest[..saltLen] == props[at..at + saltLen] && rest[saltLen..] == props[at + saltLen..];
      return Ok(AesProps(b0 % 0x40, rest[..saltLen], iv));
    }

    /** `usize::try_from` */
    static method Address(v: nat) returns (r: Result<nat>)
      ensures r == Usize(v)
    {
      if v >= USIZE_BOUND {
        return Err(Truncated);
      }
      return Ok(v);
    }

    method CoderList() returns (r: Result<Coders>)
      modifies this
      ensures Did(CoderListAt(data, old(pos)), r, pos)
    {
      hide NumberAt, CoderAt;
      var count :- Number();
      if count == 0 || count > MAX_CODERS {
        return Err(Compressed);
      }
      ghost var start := pos;
      var c := Coders(0, 0, None);
      for i: nat := 0 to count
        invariant CodersAt(data, start, count, Coders(0, 0, None)) == CodersAt(data, pos, count - i, c)
      {
        c :- CoderItem(c);
      }
      if c.aes.None? && count != 1 {
        return Err(BadArchive);
      }
      if c.totalOut == 0 || c.totalOut > MAX_CODERS {
        return Err(BadArchive);
      }
      return Ok(c);
    }

    /** The out-streams the bind pairs consume, as the flags of `bound` that are set. */
    method PairList(totalIn: nat, totalOut: nat) returns (r: Result<set<nat>>)
      requires 0 < totalOut
      modifies this
      ensures Did(PairListAt(data, old(pos), totalIn, totalOut), r, pos)
    {
      hide NumberAt;
      ghost var start := pos;
      var bound: set<nat> := {};
      var numPairs: nat := totalOut - 1;
      for i: nat := 0 to numPairs
        invariant PairsAt(data, start, numPairs, {}) == PairsAt(data, pos, numPairs - i, bound)
      {
        var inIndex :- Number();
        var outIndex :- Number();
        if outIndex >= USIZE_BOUND || outIndex >= MAX_CODERS || outIndex in bound {
          return Err(BadArchive);
        }
        bound := bound + {outIndex};
      }
      if totalIn < numPairs {
        return Err(BadArchive);
      }
      if totalIn - numPairs != 1 {
        return Err(NotOneFile);
      }
      return Ok(bound);
    }

    method FolderSize(bound: set<nat>, totalOut: nat) returns (r: Result<nat>)
      modifies this
      ensures Did(FolderSizeAt(data, old(pos), bound, totalOut), r, pos)
    {
      hide ByteAt, NumberAt;
      var id :- Byte();
      if id != K_CODERS_UNPACK_SIZE {
        return Err(BadArchive);
      }
      ghost var start := pos;
      var sizes: seq<nat> := [];
      for i: nat := 0 to totalOut
        invariant SizesAt(data, start, i) == Ok((sizes, pos))
      {
        SizesFail(data, start, i, totalOut);
        var size :- Number();
        sizes := sizes + [size];
      }
      for i: nat := 0 to totalOut
        invariant FirstFree(bound, 0, totalOut) == FirstFree(bound, i, totalOut)
      {
        if i !in bound {
          return Ok(sizes[i]);
        }
      }
      return Err(BadArchive);
    }

    /** A size that cannot be read is an error of the whole list. */
    static lemma {:induction false} SizesFail(d: seq<byte>, start: nat, i: nat, n: nat)
      requires i < n && SizesAt(d, start, i).Ok?
      ensures var size := NumberAt(d, SizesAt(d, start, i).value.1);
              size.Err? ==> SizesAt(d, start, n) == Err(size.error)
    {
      hide NumberAt;
      if NumberAt(d, SizesAt(d, start, i).value.1).Err? {
        SizesStayFailed(d, start, i + 1, n);
      }
    }

    static lemma {:induction false} SizesStayFailed(d: seq<byte>, start: nat, i: nat, n: nat)
      requires i <= n && SizesAt(d, start, i).Err?
      ensures SizesAt(d, start, n) == Err(SizesAt(d, start, i).error)
    {
      if i < n {
        SizesStayFailed(d, start, i, n - 1);
      }
    }

    method FolderHead() returns (r: Result<()>)
      modifies this
      ensures Did(FolderHeadAt(data, old(pos)), r, pos)
    {
      hide ByteAt, NumberAt;
      var id :- Byte();
      if id != K_FOLDER {
        return Err(BadArchive);
      }
      var count :- Number();
      if count != 1 {
        return Err(NotOneFile);
      }
      var external :- Byte();
      if external != 0 {
        return Err(BadArchive);
      }
      return Ok(());
    }

    /** `parse_unpack_info` */
    method UnpackInfo() returns (r: Result<Folder>)
      modifies this
      ensures Did(FolderAt(data, old(pos)), r, pos)
    {
      hide ByteAt, DigestAt, FolderHeadAt, CoderListAt, PairListAt, FolderSizeAt;
      var _ :- FolderHead();
      var c :- CoderList();
      var bound :- PairList(c.totalIn, c.totalOut);
      var len :- FolderSize(bound, c.totalOut);
      ghost var start := pos;
      var crc := None;
      while true
        invariant FolderCrcAt(data, start, None) == FolderCrcAt(data, pos, crc)
        decreases |data| - pos
      {
        var id :- Byte();
        if id == K_CRC {
          crc :- Digest();
        } else if id == K_END {
          break;
        } else {
          return Err(BadArchive);
        }
      }
      return Ok(Folder(len, c.aes, crc));
    }

    /** `parse_substreams_info` */
    method SubstreamsInfo(folder: Option<Folder>) returns (r: Result<Option<nat>>)
      modifies this
      ensures Did(SubstreamsAt(data, old(pos), FolderCrc(folder), None), r, pos)
    {
      hide ByteAt, NumberAt, DigestAt;
      ghost var start := pos;
      var crc := None;
      while true
        invariant SubstreamsAt(data, start, FolderCrc(folder), None) == SubstreamsAt(data, pos, FolderCrc(folder), crc)
        decreases |data| - pos
      {
        var id :- Byte();
        if id == K_NUM_UNPACK_STREAM {
          var n :- Number();
          if n != 1 {
            return Err(NotOneFile);
          }
        } else if id == K_SIZE {
          return Err(NotOneFile);
        } else if id == K_CRC {
          if folder.Some? && folder.value.crc.Some? {
            crc := folder.value.crc;
          } else {
            crc :- Digest();
          }
        } else if id == K_END {
          break;
        } else {
          return Err(BadArchive);
        }
      }
      return Ok(crc);
    }

    /** `parse_streams_info` */
    method StreamsInfo() returns (r: Result<Entry>)
      modifies this
      ensures Did(StreamsInfoAt(data, old(pos)), r, pos)
    {
      hide ByteAt, PackAt, FolderAt, SubstreamsAt, EntryOf;
      ghost var start := pos;
      var st := NoStreams(None);
      while true
        invariant StreamsFrom(data, start, NoStreams(None)) == StreamsFrom(data, pos, st)
        decreases |data| - pos
      {
        var id :- Byte();
        if id == K_PACK_INFO {
          var pack :- PackInfo(st.packedLen);
          st := st.(packPos := pack.0, packedLen := pack.1);
        } else if id == K_UNPACK_INFO {
          var folder :- UnpackInfo();
          st := st.(folder := Some(folder));
        } else if id == K_SUBSTREAMS_INFO {
          var crc :- SubstreamsInfo(st.folder);
          st := st.(subCrc := crc, haveSub := true);
        } else if id == K_END {
          break;
        } else {
          return Err(BadArchive);
        }
      }
      r := Describe(st);
    }

    /** What the streams add up to: an encrypted file, or one stored as it is. */
    static method Describe(st: Streams) returns (r: Result<Entry>)
      ensures r == EntryOf(st)
    {
      if st.folder.None? {
        return Err(BadArchive);
      }
      if st.packedLen.None? {
        return Err(BadArchive);
      }
      var f := st.folder.value;
      if st.packPos >= USIZE_BOUND || BASE + st.packPos >= USIZE_BOUND {
        return Err(Truncated);
      }
      var packedLen :- Address(st.packedLen.value);
      var unpackedLen :- Address(f.unpackedLen);
      var crc := f.crc;
      if st.haveSub {
        crc := st.subCrc;
      }
      if f.aes.Some? {
        var a := f.aes.value;
        return Ok(Aes(Stream(BASE + st.packPos, packedLen, unpackedLen, a.cyclesPower, crc, a.salt, a.iv)));
      }
      if packedLen != unpackedLen {
        return Err(BadArchive);
      }
      return Ok(Clear(Plain(BASE + st.packPos, unpackedLen, crc)));
    }

    /** `check_files_info` */
    method FilesInfo() returns (r: Result<()>)
      modifies this
      ensures Did(FilesAt(data, old(pos)), r, pos)
    {
      hide ByteAt, TakeAt, NumberAt;
      var count :- Number();
      if count != 1 {
        return Err(NotOneFile);
      }
      ghost var start := pos;
      while true
        invariant FilePropertiesAt(data, start) == FilePropertiesAt(data, pos)
        decreases |data| - pos
      {
        var id :- Byte();
        if id == K_END {
          return Ok(());
        }
        var claimed :- Number();
        var size :- Address(claimed);
        var body :- Take(size);
        if id == K_EMPTY_STREAM || id == K_EMPTY_FILE || id == K_ANTI {
          return Err(NotOneFile);
        } else if id == K_NAME && (body == [] || body[0] != 0) {
          return Err(BadArchive);
        }
      }
    }

    /** `parse_header_body` */
    method HeaderBody() returns (r: Result<Entry>)
      modifies this
      ensures Did(HeaderBodyAt(data, old(pos)), r, pos)
    {
      hide ByteAt, StreamsInfoAt, FilesAt;
      var id :- Byte();
      if id != K_MAIN_STREAMS {
        return Err(BadArchive);
      }
      var entry :- StreamsInfo();
      id :- Byte();
      if id == K_FILES_INFO {
        var _ :- FilesInfo();
        id :- Byte();
      }
      if id != K_END {
        return Err(BadArchive);
      }
      return Ok(entry);
    }
  }

  method ReadHeader(header: seq<byte>) returns (r: Result<Found>)
    ensures r == HeaderFound(header)
  {
    hide ByteAt, HeaderBodyAt, StreamsInfoAt;
    var reader := new Reader(header);
    var tag :- reader.Byte();
    if tag == K_HEADER {
      var entry :- reader.HeaderBody();
      match entry
      case Aes(s) => return Ok(File(s));
      case Clear(c) => return Ok(ClearFile(c));
    } else if tag == K_ENCODED_HEADER {
      var entry :- reader.StreamsInfo();
      match entry
      case Aes(s) => return Ok(Header(s));
      case Clear(_) => return Err(BadArchive);
    }
    return Err(BadArchive);
  }

  /** `open` */
  method Open(archive: seq<byte>, crc: Crc) returns (r: Result<Found>)
    ensures r == OpenOf(archive, crc)
  {
    hide HeaderFound, FromLe;
    if |archive| < BASE {
      return Err(Truncated);
    }
    if archive[..6] != SIGNATURE[..6] {
      return Err(NotSevenZip);
    }
    if FromLe(archive[8..12]) != crc(archive[12..32]) {
      return Err(BadChecksum);
    }
    var offset := FromLe(archive[12..20]);
    if offset >= USIZE_BOUND || BASE + offset >= USIZE_BOUND {
      return Err(Truncated);
    }
    var len := FromLe(archive[20..28]);
    if len >= USIZE_BOUND {
      return Err(Truncated);
    }
    var start := BASE + offset;
    var end := start + len;
    if end >= USIZE_BOUND || end > |archive| {
      return Err(Truncated);
    }
    if len == 0 {
      return Err(NotOneFile);
    }
    var header := archive[start..end];
    if crc(header) != FromLe(archive[28..32]) {
      return Err(BadChecksum);
    }
    r := ReadHeader(header);
  }

  /** `file_in`: the file a header that had to be decrypted first describes. */
  method FileIn(header: seq<byte>) returns (r: Result<Stream>)
    ensures r == FileInOf(header)
  {
    hide ByteAt, HeaderBodyAt;
    var reader := new Reader(header);
    var tag :- reader.Byte();
    if tag != K_HEADER {
      return Err(BadArchive);
    }
    var entry :- reader.HeaderBody();
    match entry
    case Aes(s) => return Ok(s);
    case Clear(_) => return Err(NotEncrypted);
  }
}
