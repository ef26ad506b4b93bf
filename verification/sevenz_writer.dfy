/**
 The header writer as it runs: a cursor into the caller's buffer that records overflow, and the
 header laid out as a straight run of writes.
 */
module SevenZipWriter {
  import opened Bytes
  import opened SevenZipNumbers
  import opened SevenZipFormat
  import opened SevenZipLayout
  import opened Wrappers

  class Writer {
    const buf: array<byte>
    const base: nat
    var pos: nat
    var overflow: bool
    ghost var meant: seq<byte>

    /** What is in the buffer is what was meant, as far as it goes; overflow says whether that is all. */
    ghost predicate Valid()
      reads this, buf
    {
      && base + pos <= buf.Length
      && pos <= |meant| && buf[base..base + pos] == meant[..pos]
      && (overflow ==> base + pos == buf.Length)
      && (overflow <==> pos < |meant|)
    }

    constructor (buf: array<byte>, base: nat)
      requires base <= buf.Length
      ensures Valid() && this.buf == buf && this.base == base && meant == []
    {
      this.buf := buf;
      this.base := base;
      pos, overflow, meant := 0, false, [];
    }

    lemma BaseInBuffer()
      requires Valid()
      ensures base <= buf.Length
    {
    }

    method Put(b: byte)
      requires Valid()
      modifies this, buf
      ensures Valid() && meant == old(meant) + [b]
      ensures buf[..base] == old(buf[..base])
    {
      if base + pos < buf.Length {
        buf[base + pos] := b;
        pos := pos + 1;
      } else {
        overflow := true;
      }
      meant := meant + [b];
    }

    /** One byte, in front of what is still to come. */
    method Byte(b: byte, ghost rest: seq<byte>)
      requires Valid()
      modifies this, buf
      ensures Valid() && meant + rest == old(meant) + ([b] + rest)
      ensures buf[..base] == old(buf[..base])
    {
      Put(b);
    }

    method Append(s: seq<byte>)
      requires Valid()
      modifies this, buf
      ensures Valid() && meant == old(meant) + s
      ensures buf[..base] == old(buf[..base])
    {
      for i := 0 to |s|
        invariant Valid() && meant == old(meant) + s[..i] && buf[..base] == old(buf[..base])
      {
        Put(s[i]);
      }
    }

    method Bytes(s: seq<byte>, ghost rest: seq<byte>)
      requires Valid()
      modifies this, buf
      ensures Valid() && meant + rest == old(meant) + (s + rest)
      ensures buf[..base] == old(buf[..base])
    {
      Append(s);
    }

    method Number(v: nat, ghost rest: seq<byte>)
      requires Valid() && v < U64_BOUND
      modifies this, buf
      ensures Valid() && meant + rest == old(meant) + (NumberBytes(v) + rest)
      ensures buf[..base] == old(buf[..base])
    {
      var s := WriteNumber(v);
      Bytes(s, rest);
    }

    method Finish() returns (r: Result<nat>)
      requires Valid()
      ensures r == if base + |meant| <= buf.Length then Ok(|meant|) else Err(BufferTooSmall)
      ensures r.Ok? ==> buf[base..base + r.value] == meant
    {
      if overflow {
        return Err(BufferTooSmall);
      }
      return Ok(pos);
    }

    method Pack(packedLen: nat, ghost rest: seq<byte>)
      requires Valid() && packedLen < U64_BOUND
      modifies this, buf
      ensures Valid() && meant + rest == old(meant) + PackBody(0, packedLen, rest)
      ensures buf[..base] == old(buf[..base])
    {
      hide Valid, NumberBytes;
      Number(0, NumberBytes(1) + ([K_SIZE] + (NumberBytes(packedLen) + ([K_END] + rest))));
      Number(1, [K_SIZE] + (NumberBytes(packedLen) + ([K_END] + rest)));
      Byte(K_SIZE, NumberBytes(packedLen) + ([K_END] + rest));
      Number(packedLen, [K_END] + rest);
      Byte(K_END, rest);
    }

    method Properties(c: Coder, ghost rest: seq<byte>)
      requires Valid() && c.AesCoder? && c.Ok()
      modifies this, buf
      ensures Valid() && meant + rest == old(meant) + (PropBytes(c) + rest)
      ensures buf[..base] == old(buf[..base])
    {
      hide Valid;
      var first := c.cyclesPower + (if c.salt == [] then 0 else 0x80) + 0x40;
      var second := (if c.salt == [] then 0 else |c.salt| - 1) * 0x10 + (|c.iv| - 1);
      assert PropBytes(c) + rest == [first as byte] + ([second as byte] + (c.salt + (c.iv + rest)));
      Byte(first as byte, [second as byte] + (c.salt + (c.iv + rest)));
      Byte(second as byte, c.salt + (c.iv + rest));
      Bytes(c.salt, c.iv + rest);
      Bytes(c.iv, rest);
    }

    method Copy(ghost rest: seq<byte>)
      requires Valid()
      modifies this, buf
      ensures Valid() && meant + rest == old(meant) + ([0x01] + (COPY_CODER_ID + rest))
      ensures buf[..base] == old(buf[..base])
    {
      hide Valid;
      Byte(|COPY_CODER_ID| as byte, COPY_CODER_ID + rest);
      Bytes(COPY_CODER_ID, rest);
    }

    method Coders(c: Coder, ghost rest: seq<byte>)
      requires Valid() && c.Ok()
      modifies this, buf
      ensures Valid() && meant + rest == old(meant) + CoderBytes(c, rest)
      ensures buf[..base] == old(buf[..base])
    {
      hide Valid, NumberBytes, PropBytes;
      ghost var tail := [0x01] + (COPY_CODER_ID + rest);
      if c.AesCoder? {
        ghost var props := NumberBytes(2 + |c.salt| + 16) + (PropBytes(c) + tail);
        Number(2, [0x24] + (AES_CODER_ID + props));
        Byte(0x20 + |AES_CODER_ID| as byte, AES_CODER_ID + props);
        Bytes(AES_CODER_ID, props);
        Number(2 + |c.salt| + |c.iv|, PropBytes(c) + tail);
        Properties(c, tail);
      } else {
        Number(1, tail);
      }
      Copy(rest);
    }

    method Folder(c: Coder, len: nat, ghost rest: seq<byte>)
      requires Valid() && c.Ok() && len < U64_BOUND
      modifies this, buf
      ensures Valid() && meant + rest == old(meant) + FolderBody(c, len, rest)
      ensures buf[..base] == old(buf[..base])
    {
      hide Valid, NumberBytes, CoderBytes;
      ghost var sizes := SizeBytes(c, len, [K_END] + rest);
      ghost var coders := CoderBytes(c, PairBytes(c, sizes));
      Byte(K_FOLDER, NumberBytes(1) + ([0] + coders));
      Number(1, [0] + coders);
      Byte(0, coders);
      Coders(c, PairBytes(c, sizes));
      if c.AesCoder? {
        Number(1, NumberBytes(0) + sizes);
        Number(0, sizes);
        Byte(K_CODERS_UNPACK_SIZE, NumberBytes(len) + (NumberBytes(len) + ([K_END] + rest)));
        Number(len, NumberBytes(len) + ([K_END] + rest));
      } else {
        Byte(K_CODERS_UNPACK_SIZE, NumberBytes(len) + ([K_END] + rest));
      }
      Number(len, [K_END] + rest);
      Byte(K_END, rest);
    }

    method Substreams(crc: nat, ghost rest: seq<byte>)
      requires Valid() && crc < U32_BOUND
      modifies this, buf
      ensures Valid() && meant + rest == old(meant) + SubstreamsBody(crc, rest)
      ensures buf[..base] == old(buf[..base])
    {
      hide Valid, ToLe;
      Byte(K_CRC, [1] + (ToLe(crc, 4) + ([K_END] + rest)));
      Byte(1, ToLe(crc, 4) + ([K_END] + rest));
      Bytes(ToLe(crc, 4), [K_END] + rest);
      Byte(K_END, rest);
    }

    /** The units of one character. */
    method Char(units: seq<nat>)
      requires Valid()
      modifies this, buf
      ensures Valid() && meant == old(meant) + UnitBytes(units)
      ensures buf[..base] == old(buf[..base])
    {
      hide Valid, ToLe;
      BaseInBuffer();
      for j := 0 to |units|
        invariant Valid() && meant == old(meant) + UnitBytes(units[..j]) && buf[..base] == old(buf[..base])
      {
        assert units[..j + 1][..j] == units[..j];
        Append(ToLe(units[j], 2));
      }
      assert units[..|units|] == units;
    }

    static lemma {:induction false} NoUnits(name: seq<Scalar>)
      ensures UnitBytes(Units(name[..0])) == []
    {
      assert name[..0] == [];
    }

    static lemma {:induction false} UnitsOfMore(name: seq<Scalar>, i: nat)
      requires i < |name|
      ensures UnitBytes(Units(name[..i + 1])) == UnitBytes(Units(name[..i])) + UnitBytes(Utf16(name[i]))
    {
      hide UnitBytes, Utf16;
      assert name[..i + 1][..i] == name[..i];
      UnitBytesConcat(Units(name[..i]), Utf16(name[i]));
    }

    method Chars(name: seq<Scalar>)
      requires Valid()
      modifies this, buf
      ensures Valid() && meant == old(meant) + UnitBytes(Units(name))
      ensures buf[..base] == old(buf[..base])
    {
      hide Valid, Units, UnitBytes, Utf16;
      BaseInBuffer();
      NoUnits(name);
      for i := 0 to |name|
        invariant Valid() && meant == old(meant) + UnitBytes(Units(name[..i])) && buf[..base] == old(buf[..base])
      {
        UnitsOfMore(name, i);
        Char(Utf16(name[i]));
      }
      assert name[..|name|] == name;
    }

    method Name(name: seq<Scalar>, ghost rest: seq<byte>)
      requires Valid()
      modifies this, buf
      ensures Valid() && meant + rest == old(meant) + (NameBody(name) + rest)
      ensures buf[..base] == old(buf[..base])
    {
      hide Valid, UnitBytes, Units;
      Append([0]);
      Chars(name);
      Append([0, 0]);
    }

    method Files(name: seq<Scalar>, ghost rest: seq<byte>)
      requires Valid() && 1 + 2 * (|Units(name)| + 1) < U64_BOUND
      modifies this, buf
      ensures Valid() && meant + rest == old(meant) + FilesBody(name, rest)
      ensures buf[..base] == old(buf[..base])
    {
      hide Valid, NumberBytes, Units, NameBody;
      var size := 1 + 2 * (|Units(name)| + 1);
      ghost var body := NameBody(name) + ([K_END] + rest);
      Number(1, [K_NAME] + (NumberBytes(size) + body));
      Byte(K_NAME, NumberBytes(size) + body);
      Number(size, body);
      Name(name, [K_END] + rest);
      Byte(K_END, rest);
    }

    /** `write_header` */
    method WriteHeader(name: seq<Scalar>, len: nat, packedLen: nat, crc: nat, c: Coder)
      requires Valid() && meant == [] && c.Ok() && len < U64_BOUND && packedLen < U64_BOUND && crc < U32_BOUND
      requires 1 + 2 * (|Units(name)| + 1) < U64_BOUND
      modifies this, buf
      ensures Valid() && meant == HeaderBytes(name, len, packedLen, crc, c)
      ensures buf[..base] == old(buf[..base])
    {
      hide Valid, PackBody, FolderBody, SubstreamsBody, FilesBody, Units;
      ghost var files := [K_FILES_INFO] + FilesBody(name, [K_END]);
      ghost var subs := [K_SUBSTREAMS_INFO] + SubstreamsBody(crc, [K_END] + files);
      ghost var folder := [K_UNPACK_INFO] + FolderBody(c, len, subs);
      ghost var streams := StreamsBody(0, c, len, packedLen, crc, files);
      Byte(K_HEADER, [K_MAIN_STREAMS] + streams);
      Byte(K_MAIN_STREAMS, streams);
      Byte(K_PACK_INFO, PackBody(0, packedLen, folder));
      Pack(packedLen, folder);
      Byte(K_UNPACK_INFO, FolderBody(c, len, subs));
      Folder(c, len, subs);
      Byte(K_SUBSTREAMS_INFO, SubstreamsBody(crc, [K_END] + files));
      Substreams(crc, [K_END] + files);
      Byte(K_END, files);
      Byte(K_FILES_INFO, FilesBody(name, [K_END]));
      Files(name, [K_END]);
      assert [K_END] + [] == [K_END];
      Byte(K_END, []);
      assert meant + [] == meant;
    }
  }
}
