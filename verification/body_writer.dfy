/**
 Writing a backup body: a buffer, a position, and the first thing that went wrong. Nothing is
 handed back until every write has succeeded.
 */
module BodyWriting {
  import opened Bytes
  import opened BodyText
  import opened BodyFields
  import opened Wrappers

  const MARKER: Text := Ascii("# Coldcard backup file! DO NOT CHANGE.")
  const EOF_LINE: Text := Ascii("# EOF")
  const IS: Text := [SPACE, EQUALS, SPACE]

  datatype Call =
    | Preamble
    | Section(title: Text)
    | TextField(key: Text, value: Text)
    | HexField(key: Text, bytes: Text)
    | JsonField(key: Text, raw: Text)
    | Setting(name: Text, raw: Text)
    | Eof

  predicate OneLine(t: Text) {
    LF !in t && CR !in t
  }

  /** What is wrong with a call, whatever room there is. */
  function Fault(call: Call, valid: Json): Option<Error> {
    match call
    case Preamble => None
    case Section(title) => if OneLine(title) then None else Some(MalformedLine)
    case TextField(key, _) => if NameOk(key) then None else Some(MalformedLine)
    case HexField(key, _) => if NameOk(key) then None else Some(MalformedLine)
    case JsonField(key, raw) =>
      if !OneLine(raw) then Some(MalformedLine) else if !valid(raw) then Some(NotJson)
      else if NameOk(key) then None else Some(MalformedLine)
    case Setting(name, raw) =>
      if !NameOk(name) || !OneLine(raw) then Some(MalformedLine) else if !valid(raw) then Some(NotJson) else None
    case Eof => None
  }

  /** The line feeds that leave one blank line at the end of the body. */
  function Gap(body: Text): Text {
    if body == [] then []
    else
      var ended := if body[|body| - 1] != LF then [LF] else [];
      var b := body + ended;
      ended + (if |b| >= 2 && b[|b| - 2] != LF then [LF] else [])
  }

  function FieldLine(key: Text, raw: Text): Text {
    key + IS + raw + [LF]
  }

  /** What a call adds to the body. */
  function Added(body: Text, call: Call): Text {
    match call
    case Preamble => MARKER + [LF, LF]
    case Section(title) => Gap(body) + ([HASH, SPACE] + title + [LF])
    case TextField(key, value) => FieldLine(key, Quoted(value))
    case HexField(key, bytes) => FieldLine(key, [QUOTE] + HexOf(bytes) + [QUOTE])
    case JsonField(key, raw) => FieldLine(key, raw)
    case Setting(name, raw) => FieldLine(SETTING_PREFIX + name, raw)
    case Eof => Gap(body) + (EOF_LINE + [LF])
  }

  /** A heading stops at the first line end in it. */
  function TitleEnd(title: Text): (i: nat)
    ensures i <= |title| && (i < |title| ==> title[i] == LF || title[i] == CR)
    ensures OneLine(title[..i])
  {
    if title == [] then 0
    else if title[0] == LF || title[0] == CR then 0
    else
      var i := TitleEnd(title[1..]);
      assert title[..i + 1] == [title[0]] + title[1..][..i];
      1 + i
  }

  /** How a call ends, with room for `room` bytes in all. */
  function Ending(body: Text, call: Call, valid: Json, room: nat): Option<Error> {
    if call.Section? && !OneLine(call.title) then
      if |body| + |Gap(body)| + 2 + TitleEnd(call.title) > room then Some(BufferTooSmall) else Some(MalformedLine)
    else if Fault(call, valid).Some? then Fault(call, valid)
    else if |body| + |Added(body, call)| > room then Some(BufferTooSmall)
    else None
  }

  /** The body after some calls, or the first thing that went wrong. */
  function BodyOf(calls: seq<Call>, valid: Json, room: nat): Result<Text> {
    if calls == [] then Ok([])
    else
      var body :- BodyOf(calls[..|calls| - 1], valid, room);
      var call := calls[|calls| - 1];
      match Ending(body, call, valid, room)
      case Some(e) => Err(e)
      case None => Ok(body + Added(body, call))
  }

  /** An error if there was one before, or one when more was meant than there is room for. */
  function Settled(bad: Option<Error>, meant: nat, room: nat): Option<Error> {
    if bad.Some? then bad else if meant > room then Some(BufferTooSmall) else None
  }

  class BodyWriter {
    const buf: array<byte>
    const valid: Json
    var pos: nat
    var bad: Option<Error>
    ghost var meant: Text

    ghost predicate Valid()
      reads this, buf
    {
      pos <= buf.Length && (bad.None? ==> pos == |meant| && buf[..pos] == meant)
    }

    constructor (buf: array<byte>, valid: Json)
      ensures Valid() && this.buf == buf && this.valid == valid && bad == None && meant == []
    {
      this.buf := buf;
      this.valid := valid;
      pos, bad, meant := 0, None, [];
    }

    /** The first error stays. */
    method Fail(e: Error)
      requires Valid()
      modifies this
      ensures Valid() && meant == old(meant) && bad == if old(bad).Some? then old(bad) else Some(e)
    {
      if bad.None? {
        bad := Some(e);
      }
    }

    method Byte(b: byte)
      requires Valid()
      modifies this, buf
      ensures Valid() && meant == old(meant) + [b] && bad == Settled(old(bad), |meant|, buf.Length)
    {
      ghost var m := meant + [b];
      if pos < buf.Length {
        buf[pos] := b;
        pos := pos + 1;
      } else {
        Fail(BufferTooSmall);
      }
      meant := m;
    }

    method Raw(s: Text)
      requires Valid() && (bad.None? ==> |meant| <= buf.Length)
      modifies this, buf
      ensures Valid() && meant == old(meant) + s && bad == Settled(old(bad), |meant|, buf.Length)
    {
      hide Valid;
      for i := 0 to |s|
        invariant Valid() && meant == old(meant) + s[..i] && bad == Settled(old(bad), |meant|, buf.Length)
      {
        Byte(s[i]);
      }
    }

    method Key(key: Text)
      requires Valid() && (bad.None? ==> |meant| <= buf.Length)
      modifies this, buf
      ensures Valid() && meant == old(meant) + key + IS
      ensures bad == Settled(if old(bad).None? && !NameOk(key) then Some(MalformedLine) else old(bad), |meant|, buf.Length)
    {
      hide Valid, NameOk;
      if !NameOk(key) {
        Fail(MalformedLine);
      }
      Raw(key);
      Raw(IS);
    }

    /** One character of a string, escaped if it has to be. */
    method QuotedByte(b: byte)
      requires Valid() && (bad.None? ==> |meant| <= buf.Length)
      modifies this, buf
      ensures Valid() && meant == old(meant) + EscapeByte(b) && bad == Settled(old(bad), |meant|, buf.Length)
    {
      hide Valid;
      if b == QUOTE {
        Raw([BACKSLASH, QUOTE]);
      } else if b == BACKSLASH {
        Raw([BACKSLASH, BACKSLASH]);
      } else if b == LF {
        Raw([BACKSLASH, 0x6E]);
      } else if b == CR {
        Raw([BACKSLASH, 0x72]);
      } else if b == TAB {
        Raw([BACKSLASH, 0x74]);
      } else if b < 0x20 {
        Raw([BACKSLASH, 0x75, 0x30, 0x30]);
        Byte(HexDigit(b as nat / 16));
        Byte(HexDigit(b as nat % 16));
      } else {
        Byte(b);
      }
    }

    method QuotedText(s: Text)
      requires Valid() && (bad.None? ==> |meant| <= buf.Length)
      modifies this, buf
      ensures Valid() && meant == old(meant) + Quoted(s) && bad == Settled(old(bad), |meant|, buf.Length)
    {
      hide Valid, EscapeByte;
      Raw([QUOTE]);
      for i := 0 to |s|
        invariant Valid() && meant == old(meant) + [QUOTE] + EscapedOf(s[..i]) && bad == Settled(old(bad), |meant|, buf.Length)
      {
        assert s[..i + 1][..i] == s[..i];
        QuotedByte(s[i]);
      }
      assert s[..|s|] == s;
      Raw([QUOTE]);
    }

    method HexText(bytes: Text)
      requires Valid() && (bad.None? ==> |meant| <= buf.Length)
      modifies this, buf
      ensures Valid() && meant == old(meant) + HexOf(bytes) && bad == Settled(old(bad), |meant|, buf.Length)
    {
      hide Valid, HexDigit;
      for i := 0 to |bytes|
        invariant Valid() && meant == old(meant) + HexOf(bytes[..i]) && bad == Settled(old(bad), |meant|, buf.Length)
      {
        assert bytes[..i + 1][..i] == bytes[..i];
        Byte(HexDigit(bytes[i] as nat / 16));
        Byte(HexDigit(bytes[i] as nat % 16));
      }
      assert bytes[..|bytes|] == bytes;
    }

    /** A heading's text, as far as it is one line. */
    method CommentText(s: Text)
      requires Valid() && (bad.None? ==> |meant| <= buf.Length)
      modifies this, buf
      ensures Valid() && meant == old(meant) + s[..TitleEnd(s)]
      ensures bad == if Settled(old(bad), |meant|, buf.Length).None? && TitleEnd(s) < |s| then Some(MalformedLine)
                     else Settled(old(bad), |meant|, buf.Length)
    {
      hide Valid;
      for i := 0 to |s|
        invariant Valid() && i <= TitleEnd(s) && meant == old(meant) + s[..i] && bad == Settled(old(bad), |meant|, buf.Length)
      {
        TitleEndAt(s, i);
        if s[i] == LF || s[i] == CR {
          Fail(MalformedLine);
          return;
        }
        Byte(s[i]);
      }
    }

    static lemma {:induction false} TitleEndAt(s: Text, i: nat)
      requires i < |s| && i <= TitleEnd(s)
      ensures s[i] == LF || s[i] == CR <==> TitleEnd(s) == i
    {
      if i > 0 {
        TitleEndAt(s[1..], i - 1);
      }
    }

    method EnsureBlankLine()
      requires Valid() && (bad.None? ==> |meant| <= buf.Length)
      modifies this, buf
      ensures Valid() && (old(bad).None? ==> bad == Settled(None, |old(meant)| + |Gap(old(meant))|, buf.Length))
      ensures bad.None? ==> old(bad).None? && meant == old(meant) + Gap(old(meant))
      ensures old(bad).Some? ==> bad == old(bad)
    {
      if pos == 0 {
        return;
      }
      if buf[pos - 1] != LF {
        Raw([LF]);
      }
      if pos >= 2 && buf[pos - 2] != LF {
        Raw([LF]);
      }
    }

    method PutPreamble()
      requires Ready()
      modifies this, buf
      ensures Ready() && Called(old(bad), old(meant), Preamble, bad, meant, valid, buf.Length)
    {
      hide Valid, MARKER;
      Raw(MARKER);
      Raw([LF, LF]);
    }

    method PutSection(title: Text)
      requires Ready()
      modifies this, buf
      ensures Ready() && Called(old(bad), old(meant), Section(title), bad, meant, valid, buf.Length)
    {
      hide Valid, Gap;
      EnsureBlankLine();
      Raw([HASH, SPACE]);
      CommentText(title);
      Raw([LF]);
      WholeTitle(title);
    }

    static lemma {:induction false} WholeTitle(title: Text)
      ensures OneLine(title) <==> TitleEnd(title) == |title|
      ensures OneLine(title) ==> title[..TitleEnd(title)] == title
    {
      assert title[..|title|] == title;
    }

    method PutText(key: Text, value: Text)
      requires Ready()
      modifies this, buf
      ensures Ready() && Called(old(bad), old(meant), TextField(key, value), bad, meant, valid, buf.Length)
    {
      hide Valid, NameOk, Quoted;
      Key(key);
      QuotedText(value);
      Raw([LF]);
    }

    method PutHex(key: Text, bytes: Text)
      requires Ready()
      modifies this, buf
      ensures Ready() && Called(old(bad), old(meant), HexField(key, bytes), bad, meant, valid, buf.Length)
    {
      hide Valid, NameOk, HexOf;
      Key(key);
      Raw([QUOTE]);
      HexText(bytes);
      Raw([QUOTE, LF]);
    }

    method PutJson(key: Text, raw: Text)
      requires Ready()
      modifies this, buf
      ensures Ready() && Called(old(bad), old(meant), JsonField(key, raw), bad, meant, valid, buf.Length)
    {
      hide Valid, NameOk;
      if LF in raw || CR in raw {
        Fail(MalformedLine);
        return;
      }
      if !valid(raw) {
        Fail(NotJson);
        return;
      }
      Key(key);
      Raw(raw);
      Raw([LF]);
    }

    method PutSetting(name: Text, raw: Text)
      requires Ready()
      modifies this, buf
      ensures Ready() && Called(old(bad), old(meant), Setting(name, raw), bad, meant, valid, buf.Length)
    {
      hide Valid, NameOk, SETTING_PREFIX;
      if !NameOk(name) {
        Fail(MalformedLine);
        return;
      }
      if LF in raw || CR in raw {
        Fail(MalformedLine);
        return;
      }
      if !valid(raw) {
        Fail(NotJson);
        return;
      }
      Raw(SETTING_PREFIX);
      Raw(name);
      Raw(IS);
      Raw(raw);
      Raw([LF]);
    }

    method PutEof()
      requires Ready()
      modifies this, buf
      ensures Ready() && Called(old(bad), old(meant), Eof, bad, meant, valid, buf.Length)
    {
      hide Valid, Gap, EOF_LINE;
      EnsureBlankLine();
      Raw(EOF_LINE);
      Raw([LF]);
    }

    method Finish() returns (r: Result<Text>)
      requires Ready()
      ensures r == if bad.Some? then Err(bad.value) else Ok(meant)
    {
      if bad.Some? {
        return Err(bad.value);
      }
      return Ok(buf[..pos]);
    }

    ghost predicate Ready()
      reads this, buf
    {
      Valid() && (bad.None? ==> |meant| <= buf.Length)
    }

    method Put(call: Call)
      requires Ready()
      modifies this, buf
      ensures Ready() && Called(old(bad), old(meant), call, bad, meant, valid, buf.Length)
    {
      hide Ready, Called;
      match call
      case Preamble => PutPreamble();
      case Section(title) => PutSection(title);
      case TextField(key, value) => PutText(key, value);
      case HexField(key, bytes) => PutHex(key, bytes);
      case JsonField(key, raw) => PutJson(key, raw);
      case Setting(name, raw) => PutSetting(name, raw);
      case Eof => PutEof();
    }
  }

  /** How a call leaves the writer: as it was when something is already wrong, else as `Ending` says. */
  ghost predicate Called(was: Option<Error>, body: Text, call: Call, bad: Option<Error>, meant: Text, valid: Json, room: nat) {
    if was.Some? then bad == was
    else bad == Ending(body, call, valid, room) && (bad.None? ==> meant == body + Added(body, call))
  }

  /** A whole body, written call by call into a buffer. */
  method WriteBody(calls: seq<Call>, buf: array<byte>, valid: Json) returns (r: Result<Text>)
    modifies buf
    ensures r == BodyOf(calls, valid, buf.Length)
  {
    hide Ending, Added, BodyWriter.Valid;
    var w := new BodyWriter(buf, valid);
    for i := 0 to |calls|
      invariant w.Ready() && w.buf == buf && w.valid == valid && fresh(w)
      invariant BodyOf(calls[..i], valid, buf.Length) == if w.bad.Some? then Err(w.bad.value) else Ok(w.meant)
    {
      assert calls[..i + 1][..i] == calls[..i];
      w.Put(calls[i]);
    }
    assert calls[..|calls|] == calls;
    r := w.Finish();
  }
}
