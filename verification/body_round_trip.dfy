/**
 A body that was written is read back field for field.
 */
module BodyRoundTrip {
  import opened Bytes
  import opened BodyText
  import opened BodyFields
  import opened BodyWriting
  import opened Wrappers

  /** JSON does not mind spaces and tabs around a value, and a value is more than those. */
  ghost predicate JsonLike(valid: Json) {
    forall t: Text :: valid(t) ==> Trim(t, Blank) != [] && valid(Trim(t, Blank))
  }

  /** What the writer puts down as a JSON string is one. */
  ghost predicate Strings(calls: seq<Call>, valid: Json) {
    forall i :: 0 <= i < |calls| ==> IsString(calls[i], valid)
  }

  predicate IsString(call: Call, valid: Json) {
    match call
    case TextField(_, value) => valid(Quoted(value))
    case HexField(_, bytes) => valid([QUOTE] + HexOf(bytes) + [QUOTE])
    case _ => true
  }

  /** There are such validators, whatever is written: one that takes all but blanks, for one. */
  lemma {:induction false} SomeValidator(calls: seq<Call>)
    ensures JsonLike(NotBlank) && Strings(calls, NotBlank)
  {
    hide Trim, Quoted, HexOf, NotBlank;
    forall t: Text | NotBlank(t) ensures Trim(t, Blank) != [] && NotBlank(Trim(t, Blank)) {
      Retrimmed(t);
    }
    forall i | 0 <= i < |calls| ensures IsString(calls[i], NotBlank) {
      match calls[i]
      case TextField(_, value) => InQuotes(Quoted(value));
      case HexField(_, bytes) => InQuotes([QUOTE] + HexOf(bytes) + [QUOTE]);
      case _ =>
    }
  }

  predicate NotBlank(t: Text) {
    Trim(t, Blank) != []
  }

  lemma {:induction false} Retrimmed(t: Text)
    requires NotBlank(t)
    ensures Trim(t, Blank) != [] && NotBlank(Trim(t, Blank))
  {
    hide Trim;
    var l, r := TrimSplits(t, Blank);
    var m := Trim(t, Blank);
    TrimMiddle([], m, [], Blank);
    assert [] + m + [] == m;
  }

  lemma {:induction false} InQuotes(t: Text)
    requires t != [] && t[0] == QUOTE && t[|t| - 1] == QUOTE
    ensures NotBlank(t)
  {
    hide Trim;
    TrimMiddle([], t, [], Blank);
    assert [] + t + [] == t;
  }

  /** The field a call writes, its value without the space around it. */
  function FieldOf(call: Call): Option<Field> {
    match call
    case TextField(key, value) => Some(Field(key, Quoted(value)))
    case HexField(key, bytes) => Some(Field(key, [QUOTE] + HexOf(bytes) + [QUOTE]))
    case JsonField(key, raw) => Some(Field(key, Trim(raw, Blank)))
    case Setting(name, raw) => Some(Field(SETTING_PREFIX + name, Trim(raw, Blank)))
    case _ => None
  }

  /** The fields some calls write, in order. */
  function Expected(calls: seq<Call>): seq<Result<Field>> {
    if calls == [] then []
    else Expected(calls[..|calls| - 1]) + Emitted(calls[|calls| - 1])
  }

  function Emitted(call: Call): seq<Result<Field>> {
    match FieldOf(call)
    case Some(f) => [Ok(f)]
    case None => []
  }

  // ---------------------------------------------------------------------------
  // Trimming what was written
  // ---------------------------------------------------------------------------

  predicate AllDropped(t: Text, drop: byte -> bool) {
    forall i :: 0 <= i < |t| ==> drop(t[i])
  }

  lemma {:induction false} TrimLeftSplits(t: Text, drop: byte -> bool) returns (l: Text)
    ensures t == l + TrimLeft(t, drop) && AllDropped(l, drop)
  {
    if t == [] || !drop(t[0]) {
      l := [];
    } else {
      var k := TrimLeftSplits(t[1..], drop);
      l := [t[0]] + k;
    }
  }

  lemma {:induction false} TrimRightSplits(t: Text, drop: byte -> bool) returns (r: Text)
    ensures t == TrimRight(t, drop) + r && AllDropped(r, drop)
  {
    if t == [] || !drop(t[|t| - 1]) {
      r := [];
    } else {
      var k := TrimRightSplits(t[..|t| - 1], drop);
      r := k + [t[|t| - 1]];
    }
  }

  lemma {:induction false} TrimLeftOver(l: Text, m: Text, drop: byte -> bool)
    requires AllDropped(l, drop) && m != [] && !drop(m[0])
    ensures TrimLeft(l + m, drop) == m
  {
    if l == [] {
      assert l + m == m;
    } else {
      assert (l + m)[1..] == l[1..] + m;
      TrimLeftOver(l[1..], m, drop);
    }
  }

  lemma {:induction false} TrimRightOfDropped(r: Text, drop: byte -> bool)
    requires AllDropped(r, drop)
    ensures TrimRight(r, drop) == []
  {
    if r != [] {
      TrimRightOfDropped(r[..|r| - 1], drop);
    }
  }

  lemma {:induction false} TrimRightOver(m: Text, r: Text, drop: byte -> bool)
    requires AllDropped(r, drop) && m != [] && !drop(m[|m| - 1])
    ensures TrimRight(m + r, drop) == m
  {
    TrimRightAfter(m, r, drop);
    TrimRightOfDropped(r, drop);
    assert m + [] == m;
  }

  /** A value with blanks around it. */
  lemma {:induction false} TrimMiddle(l: Text, m: Text, r: Text, drop: byte -> bool)
    requires AllDropped(l, drop) && AllDropped(r, drop) && m != [] && !drop(m[0]) && !drop(m[|m| - 1])
    ensures Trim(l + m + r, drop) == m
  {
    hide TrimLeft, TrimRight;
    assert l + m + r == l + (m + r);
    TrimLeftOver(l, m + r, drop);
    TrimRightOver(m, r, drop);
  }

  /** A trimmed value and the blanks there were around it. */
  lemma {:induction false} TrimSplits(t: Text, drop: byte -> bool) returns (l: Text, r: Text)
    requires Trim(t, drop) != []
    ensures t == l + Trim(t, drop) + r && AllDropped(l, drop) && AllDropped(r, drop)
    ensures !drop(Trim(t, drop)[0]) && !drop(Trim(t, drop)[|Trim(t, drop)| - 1])
  {
    hide TrimLeft, TrimRight;
    l := TrimLeftSplits(t, drop);
    r := TrimRightSplits(TrimLeft(t, drop), drop);
    assert Trim(t, drop)[0] == TrimLeft(t, drop)[0];
  }

  lemma BlankIsLineBlank(t: Text)
    requires AllDropped(t, Blank)
    ensures AllDropped(t, LineBlank)
  {
  }

  /** A field's line, trimmed: the value's own spaces are gone at the end and kept at the front. */
  lemma {:induction false} FieldLineTrims(key: Text, l: Text, m: Text, r: Text)
    requires NameOk(key) && AllDropped(l, Blank) && AllDropped(r, Blank)
    requires m != [] && !LineBlank(m[0]) && !LineBlank(m[|m| - 1])
    ensures Trim(key + IS + (l + m + r), LineBlank) == key + IS + l + m
  {
    hide TrimLeft, TrimRight, NameByte;
    var line := key + IS + (l + m + r);
    var front := key + IS + l + m;
    assert line == front + r;
    NameIsInk(key);
    assert line[0] == key[0];
    BlankIsLineBlank(r);
    TrimLeftKeeps(line, LineBlank);
    TrimRightOver(front, r, LineBlank);
  }

  lemma NameIsInk(key: Text)
    requires NameOk(key)
    ensures !LineBlank(key[0]) && !LineBlank(key[|key| - 1]) && key[0] != HASH && EQUALS !in key && LF !in key
  {
    assert NameByte(key[0]) && NameByte(key[|key| - 1]);
  }

  lemma {:induction false} FieldLineSplits(key: Text, l: Text, m: Text, valid: Json)
    requires NameOk(key) && AllDropped(l, Blank) && m != [] && !Blank(m[0]) && !Blank(m[|m| - 1]) && valid(m)
    ensures SplitField(key + IS + l + m, valid) == Ok(Field(key, m))
  {
    hide TrimLeft, TrimRight, IndexOf;
    var line := key + IS + l + m;
    var eq := |key| + 1;
    NameIsInk(key);
    forall j | 0 <= j < eq ensures line[j] != EQUALS {
      if j < |key| {
        assert line[j] == key[j];
      }
    }
    IndexOfIs(line, EQUALS, eq);
    assert line[..eq] == key + [SPACE];
    assert line[eq + 1..] == [SPACE] + l + m;
    TrimMiddle([], key, [SPACE], Blank);
    assert [] + key + [SPACE] == key + [SPACE];
    TrimMiddle([SPACE] + l, m, [], Blank);
    assert [SPACE] + l + m + [] == [SPACE] + l + m;
  }

  /** One written field is read as that field. */
  lemma {:induction false} FieldLineReads(key: Text, raw: Text, valid: Json)
    requires NameOk(key) && OneLine(raw) && Trim(raw, Blank) != [] && valid(Trim(raw, Blank))
    ensures FieldsOf(FieldLine(key, raw), valid) == [Ok(Field(key, Trim(raw, Blank)))]
  {
    hide Trim, FieldsOf, SplitField;
    var m := Trim(raw, Blank);
    var l, r := TrimSplits(raw, Blank);
    var line := key + IS + raw;
    NameIsInk(key);
    assert LF !in line && FieldLine(key, raw) == line + [LF];
    FieldsOfLine(line, valid);
    MiddleIn(l, m, r);
    assert OneLine(m);
    FieldLineTrims(key, l, m, r);
    assert (key + IS + l + m)[0] == key[0];
    FieldLineSplits(key, l, m, valid);
  }

  lemma MiddleIn(l: Text, m: Text, r: Text)
    ensures forall b: byte :: b in m ==> b in l + m + r
  {
  }

  lemma CommentReads(comment: Text, valid: Json)
    requires comment != [] && comment[0] == HASH && LF !in comment
    ensures FieldsOf(comment + [LF], valid) == []
  {
    hide FieldsOf, SplitField, TrimRight;
    FieldsOfLine(comment, valid);
    TrimLeftKeeps(comment, LineBlank);
    TrimRightKeepsFirst(comment, LineBlank);
  }

  lemma {:induction false} TrimRightKeepsFirst(t: Text, drop: byte -> bool)
    requires t != [] && !drop(t[0])
    ensures TrimRight(t, drop) != [] && TrimRight(t, drop)[0] == t[0]
  {
    if drop(t[|t| - 1]) {
      TrimRightKeepsFirst(t[..|t| - 1], drop);
    }
  }

  lemma {:induction false} BlankLineReads(valid: Json)
    ensures FieldsOf([LF], valid) == []
  {
    hide SplitField;
    FieldsOfLine([], valid);
    assert [] + [LF] == [LF];
  }

  // ---------------------------------------------------------------------------
  // What each call adds
  // ---------------------------------------------------------------------------

  /** A heading and the blank line above it are skipped. */
  lemma {:induction false} HeadingReads(gap: Text, comment: Text, valid: Json)
    requires gap == [] || gap == [LF] || gap == [LF, LF]
    requires comment != [] && comment[0] == HASH && LF !in comment
    ensures FieldsOf(gap + (comment + [LF]), valid) == []
  {
    hide FieldsOf;
    CommentReads(comment, valid);
    BlankLineReads(valid);
    var line := comment + [LF];
    if gap == [] {
      assert gap + line == line;
    } else {
      FieldsConcat([LF], line, valid);
      if gap == [LF, LF] {
        FieldsConcat([LF], [LF] + line, valid);
        assert gap + line == [LF] + ([LF] + line);
      }
    }
  }

  lemma GapIs(body: Text)
    ensures Gap(body) == [] || Gap(body) == [LF] || Gap(body) == [LF, LF]
  {
  }

  lemma {:induction false} LiteralsAreComments()
    ensures MARKER != [] && MARKER[0] == HASH && LF !in MARKER
    ensures EOF_LINE != [] && EOF_LINE[0] == HASH && LF !in EOF_LINE
  {
    AsciiLine("# Coldcard backup file! DO NOT CHANGE.");
    AsciiLine("# EOF");
  }

  lemma AsciiLine(s: string)
    requires forall i :: 0 <= i < |s| ==> 0x20 <= s[i] as int < 0x7F
    ensures LF !in Ascii(s) && (s != "" ==> Ascii(s)[0] as int == s[0] as int)
  {
    hide Ascii;
    forall i | 0 <= i < |s| ensures Ascii(s)[i] as int == s[i] as int {
      assert 0x20 <= s[i] as int < 0x7F;
    }
  }

  lemma {:induction false} PrefixIsName(name: Text)
    requires NameOk(name)
    ensures NameOk(SETTING_PREFIX + name)
  {
    AsciiName("setting.");
    var key := SETTING_PREFIX + name;
    forall i | 0 <= i < |key| ensures NameByte(key[i]) {
      if i < |SETTING_PREFIX| {
        assert key[i] == SETTING_PREFIX[i];
      } else {
        assert key[i] == name[i - |SETTING_PREFIX|];
      }
    }
  }

  lemma AsciiName(s: string)
    requires forall i :: 0 <= i < |s| ==> 'a' <= s[i] <= 'z' || s[i] == '.'
    ensures forall i :: 0 <= i < |s| ==> NameByte(Ascii(s)[i])
  {
  }

  lemma {:induction false} QuotedTrims(t: Text)
    requires |t| >= 2 && t[0] == QUOTE && t[|t| - 1] == QUOTE
    ensures Trim(t, Blank) == t
  {
    TrimMiddle([], t, [], Blank);
    assert [] + t + [] == t;
  }

  lemma QuotedIsOneLine(t: Text)
    requires forall i :: 0 <= i < |t| ==> t[i] >= 0x20
    ensures OneLine(t)
  {
  }

  lemma {:induction false} HexIsInk(bytes: Text)
    ensures forall i :: 0 <= i < |HexOf(bytes)| ==> HexOf(bytes)[i] >= 0x20
  {
    if bytes != [] {
      HexIsInk(bytes[..|bytes| - 1]);
      HexDigitValue(bytes[|bytes| - 1] as nat / 16);
      HexDigitValue(bytes[|bytes| - 1] as nat % 16);
    }
  }

  /** A call adds whole lines, and they read as the field it was for. */
  lemma {:induction false} AddedReads(body: Text, call: Call, valid: Json)
    requires Fault(call, valid).None? && JsonLike(valid) && IsString(call, valid)
    ensures FieldsOf(Added(body, call), valid) == Emitted(call)
    ensures Complete(Added(body, call)) && Added(body, call) != []
  {
    hide FieldsOf, Trim, NameOk, Gap, MARKER, EOF_LINE, SETTING_PREFIX, HexOf, EscapedOf;
    match call
    case Preamble =>
      LiteralsAreComments();
      HeadingReads([], MARKER, valid);
      assert [] + (MARKER + [LF]) == MARKER + [LF];
      BlankLineReads(valid);
      FieldsConcat(MARKER + [LF], [LF], valid);
      assert MARKER + [LF, LF] == MARKER + [LF] + [LF];
    case Section(title) =>
      GapIs(body);
      HeadingReads(Gap(body), [HASH, SPACE] + title, valid);
    case TextField(key, value) =>
      QuotedTrims(Quoted(value));
      QuotedIsOneLine(Quoted(value));
      FieldLineReads(key, Quoted(value), valid);
    case HexField(key, bytes) =>
      HexIsInk(bytes);
      QuotedTrims([QUOTE] + HexOf(bytes) + [QUOTE]);
      QuotedIsOneLine([QUOTE] + HexOf(bytes) + [QUOTE]);
      FieldLineReads(key, [QUOTE] + HexOf(bytes) + [QUOTE], valid);
    case JsonField(key, raw) =>
      FieldLineReads(key, raw, valid);
    case Setting(name, raw) =>
      PrefixIsName(name);
      FieldLineReads(SETTING_PREFIX + name, raw, valid);
    case Eof =>
      LiteralsAreComments();
      GapIs(body);
      HeadingReads(Gap(body), EOF_LINE, valid);
  }

  lemma WrittenBefore(calls: seq<Call>, valid: Json, room: nat)
    requires calls != [] && Strings(calls, valid) && BodyOf(calls, valid, room).Ok?
    ensures var before, call := calls[..|calls| - 1], calls[|calls| - 1];
            && Strings(before, valid) && IsString(call, valid) && Fault(call, valid).None?
            && BodyOf(before, valid, room).Ok?
            && BodyOf(calls, valid, room).value == BodyOf(before, valid, room).value + Added(BodyOf(before, valid, room).value, call)
  {
    hide Added, IsString, Fault;
    var before := calls[..|calls| - 1];
    forall i | 0 <= i < |before| ensures IsString(before[i], valid) {
      assert before[i] == calls[i];
    }
    assert Ending(BodyOf(before, valid, room).value, calls[|calls| - 1], valid, room).None?;
    NoFault(calls[|calls| - 1], valid);
  }

  lemma NoFault(call: Call, valid: Json)
    ensures call.Section? && OneLine(call.title) ==> Fault(call, valid).None?
  {
  }

  /** Any body that was written whole is read as exactly the fields written, in order. */
  lemma {:induction false} WrittenIsRead(calls: seq<Call>, valid: Json, room: nat)
    requires JsonLike(valid) && Strings(calls, valid) && BodyOf(calls, valid, room).Ok?
    ensures FieldsOf(BodyOf(calls, valid, room).value, valid) == Expected(calls)
    ensures Complete(BodyOf(calls, valid, room).value) && AllOk(Expected(calls))
  {
    hide Added, FieldsOf, JsonLike, IsString, Fault, Strings, Ending, Emitted;
    if calls == [] {
      NextFields([], valid);
    } else {
      var before, call := calls[..|calls| - 1], calls[|calls| - 1];
      WrittenBefore(calls, valid, room);
      WrittenIsRead(before, valid, room);
      var body := BodyOf(before, valid, room).value;
      AddedReads(body, call, valid);
      FieldsConcat(body, Added(body, call), valid);
      EmittedIsOk(call);
    }
  }

  lemma EmittedIsOk(call: Call)
    ensures AllOk(Emitted(call))
  {
  }

  /** And each field gives back what was put in it. */
  lemma {:induction false} FieldsGiveBack(call: Call, room: nat)
    ensures call.TextField? && |call.value| <= room ==> TextOf(FieldOf(call).value.raw, room) == Ok(call.value)
    ensures call.TextField? ==> PlainText(FieldOf(call).value.raw) == if Plain(call.value) then Ok(call.value) else Err(Escaped)
    ensures call.HexField? && |call.bytes| <= room ==>
              PlainText(FieldOf(call).value.raw) == Ok(HexOf(call.bytes)) && UnhexOf(HexOf(call.bytes), room) == Ok(call.bytes)
    ensures call.Setting? ==> SettingName(FieldOf(call).value.key) == Some(call.name)
  {
    hide Quoted, HexOf, UnhexOf, TextOf;
    match call
    case TextField(_, value) =>
      PlainIffUnescaped(value);
      if |value| <= room {
        QuotedRoundTrip(value, room);
      }
    case HexField(_, bytes) =>
      if |bytes| <= room {
        HexRoundTrip(bytes, room);
        HexIsPlain(bytes);
        var raw := [QUOTE] + HexOf(bytes) + [QUOTE];
        assert raw[1..|raw| - 1] == HexOf(bytes);
      }
    case Setting(name, _) => SettingNameOfPrefixed(name);
    case _ =>
  }

  lemma {:induction false} HexIsPlain(bytes: Text)
    ensures BACKSLASH !in HexOf(bytes)
  {
    if bytes != [] {
      HexIsPlain(bytes[..|bytes| - 1]);
      HexDigitValue(bytes[|bytes| - 1] as nat / 16);
      HexDigitValue(bytes[|bytes| - 1] as nat % 16);
    }
  }
}
