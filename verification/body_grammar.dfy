/**
 What the reader of a backup body takes, character by character: which names, which lines, which
 strings. Every function the reader computes with is held against a grammar that does not mention it.
 */
module BodyGrammar {
  import opened Bytes
  import opened BodyText
  import opened BodyFields
  import opened BodyRoundTrip
  import opened Wrappers

  // ---------------------------------------------------------------------------
  // Names and digits
  // ---------------------------------------------------------------------------

  ghost predicate NameChar(c: char) {
    'a' <= c <= 'z' || 'A' <= c <= 'Z' || '0' <= c <= '9' || c in "_.-"
  }

  /** A name is letters, digits, underscores, dots and dashes, and at least one of them. */
  lemma NameOkIff(name: Text)
    ensures NameOk(name) <==> |name| > 0 && forall i :: 0 <= i < |name| ==> NameChar(name[i] as char)
  {
  }

  ghost predicate DigitFor(b: byte, n: nat) {
    n < 16 && (b as int == "0123456789abcdef"[n] as int || b as int == "0123456789ABCDEF"[n] as int)
  }

  /** A hex digit, in either case, is worth its place. */
  lemma HexValueIff(b: byte, n: nat)
    ensures HexValue(b) == Ok(n) <==> DigitFor(b, n)
  {
  }

  /** Hex is written in lower case. */
  lemma HexDigitIs(n: nat)
    requires n < 16
    ensures HexDigit(n) as int == "0123456789abcdef"[n] as int
  {
  }

  // ---------------------------------------------------------------------------
  // Strings
  // ---------------------------------------------------------------------------

  /** The code point some UTF-8 bytes encode. */
  ghost predicate Encodes(u: Text, code: nat) {
    match |u|
    case 1 => u[0] < 0x80 && code == u[0] as nat
    case 2 => 0xC2 <= u[0] < 0xE0 && 0x80 <= u[1] < 0xC0 && code == (u[0] as nat - 0xC0) * 0x40 + (u[1] as nat - 0x80)
    case 3 =>
      && 0xE0 <= u[0] < 0xF0 && 0x80 <= u[1] < 0xC0 && 0x80 <= u[2] < 0xC0 && code >= 0x800
      && code == (u[0] as nat - 0xE0) * 0x1000 + (u[1] as nat - 0x80) * 0x40 + (u[2] as nat - 0x80)
    case _ => false
  }

  lemma Utf8Encodes(code: nat, u: Text)
    requires code < 0x1_0000
    ensures u == Utf8(code) <==> Encodes(u, code)
  {
    if |u| == 2 {
      TwoBytes(code, u[0] as nat, u[1] as nat);
      assert u == [u[0], u[1]];
    } else if |u| == 3 {
      ThreeBytes(code, u[0] as nat, u[1] as nat, u[2] as nat);
      assert u == [u[0], u[1], u[2]];
    }
  }

  lemma TwoBytes(code: nat, a: nat, b: nat)
    ensures 0x80 <= code < 0x800 && a == 0xC0 + code / 0x40 && b == 0x80 + code % 0x40
       <==> 0xC2 <= a < 0xE0 && 0x80 <= b < 0xC0 && code == (a - 0xC0) * 0x40 + (b - 0x80)
  {
  }

  lemma ThreeBytes(code: nat, a: nat, b: nat, c: nat)
    ensures 0x800 <= code < 0x1_0000 && a == 0xE0 + code / 0x1000 && b == 0x80 + code / 0x40 % 0x40 && c == 0x80 + code % 0x40
       <==> 0xE0 <= a < 0xF0 && 0x80 <= b < 0xC0 && 0x80 <= c < 0xC0 && code >= 0x800
            && code == (a - 0xE0) * 0x1000 + (b - 0x80) * 0x40 + (c - 0x80)
  {
    if a >= 0xE0 && 0x80 <= b < 0xC0 && 0x80 <= c < 0xC0 && code == (a - 0xE0) * 0x1000 + (b - 0x80) * 0x40 + (c - 0x80) {
      assert code == ((a - 0xE0) * 0x40 + (b - 0x80)) * 0x40 + (c - 0x80);
    }
  }

  /** The escapes of section 7 of RFC 8259, but for `\u`. */
  ghost predicate StandsFor(esc: byte, b: byte) {
    || (IsChar(esc, '"') && b == 0x22) || (IsChar(esc, '\\') && b == 0x5C) || (IsChar(esc, '/') && b == 0x2F)
    || (IsChar(esc, 'b') && b == 0x08) || (IsChar(esc, 'f') && b == 0x0C)
    || (IsChar(esc, 'n') && b == 0x0A) || (IsChar(esc, 'r') && b == 0x0D) || (IsChar(esc, 't') && b == 0x09)
  }

  ghost predicate IsChar(b: byte, c: char) {
    b as int == c as int
  }

  /** Four hex digits and the number they make. */
  ghost predicate Numbers(t: Text, code: nat) {
    && |t| == 4
    && exists a: nat, b: nat, c: nat, d: nat ::
         && DigitFor(t[0], a) && DigitFor(t[1], b) && DigitFor(t[2], c) && DigitFor(t[3], d)
         && code == a * 0x1000 + b * 0x100 + c * 0x10 + d
  }

  /** `\u`, four hex digits, and the UTF-8 of the character they number, which is no surrogate. */
  ghost predicate SpeltByCode(t: Text, u: Text) {
    && |t| == 6 && t[0] == 0x5C && t[1] == 0x75
    && exists code: nat :: Numbers(t[2..], code) && Encodes(u, code) && !(0xD800 <= code < 0xE000)
  }

  /** `t` is one byte that is no backslash, or one of JSON's escapes, and stands for `u`. */
  ghost predicate Spells(t: Text, u: Text) {
    || (|t| == 1 && t[0] != 0x5C && u == t)
    || (|t| == 2 && t[0] == 0x5C && |u| == 1 && StandsFor(t[1], u[0]))
    || SpeltByCode(t, u)
  }

  /** `t` spells `s` piece by piece. */
  ghost predicate SpellsText(t: Text, s: Text)
    decreases |t|
  {
    if t == [] then s == []
    else exists k: nat, j: nat :: 0 < k <= |t| && j <= |s| && Spells(t[..k], s[..j]) && SpellsText(t[k..], s[j..])
  }

  lemma CodeUnitIff(t: Text, code: nat)
    requires |t| == 4
    ensures CodeUnit(t) == Ok(code) <==> Numbers(t, code)
  {
    hide HexValue, DigitFor;
    if CodeUnit(t) == Ok(code) {
      var a, b, c, d := HexValue(t[0]).value, HexValue(t[1]).value, HexValue(t[2]).value, HexValue(t[3]).value;
      DigitsRead(t, a, b, c, d);
    }
    if Numbers(t, code) {
      var a: nat, b: nat, c: nat, d: nat :|
        && DigitFor(t[0], a) && DigitFor(t[1], b) && DigitFor(t[2], c) && DigitFor(t[3], d)
        && code == a * 0x1000 + b * 0x100 + c * 0x10 + d;
      DigitsRead(t, a, b, c, d);
    }
  }

  lemma DigitsRead(t: Text, a: nat, b: nat, c: nat, d: nat)
    requires |t| == 4
    ensures HexValue(t[0]) == Ok(a) && HexValue(t[1]) == Ok(b) && HexValue(t[2]) == Ok(c) && HexValue(t[3]) == Ok(d)
       <==> DigitFor(t[0], a) && DigitFor(t[1], b) && DigitFor(t[2], c) && DigitFor(t[3], d)
  {
    hide HexValue, DigitFor;
    HexValueIff(t[0], a);
    HexValueIff(t[1], b);
    HexValueIff(t[2], c);
    HexValueIff(t[3], d);
  }

  lemma SpeltByCodeIff(inner: Text, u: Text)
    requires |inner| >= 6 && inner[0] == BACKSLASH && inner[1] == 0x75
    ensures Piece(inner) == Ok((u, 6)) <==> SpeltByCode(inner[..6], u)
    ensures Piece(inner).Ok? ==> Piece(inner).value.1 == 6
  {
    hide CodeUnit, Numbers, Encodes, Utf8;
    var t := inner[2..6];
    assert t == inner[..6][2..];
    forall code: nat
      ensures CodeUnit(t) == Ok(code) <==> Numbers(t, code)
      ensures code < 0x1_0000 ==> (u == Utf8(code) <==> Encodes(u, code))
    {
      CodeUnitIff(t, code);
      if code < 0x1_0000 {
        Utf8Encodes(code, u);
      }
    }
    if SpeltByCode(inner[..6], u) {
      var code: nat :| Numbers(t, code) && Encodes(u, code) && !(0xD800 <= code < 0xE000);
      assert CodeUnit(t) == Ok(code);
    }
  }

  /** The reader's next character is the one piece that some front of the text spells. */
  lemma PieceIff(inner: Text, u: Text, n: nat)
    requires inner != []
    ensures Piece(inner) == Ok((u, n)) <==> 0 < n <= |inner| && Spells(inner[..n], u)
  {
    hide SpeltByCode, CodeUnit, StandsFor;
    assert inner[..1] == [inner[0]];
    if 0 < n <= |inner| {
      CodeHasSix(inner[..n], u);
    }
    if inner[0] == BACKSLASH && |inner| >= 2 {
      if inner[1] == 0x75 {
        if |inner| >= 6 {
          SpeltByCodeIff(inner, u);
        }
        NoneStandsForU(u);
      } else {
        EscapesAre(inner, u);
      }
    }
  }

  lemma CodeHasSix(t: Text, u: Text)
    ensures SpeltByCode(t, u) ==> |t| == 6 && t[0] == BACKSLASH && t[1] == 0x75
  {
  }

  lemma NoneStandsForU(u: Text)
    ensures |u| == 1 ==> !StandsFor(0x75, u[0])
  {
  }

  lemma EscapesAre(inner: Text, u: Text)
    requires |inner| >= 2 && inner[0] == BACKSLASH && inner[1] != 0x75
    ensures |u| == 1 && StandsFor(inner[1], u[0]) <==> Piece(inner) == Ok((u, 2))
    ensures Piece(inner).Ok? ==> Piece(inner).value.1 == 2
  {
    assert |u| == 1 ==> u == [u[0]];
  }

  /** A string is read exactly when it is spelt so throughout and there is room, and as what it spells. */
  lemma {:induction false} UnescapedIff(inner: Text, s: Text, room: nat)
    ensures Unescaped(inner, room) == Ok(s) <==> |s| <= room && SpellsText(inner, s)
    decreases |inner|
  {
    hide Piece, Spells;
    if inner != [] {
      if Unescaped(inner, room) == Ok(s) {
        var (u, n) := Piece(inner).value;
        PieceIff(inner, u, n);
        assert s[..|u|] == u && s[|u|..] == Unescaped(inner[n..], room - |u|).value;
        UnescapedIff(inner[n..], s[|u|..], room - |u|);
      }
      if |s| <= room && SpellsText(inner, s) {
        var k: nat, j: nat :| 0 < k <= |inner| && j <= |s| && Spells(inner[..k], s[..j]) && SpellsText(inner[k..], s[j..]);
        PieceIff(inner, s[..j], k);
        UnescapedIff(inner[k..], s[j..], room - j);
        assert s == s[..j] + s[j..];
      }
    }
  }

  /** Some front of the text spells more than there is room for. */
  ghost predicate Overflows(inner: Text, room: nat) {
    exists k: nat, s: Text :: k <= |inner| && |s| > room && SpellsText(inner[..k], s)
  }

  /** A string that is not read is too long when a front of it already is, and else is no JSON. */
  lemma {:induction false} UnreadIs(inner: Text, room: nat)
    requires Unescaped(inner, room).Err?
    ensures Unescaped(inner, room).error == if Overflows(inner, room) then BufferTooSmall else NotJson
    decreases |inner|
  {
    hide Piece, Spells;
    FirstPiece(inner, room);
    if Piece(inner).Ok? {
      var (u, n) := Piece(inner).value;
      PieceIff(inner, u, n);
      if |u| <= room {
        UnreadIs(inner[n..], room - |u|);
        OverflowsBehind(inner, u, n, room);
      } else {
        assert SpellsText([], []);
        assert inner[..n][..n] == inner[..n] && inner[..n][n..] == [] && u[..|u|] == u && u[|u|..] == [];
        assert SpellsText(inner[..n], u);
      }
    }
  }

  lemma {:induction false} FirstPiece(inner: Text, room: nat)
    requires inner != []
    ensures Piece(inner).Err? ==> Piece(inner) == Err(NotJson) && !Overflows(inner, room)
  {
    hide Spells;
    if Piece(inner).Err? {
      forall k: nat, s: Text | k <= |inner| && SpellsText(inner[..k], s) ensures s == [] {
        if k > 0 {
          var i: nat, j: nat :| 0 < i <= k && j <= |s| && Spells(inner[..k][..i], s[..j]) && SpellsText(inner[..k][i..], s[j..]);
          assert inner[..k][..i] == inner[..i];
          PieceIff(inner, s[..j], i);
        }
      }
    }
  }

  /** What follows a piece overflows the room the piece leaves exactly when the whole overflows. */
  lemma {:induction false} OverflowsBehind(inner: Text, u: Text, n: nat, room: nat)
    requires inner != [] && Piece(inner) == Ok((u, n)) && |u| <= room && n <= |inner|
    ensures Overflows(inner, room) <==> Overflows(inner[n..], room - |u|)
  {
    hide Piece, Spells;
    PieceIff(inner, u, n);
    if k: nat, s: Text :| k <= |inner[n..]| && |s| > room - |u| && SpellsText(inner[n..][..k], s) {
      var t, v := inner[..n + k], u + s;
      assert t[..n] == inner[..n] && t[n..] == inner[n..][..k] && v[..|u|] == u && v[|u|..] == s;
      assert Spells(t[..n], v[..|u|]) && SpellsText(t[n..], v[|u|..]);
      assert SpellsText(t, v);
    }
    if k: nat, s: Text :| k <= |inner| && |s| > room && SpellsText(inner[..k], s) {
      var i: nat, j: nat :| 0 < i <= k && j <= |s| && Spells(inner[..k][..i], s[..j]) && SpellsText(inner[..k][i..], s[j..]);
      assert inner[..k][..i] == inner[..i];
      PieceIff(inner, s[..j], i);
      assert inner[..k][i..] == inner[n..][..k - n];
    }
  }

  /** `text_into` reads what is between quotes and spelt by the grammar; what there is no room for is named. */
  lemma {:induction false} TextIff(raw: Text, s: Text, room: nat)
    ensures TextOf(raw, room) == Ok(s) <==> |s| <= room && exists inner :: raw == [QUOTE] + inner + [QUOTE] && SpellsText(inner, s)
    ensures TextOf(raw, room) == Err(NotAString) <==> forall inner :: raw != [QUOTE] + inner + [QUOTE]
    ensures forall inner :: raw == [QUOTE] + inner + [QUOTE] && TextOf(raw, room).Err? ==>
              TextOf(raw, room).error == if Overflows(inner, room) then BufferTooSmall else NotJson
  {
    hide Unescaped, SpellsText, Overflows;
    forall inner | raw == [QUOTE] + inner + [QUOTE] ensures Inner(raw) == Ok(inner) {
      assert raw[1..|raw| - 1] == inner;
    }
    if Inner(raw).Ok? {
      var inner := Inner(raw).value;
      assert raw == [QUOTE] + inner + [QUOTE];
      UnescapedIff(inner, s, room);
      if Unescaped(inner, room).Err? {
        UnreadIs(inner, room);
      }
    }
  }

  // ---------------------------------------------------------------------------
  // Lines
  // ---------------------------------------------------------------------------

  ghost predicate Spaces(t: Text) {
    forall i :: 0 <= i < |t| ==> t[i] == 0x20 || t[i] == 0x09
  }

  /** Nothing to trim at either end. */
  ghost predicate Tight(t: Text) {
    t == [] || (t[0] != 0x20 && t[0] != 0x09 && t[|t| - 1] != 0x20 && t[|t| - 1] != 0x09)
  }

  /** A line is a name, an equals sign -- the first there is -- and a JSON value, with spaces and tabs around each. */
  ghost predicate FieldStands(line: Text, f: Field, valid: Json, a: Text, b: Text, c: Text, d: Text) {
    && line == a + f.key + b + [EQUALS] + c + f.raw + d && EQUALS !in a + f.key + b
    && Spaces(a) && Spaces(b) && Spaces(c) && Spaces(d) && Tight(f.raw)
    && f.raw != [] && NameOk(f.key) && valid(f.raw)
  }

  lemma {:induction false} TrimIs(t: Text, m: Text, l: Text, r: Text)
    requires t == l + m + r && Spaces(l) && Spaces(r) && Tight(m) && (m == [] ==> r == [])
    ensures Trim(t, Blank) == m
  {
    hide TrimLeft, TrimRight;
    assert AllDropped(l, Blank) && AllDropped(r, Blank);
    if m == [] {
      assert t == l;
      AllTrimmed(l);
    } else {
      TrimMiddle(l, m, r, Blank);
    }
  }

  lemma {:induction false} AllTrimmed(t: Text)
    requires AllDropped(t, Blank)
    ensures Trim(t, Blank) == []
  {
    if t != [] {
      AllTrimmed(t[1..]);
    }
  }

  lemma {:induction false} TrimGives(t: Text) returns (l: Text, r: Text)
    ensures t == l + Trim(t, Blank) + r && Spaces(l) && Spaces(r) && Tight(Trim(t, Blank))
  {
    hide TrimRight;
    l := TrimLeftSplits(t, Blank);
    r := TrimRightSplits(TrimLeft(t, Blank), Blank);
    if Trim(t, Blank) != [] {
      l, r := TrimSplits(t, Blank);
    }
  }

  lemma NameIsTight(name: Text)
    requires NameOk(name)
    ensures Tight(name) && name != []
  {
    assert NameByte(name[0]) && NameByte(name[|name| - 1]);
  }

  /** A line is read as a field exactly when it is one. */
  lemma {:induction false} SplitFieldIff(line: Text, f: Field, valid: Json)
    ensures SplitField(line, valid) == Ok(f)
       <==> exists a: Text, b: Text, c: Text, d: Text :: FieldStands(line, f, valid, a, b, c, d)
  {
    hide Trim, NameOk, IndexOf;
    if SplitField(line, valid) == Ok(f) {
      var eq := IndexOf(line, EQUALS);
      var a, b := TrimGives(line[..eq]);
      var c, d := TrimGives(line[eq + 1..]);
      assert line == line[..eq] + [EQUALS] + line[eq + 1..];
      assert FieldStands(line, f, valid, a, b, c, d);
    }
    forall a: Text, b: Text, c: Text, d: Text | FieldStands(line, f, valid, a, b, c, d)
      ensures SplitField(line, valid) == Ok(f)
    {
      StandingReads(line, f, valid, a, b, c, d);
    }
  }

  /** The line has a name in front of its first equals sign, whatever is behind it. */
  ghost predicate NameStands(line: Text, key: Text, a: Text, b: Text, rest: Text) {
    line == a + key + b + [EQUALS] + rest && EQUALS !in a + key + b && Spaces(a) && Spaces(b) && NameOk(key)
  }

  /** A line that is no field has no name, or else no JSON behind it, and the error says which. */
  lemma {:induction false} NoFieldIs(line: Text, valid: Json)
    requires SplitField(line, valid).Err?
    ensures SplitField(line, valid).error
         == if exists key: Text, a: Text, b: Text, rest: Text :: NameStands(line, key, a, b, rest) then NotJson else MalformedLine
  {
    hide Trim, NameOk, IndexOf;
    var eq := IndexOf(line, EQUALS);
    if eq < |line| {
      var a, b := TrimGives(line[..eq]);
      assert line == line[..eq] + [EQUALS] + line[eq + 1..];
      assert NameOk(Trim(line[..eq], Blank)) ==> NameStands(line, Trim(line[..eq], Blank), a, b, line[eq + 1..]);
    }
    forall key: Text, a: Text, b: Text, rest: Text | NameStands(line, key, a, b, rest)
      ensures eq < |line| && Trim(line[..eq], Blank) == key
    {
      var left := a + key + b;
      assert line == left + [EQUALS] + rest && line[..|left|] == left;
      forall j | 0 <= j < |left| ensures line[j] != EQUALS {
        assert line[j] == left[j];
      }
      IndexOfIs(line, EQUALS, |left|);
      NameIsTight(key);
      TrimIs(left, key, a, b);
    }
  }

  lemma {:induction false} StandingReads(line: Text, f: Field, valid: Json, a: Text, b: Text, c: Text, d: Text)
    requires FieldStands(line, f, valid, a, b, c, d)
    ensures SplitField(line, valid) == Ok(f)
  {
    hide Trim, NameOk, IndexOf;
    var left, right := a + f.key + b, c + f.raw + d;
    assert line == left + [EQUALS] + right;
    assert line[..|left|] == left && line[|left| + 1..] == right;
    forall j | 0 <= j < |left| ensures line[j] != EQUALS {
      assert line[j] == left[j];
    }
    IndexOfIs(line, EQUALS, |left|);
    NameIsTight(f.key);
    TrimIs(left, f.key, a, b);
    TrimIs(right, f.raw, c, d);
  }

  /** The first line is up to the first line feed; what is read of it is what is inside its spaces, tabs and returns. */
  lemma {:induction false} FirstLineIs(raw: Text, rest: Text)
    requires LF !in raw
    ensures FirstLine(raw + [LF] + rest) == (raw, rest)
    ensures raw != [] ==> FirstLine(raw) == (raw, [])
  {
    var text := raw + [LF] + rest;
    forall j | 0 <= j < |raw| ensures text[j] != LF {
      assert text[j] == raw[j];
    }
    IndexOfIs(text, LF, |raw|);
    IndexOfIs(raw, LF, |raw|);
    assert text[..|raw|] == raw && text[|raw| + 1..] == rest;
  }

  ghost predicate Margin(t: Text) {
    forall i :: 0 <= i < |t| ==> t[i] == 0x20 || t[i] == 0x09 || t[i] == 0x0D
  }

  /**
   A line on its own: nothing, when there is only margin or a comment inside it; else the field that is
   inside it, and then the fields of the lines after it; or the error that is the last thing read.
   */
  lemma {:induction false} LineIsRead(l: Text, line: Text, r: Text, rest: Text, valid: Json)
    requires LF !in l + line + r && Margin(l) && Margin(r) && (line == [] ==> r == [])
    requires line != [] ==> !Margin([line[0]]) && !Margin([line[|line| - 1]])
    ensures var after := FieldsOf(rest, valid);
            FieldsOf(l + line + r + [LF] + rest, valid) ==
            if line == [] || line[0] == HASH then after
            else match SplitField(line, valid)
                 case Ok(f) => [Ok(f)] + after
                 case Err(e) => [Err(e)]
  {
    hide Trim, SplitField, FirstLine;
    var raw := l + line + r;
    var text := raw + [LF] + rest;
    FirstLineIs(raw, rest);
    MarginTrims(l, line, r);
    NextFields(text, valid);
  }

  lemma {:induction false} MarginTrims(l: Text, line: Text, r: Text)
    requires Margin(l) && Margin(r) && (line == [] ==> r == [])
    requires line != [] ==> !Margin([line[0]]) && !Margin([line[|line| - 1]])
    ensures Trim(l + line + r, LineBlank) == line
  {
    hide TrimLeft, TrimRight;
    assert AllDropped(l, LineBlank) && AllDropped(r, LineBlank);
    if line == [] {
      assert l + line + r == l;
      AllMargin(l);
    } else {
      assert Margin([line[0]]) <==> LineBlank(line[0]);
      assert Margin([line[|line| - 1]]) <==> LineBlank(line[|line| - 1]);
      TrimMiddle(l, line, r, LineBlank);
    }
  }

  lemma {:induction false} AllMargin(t: Text)
    requires AllDropped(t, LineBlank)
    ensures Trim(t, LineBlank) == []
  {
    if t != [] {
      AllMargin(t[1..]);
    }
  }
}
