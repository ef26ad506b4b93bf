/**
 The text of a backup: names, trimming, JSON strings and their escapes, hex. Text is its UTF-8
 bytes; everything the format looks for is ASCII, and an ASCII byte is never part of another
 character.
 */
module BodyText {
  import opened Bytes
  import opened Wrappers

  datatype Error = MalformedLine | NotJson | NotAString | Escaped | NotHex | BufferTooSmall

  type Result<T> = Outcome<T, Error>

  type Text = seq<byte>

  const TAB: byte := 0x09
  const LF: byte := 0x0A
  const CR: byte := 0x0D
  const SPACE: byte := 0x20
  const QUOTE: byte := 0x22
  const HASH: byte := 0x23
  const EQUALS: byte := 0x3D
  const BACKSLASH: byte := 0x5C

  /** The bytes of a literal. */
  function Ascii(s: string): (t: Text)
    ensures |t| == |s| && forall i :: 0 <= i < |s| ==> t[i] as int == s[i] as int % 0x80
  {
    if s == "" then [] else Ascii(s[..|s| - 1]) + [(s[|s| - 1] as int % 0x80) as byte]
  }

  // ---------------------------------------------------------------------------
  // Names
  // ---------------------------------------------------------------------------

  predicate NameByte(b: byte) {
    0x30 <= b <= 0x39 || 0x41 <= b <= 0x5A || 0x61 <= b <= 0x7A || b == 0x5F || b == 0x2E || b == 0x2D
  }

  /** `name_ok` */
  predicate NameOk(name: Text) {
    name != [] && forall i :: 0 <= i < |name| ==> NameByte(name[i])
  }

  /** Where `b` first is; the length when it is nowhere. */
  function IndexOf(t: Text, b: byte): (i: nat)
    ensures i <= |t| && (i < |t| ==> t[i] == b) && forall j :: 0 <= j < i ==> t[j] != b
  {
    if t == [] || t[0] == b then 0 else 1 + IndexOf(t[1..], b)
  }

  lemma {:induction false} IndexOfIs(t: Text, b: byte, i: nat)
    requires i <= |t| && (i < |t| ==> t[i] == b) && forall j :: 0 <= j < i ==> t[j] != b
    ensures IndexOf(t, b) == i
  {
  }

  // ---------------------------------------------------------------------------
  // Trimming
  // ---------------------------------------------------------------------------

  predicate Blank(b: byte) {
    b == SPACE || b == TAB
  }

  predicate LineBlank(b: byte) {
    Blank(b) || b == CR
  }

  function TrimLeft(t: Text, drop: byte -> bool): (r: Text)
    ensures |r| <= |t| && r == t[|t| - |r|..]
    ensures r != [] ==> !drop(r[0])
  {
    if t == [] || !drop(t[0]) then t else TrimLeft(t[1..], drop)
  }

  function TrimRight(t: Text, drop: byte -> bool): (r: Text)
    ensures |r| <= |t| && r == t[..|r|]
    ensures r != [] ==> !drop(r[|r| - 1])
  {
    if t == [] || !drop(t[|t| - 1]) then t else TrimRight(t[..|t| - 1], drop)
  }

  /** `trim_matches` */
  function Trim(t: Text, drop: byte -> bool): Text {
    TrimRight(TrimLeft(t, drop), drop)
  }

  lemma TrimLeftKeeps(t: Text, drop: byte -> bool)
    requires t == [] || !drop(t[0])
    ensures TrimLeft(t, drop) == t
  {
  }

  /** What is trimmed from the right of some text with a kept end in front is what is trimmed without it. */
  lemma {:induction false} TrimRightAfter(a: Text, b: Text, drop: byte -> bool)
    requires a != [] && !drop(a[|a| - 1])
    ensures TrimRight(a + b, drop) == a + TrimRight(b, drop)
  {
    if b == [] {
      assert a + b == a;
    } else if drop(b[|b| - 1]) {
      assert (a + b)[..|a + b| - 1] == a + b[..|b| - 1];
      TrimRightAfter(a, b[..|b| - 1], drop);
    }
  }

  // ---------------------------------------------------------------------------
  // Hex
  // ---------------------------------------------------------------------------

  function HexDigit(n: nat): (b: byte)
    requires n < 16
  {
    if n < 10 then (0x30 + n) as byte else (0x61 + n - 10) as byte
  }

  /** `to_digit(16)` */
  function HexValue(b: byte): (r: Result<nat>)
    ensures r.Ok? ==> r.value < 16
  {
    if 0x30 <= b <= 0x39 then Ok(b as nat - 0x30)
    else if 0x61 <= b <= 0x66 then Ok(b as nat - 0x61 + 10)
    else if 0x41 <= b <= 0x46 then Ok(b as nat - 0x41 + 10)
    else Err(NotHex)
  }

  lemma HexDigitValue(n: nat)
    requires n < 16
    ensures HexValue(HexDigit(n)) == Ok(n) && HexDigit(n) != BACKSLASH && HexDigit(n) >= 0x20 && HexDigit(n) != QUOTE
  {
  }

  function HexOf(bytes: Text): (t: Text)
    ensures |t| == 2 * |bytes|
  {
    if bytes == [] then []
    else
      var b := bytes[|bytes| - 1] as nat;
      HexOf(bytes[..|bytes| - 1]) + [HexDigit(b / 16), HexDigit(b % 16)]
  }

  /** The bytes `n` pairs of digits stand for. */
  function PairsOf(t: Text, n: nat): (r: Result<Text>)
    requires 2 * n <= |t|
    ensures r.Ok? ==> |r.value| == n
  {
    if n == 0 then Ok([])
    else
      var before :- PairsOf(t, n - 1);
      var hi :- HexValue(t[2 * n - 2]);
      var lo :- HexValue(t[2 * n - 1]);
      Ok(before + [(hi * 16 + lo) as byte])
  }

  /** `unhex`, into `room` bytes. */
  function UnhexOf(t: Text, room: nat): Result<Text> {
    if |t| % 2 != 0 then Err(NotHex)
    else if room < |t| / 2 then Err(BufferTooSmall)
    else PairsOf(t, |t| / 2)
  }

  lemma {:induction false} PairsPrefix(t: Text, u: Text, n: nat)
    requires 2 * n <= |t| && t <= u
    ensures PairsOf(t, n) == PairsOf(u, n)
  {
    if n > 0 {
      PairsPrefix(t, u, n - 1);
    }
  }

  /** Hex written is hex read. */
  lemma {:induction false} HexRoundTrip(bytes: Text, room: nat)
    requires |bytes| <= room
    ensures UnhexOf(HexOf(bytes), room) == Ok(bytes)
  {
    hide HexValue, HexDigit;
    if bytes != [] {
      var before, b := bytes[..|bytes| - 1], bytes[|bytes| - 1] as nat;
      HexRoundTrip(before, room);
      PairsPrefix(HexOf(before), HexOf(bytes), |before|);
      HexDigitValue(b / 16);
      HexDigitValue(b % 16);
      assert bytes == before + [b as byte];
    }
  }

  /** `unhex` */
  method Unhex(t: Text, out: array<byte>) returns (r: Result<nat>)
    modifies out
    ensures match UnhexOf(t, out.Length)
            case Ok(bytes) => |bytes| <= out.Length && r == Ok(|bytes|) && out[..|bytes|] == bytes
            case Err(e) => r == Err(e)
  {
    if |t| % 2 != 0 {
      return Err(NotHex);
    }
    var n := |t| / 2;
    if out.Length < n {
      return Err(BufferTooSmall);
    }
    for i := 0 to n
      invariant PairsOf(t, i) == Ok(out[..i])
    {
      PairFails(t, i, n);
      var hi :- HexValue(t[2 * i]);
      var lo :- HexValue(t[2 * i + 1]);
      out[i] := (hi * 16 + lo) as byte;
      assert out[..i + 1] == out[..i] + [(hi * 16 + lo) as byte];
    }
    return Ok(n);
  }

  /** A pair that is not hex is an error of the whole text. */
  lemma {:induction false} PairFails(t: Text, i: nat, n: nat)
    requires i < n && 2 * n <= |t| && PairsOf(t, i).Ok?
    ensures HexValue(t[2 * i]).Err? || HexValue(t[2 * i + 1]).Err? ==> PairsOf(t, n) == Err(NotHex)
  {
    if HexValue(t[2 * i]).Err? || HexValue(t[2 * i + 1]).Err? {
      PairsStayFailed(t, i + 1, n);
    }
  }

  lemma {:induction false} PairsStayFailed(t: Text, i: nat, n: nat)
    requires i <= n && 2 * n <= |t| && PairsOf(t, i) == Err(NotHex)
    ensures PairsOf(t, n) == Err(NotHex)
  {
    if i < n {
      PairsStayFailed(t, i, n - 1);
    }
  }

  // ---------------------------------------------------------------------------
  // JSON strings
  // ---------------------------------------------------------------------------

  /** A byte that a JSON string cannot hold as it is. */
  predicate NeedsEscape(b: byte) {
    b == QUOTE || b == BACKSLASH || b < 0x20
  }

  function EscapeByte(b: byte): (t: Text)
    ensures t != [] && (!NeedsEscape(b) ==> t == [b]) && (NeedsEscape(b) ==> t[0] == BACKSLASH)
    ensures forall i :: 0 <= i < |t| ==> t[i] >= 0x20
  {
    if b == QUOTE then [BACKSLASH, QUOTE]
    else if b == BACKSLASH then [BACKSLASH, BACKSLASH]
    else if b == LF then [BACKSLASH, 0x6E]
    else if b == CR then [BACKSLASH, 0x72]
    else if b == TAB then [BACKSLASH, 0x74]
    else if b < 0x20 then [BACKSLASH, 0x75, 0x30, 0x30, HexDigit(b as nat / 16), HexDigit(b as nat % 16)]
    else [b]
  }

  function EscapedOf(s: Text): (t: Text)
    ensures forall i :: 0 <= i < |t| ==> t[i] >= 0x20
  {
    if s == [] then [] else EscapedOf(s[..|s| - 1]) + EscapeByte(s[|s| - 1])
  }

  /** `quoted` */
  function Quoted(s: Text): (t: Text)
    ensures |t| >= 2 && t[0] == QUOTE && t[|t| - 1] == QUOTE && forall i :: 0 <= i < |t| ==> t[i] >= 0x20
  {
    [QUOTE] + EscapedOf(s) + [QUOTE]
  }

  /** What is between the quotes. */
  function Inner(raw: Text): Result<Text> {
    if |raw| < 2 || raw[0] != QUOTE || raw[|raw| - 1] != QUOTE then Err(NotAString) else Ok(raw[1..|raw| - 1])
  }

  /** `Field::text`: a string with no escapes in it. */
  function PlainText(raw: Text): Result<Text> {
    var inner :- Inner(raw);
    if BACKSLASH in inner then Err(Escaped) else Ok(inner)
  }

  /** A character below U+10000 as UTF-8. */
  function Utf8(code: nat): (t: Text)
    requires code < 0x1_0000
    ensures 1 <= |t| <= 3
  {
    if code < 0x80 then [code as byte]
    else if code < 0x800 then [(0xC0 + code / 0x40) as byte, (0x80 + code % 0x40) as byte]
    else [(0xE0 + code / 0x1000) as byte, (0x80 + code / 0x40 % 0x40) as byte, (0x80 + code % 0x40) as byte]
  }

  function CodeUnit(t: Text): (r: Result<nat>)
    requires |t| == 4
    ensures r.Ok? ==> r.value < 0x1_0000
  {
    var a := HexValue(t[0]);
    var b := HexValue(t[1]);
    var c := HexValue(t[2]);
    var d := HexValue(t[3]);
    if a.Err? || b.Err? || c.Err? || d.Err? then Err(NotJson)
    else Ok(((a.value * 16 + b.value) * 16 + c.value) * 16 + d.value)
  }

  /** The character at the front of a string's inside, and how long it is spelt. */
  function Piece(inner: Text): (r: Result<(Text, nat)>)
    requires inner != []
    ensures r.Ok? ==> 0 < r.value.1 <= |inner|
  {
    if inner[0] != BACKSLASH then Ok(([inner[0]], 1))
    else if |inner| < 2 then Err(NotJson)
    else
      var esc := inner[1];
      if esc == QUOTE || esc == BACKSLASH || esc == 0x2F then Ok(([esc], 2))
      else if esc == 0x62 then Ok(([0x08], 2))
      else if esc == 0x66 then Ok(([0x0C], 2))
      else if esc == 0x6E then Ok(([LF], 2))
      else if esc == 0x72 then Ok(([CR], 2))
      else if esc == 0x74 then Ok(([TAB], 2))
      else if esc == 0x75 then
        if |inner| < 6 then Err(NotJson) else
          var code :- CodeUnit(inner[2..6]);
          if 0xD800 <= code < 0xE000 then Err(NotJson) else Ok((Utf8(code), 6))
      else Err(NotJson)
  }

  /** The string's escapes resolved, into `room` bytes. */
  function Unescaped(inner: Text, room: nat): (r: Result<Text>)
    ensures r.Ok? ==> |r.value| <= room
    decreases |inner|
  {
    if inner == [] then Ok([])
    else
      var (piece, n) :- Piece(inner);
      if |piece| > room then Err(BufferTooSmall) else
        var rest :- Unescaped(inner[n..], room - |piece|);
        Ok(piece + rest)
  }

  /** `Field::text_into` */
  function TextOf(raw: Text, room: nat): Result<Text> {
    var inner :- Inner(raw);
    Unescaped(inner, room)
  }

  lemma {:induction false} PieceOfEscape(b: byte, rest: Text)
    ensures Piece(EscapeByte(b) + rest) == Ok(([b], |EscapeByte(b)|))
  {
    if NeedsEscape(b) && b != QUOTE && b != BACKSLASH && b != LF && b != CR && b != TAB {
      HexDigitValue(b as nat / 16);
      HexDigitValue(b as nat % 16);
      var e := EscapeByte(b) + rest;
      assert e[2..6] == [0x30, 0x30, HexDigit(b as nat / 16), HexDigit(b as nat % 16)];
      assert CodeUnit(e[2..6]) == Ok(b as nat);
    }
  }

  lemma {:induction false} EscapedFront(b: byte, s: Text)
    ensures EscapedOf([b] + s) == EscapeByte(b) + EscapedOf(s)
  {
    if s == [] {
      assert [b] + s == [b];
      assert EscapedOf([b][..0]) == [];
    } else {
      assert ([b] + s)[..|s|] == [b] + s[..|s| - 1];
      EscapedFront(b, s[..|s| - 1]);
    }
  }

  lemma {:induction false} UnescapeEscaped(s: Text, room: nat)
    requires |s| <= room
    ensures Unescaped(EscapedOf(s), room) == Ok(s)
  {
    hide EscapeByte, Piece;
    if s != [] {
      assert s == [s[0]] + s[1..];
      EscapedFront(s[0], s[1..]);
      var e := EscapeByte(s[0]);
      PieceOfEscape(s[0], EscapedOf(s[1..]));
      assert EscapedOf(s)[|e|..] == EscapedOf(s[1..]);
      UnescapeEscaped(s[1..], room - 1);
    }
  }

  /** Reading a string that was quoted gives it back, whatever is in it. */
  lemma {:induction false} QuotedRoundTrip(s: Text, room: nat)
    requires |s| <= room
    ensures TextOf(Quoted(s), room) == Ok(s)
  {
    hide EscapedOf, Unescaped;
    assert Quoted(s)[1..|Quoted(s)| - 1] == EscapedOf(s);
    UnescapeEscaped(s, room);
  }

  /** Nothing in `s` has to be escaped. */
  predicate Plain(s: Text) {
    forall i :: 0 <= i < |s| ==> !NeedsEscape(s[i])
  }

  lemma PlainSnoc(s: Text, b: byte)
    ensures Plain(s + [b]) <==> Plain(s) && !NeedsEscape(b)
  {
    if Plain(s + [b]) {
      forall i | 0 <= i < |s| ensures !NeedsEscape(s[i]) {
        assert (s + [b])[i] == s[i];
      }
      assert (s + [b])[|s|] == b;
    }
  }

  lemma {:induction false} EscapedPlain(s: Text)
    ensures BACKSLASH in EscapedOf(s) <==> !Plain(s)
    ensures Plain(s) ==> EscapedOf(s) == s
  {
    hide EscapeByte, NeedsEscape, Plain;
    if s == [] {
      NothingIsPlain();
    } else {
      var before, b := s[..|s| - 1], s[|s| - 1];
      EscapedPlain(before);
      assert s == before + [b];
      PlainSnoc(before, b);
      EscapedByteHas(b);
    }
  }

  lemma NothingIsPlain()
    ensures Plain([])
  {
  }

  lemma EscapedByteHas(b: byte)
    ensures BACKSLASH in EscapeByte(b) <==> NeedsEscape(b)
  {
    if NeedsEscape(b) {
      assert EscapeByte(b)[0] == BACKSLASH;
    }
  }

  /** Text is borrowed as it is exactly when nothing in it had to be escaped. */
  lemma {:induction false} PlainIffUnescaped(s: Text)
    ensures PlainText(Quoted(s)) == if Plain(s) then Ok(s) else Err(Escaped)
  {
    hide EscapedOf, Plain;
    assert Quoted(s)[1..|Quoted(s)| - 1] == EscapedOf(s);
    EscapedPlain(s);
  }

  /** `Field::text_into` */
  method TextInto(raw: Text, out: array<byte>) returns (r: Result<nat>)
    modifies out
    ensures match TextOf(raw, out.Length)
            case Ok(s) => |s| <= out.Length && r == Ok(|s|) && out[..|s|] == s
            case Err(e) => r == Err(e)
  {
    hide Piece;
    var inner :- Inner(raw);
    var at, n: nat := 0, 0;
    assert inner[0..] == inner && out[..0] == [];
    JoinNone(Unescaped(inner, out.Length));
    while at < |inner|
      invariant at <= |inner| && n <= out.Length
      invariant Unescaped(inner, out.Length) == Joined(out[..n], Unescaped(inner[at..], out.Length - n))
    {
      var piece :- Piece(inner[at..]);
      if |piece.0| > out.Length - n {
        return Err(BufferTooSmall);
      }
      ghost var before := out[..n];
      for k := 0 to |piece.0|
        invariant out[..n + k] == before + piece.0[..k]
      {
        out[n + k] := piece.0[k];
      }
      assert out[..n + |piece.0|] == before + piece.0;
      JoinNext(before, piece.0, Unescaped(inner[at..][piece.1..], out.Length - n - |piece.0|));
      assert inner[at..][piece.1..] == inner[at + piece.1..];
      n := n + |piece.0|;
      at := at + piece.1;
    }
    return Ok(n);
  }

  /** What is already written, and then the rest of it. */
  ghost function Joined(done: Text, rest: Result<Text>): Result<Text> {
    match rest
    case Ok(t) => Ok(done + t)
    case Err(e) => Err(e)
  }

  lemma JoinNone(rest: Result<Text>)
    ensures Joined([], rest) == rest
  {
    if rest.Ok? {
      assert [] + rest.value == rest.value;
    }
  }

  lemma JoinNext(done: Text, piece: Text, rest: Result<Text>)
    ensures Joined(done + piece, rest) == Joined(done, Joined(piece, rest))
  {
    if rest.Ok? {
      assert (done + piece) + rest.value == done + (piece + rest.value);
    }
  }
}
