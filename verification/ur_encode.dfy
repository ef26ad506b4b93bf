/**
 Writing the parts of a message: every part is the XOR of the fragments `Fountain.Chosen` names,
 behind a CBOR header.
 */
module UrEncode {
  import opened Bytes
  import opened BitWords
  import opened Wrappers
  import opened Fountain
  import opened AliasTable
  import Cbor

  type u32 = x: nat | x < U32_BOUND

  /** The message checksum: any function of the bytes. */
  type Checksum = seq<byte> -> u32

  // ---------------------------------------------------------------------------
  // XOR
  // ---------------------------------------------------------------------------

  function Xor(a: byte, b: byte): byte {
    ((a as bv8) ^ (b as bv8)) as byte
  }

  lemma XorZero(a: byte)
    ensures Xor(a, 0) == a && Xor(0, a) == a
  {
  }

  lemma XorSelf(a: byte)
    ensures Xor(a, a) == 0
  {
  }

  lemma ThereAndBack(b: bv8)
    ensures ((b as byte) as bv8) == b
  {
  }

  lemma BitsAssociate(a: bv8, b: bv8, c: bv8)
    ensures (a ^ b) ^ c == a ^ (b ^ c)
  {
  }

  lemma XorAssociates(a: byte, b: byte, c: byte)
    ensures Xor(Xor(a, b), c) == Xor(a, Xor(b, c))
  {
    ThereAndBack((a as bv8) ^ (b as bv8));
    ThereAndBack((b as bv8) ^ (c as bv8));
    BitsAssociate(a as bv8, b as bv8, c as bv8);
  }

  lemma XorCommutes(a: byte, b: byte)
    ensures Xor(a, b) == Xor(b, a)
  {
  }

  lemma XorUndone(a: byte, b: byte)
    ensures Xor(Xor(a, b), b) == a
  {
    XorAssociates(a, b, b);
    XorSelf(b);
    XorZero(a);
  }

  /** The XOR of the entries of `column` that `chosen` names, among the first `n`. */
  ghost function XorOver(column: seq<byte>, chosen: set<nat>, n: nat): byte
    requires n <= |column|
  {
    if n == 0 then 0
    else if n - 1 in chosen then Xor(XorOver(column, chosen, n - 1), column[n - 1])
    else XorOver(column, chosen, n - 1)
  }

  lemma {:induction false} XorOverSame(c: seq<byte>, d: seq<byte>, chosen: set<nat>, n: nat)
    requires n <= |c| && n <= |d| && forall i :: i in chosen && i < n ==> c[i] == d[i]
    ensures XorOver(c, chosen, n) == XorOver(d, chosen, n)
  {
    if n > 0 {
      XorOverSame(c, d, chosen, n - 1);
    }
  }

  /** Taking one entry out of the XOR of many is XORing it in again. */
  lemma {:induction false} XorOverWithout(column: seq<byte>, chosen: set<nat>, t: nat, n: nat)
    requires n <= |column| && t in chosen && t < n
    ensures XorOver(column, chosen, n) == Xor(column[t], XorOver(column, chosen - {t}, n))
  {
    var rest := chosen - {t};
    if n - 1 == t {
      XorOverOutside(column, chosen, t, n - 1);
      XorCommutes(XorOver(column, rest, n - 1), column[t]);
    } else {
      XorOverWithout(column, chosen, t, n - 1);
      if n - 1 in chosen {
        XorAssociates(column[t], XorOver(column, rest, n - 1), column[n - 1]);
      }
    }
  }

  lemma {:induction false} XorOverOutside(column: seq<byte>, chosen: set<nat>, t: nat, n: nat)
    requires n <= |column| && n <= t
    ensures XorOver(column, chosen - {t}, n) == XorOver(column, chosen, n)
  {
    if n > 0 {
      XorOverOutside(column, chosen, t, n - 1);
    }
  }

  /** What mixing did, un-mixing undoes: XOR the others back out and the one that is left appears. */
  lemma {:induction false} UnmixInvertsMix(column: seq<byte>, known: seq<byte>, chosen: set<nat>, t: nat, n: nat)
    requires n <= |column| == |known| && t in chosen && t < n
    requires forall i :: i in chosen && i != t && i < n ==> known[i] == column[i]
    ensures Xor(XorOver(column, chosen, n), XorOver(known, chosen - {t}, n)) == column[t]
  {
    XorOverWithout(column, chosen, t, n);
    XorOverSame(known, column, chosen - {t}, n);
    XorUndone(column[t], XorOver(column, chosen - {t}, n));
  }

  // ---------------------------------------------------------------------------
  // Fragments
  // ---------------------------------------------------------------------------

  function FragmentLen(messageLen: nat, seqLen: nat): (f: nat)
    requires 0 < seqLen
    ensures messageLen <= f * seqLen
  {
    CeilCovers(messageLen, seqLen);
    (messageLen + seqLen - 1) / seqLen
  }

  /** Fragments as short as can be: one byte less in each would not hold the message. */
  lemma FragmentIsLeast(messageLen: nat, seqLen: nat, f: nat)
    requires 0 < seqLen
    ensures messageLen <= f * seqLen <==> FragmentLen(messageLen, seqLen) <= f
  {
    var least := FragmentLen(messageLen, seqLen);
    if least <= f {
      assert least * seqLen <= f * seqLen;
    } else {
      assert f * seqLen <= (least - 1) * seqLen;
    }
  }

  lemma CeilCovers(m: nat, n: nat)
    requires 0 < n
    ensures m <= (m + n - 1) / n * n
  {
  }

  /** The message byte at `i`, or the padding past its end. */
  function PaddedAt(message: seq<byte>, i: nat): byte {
    if i < |message| then message[i] else 0
  }

  /** Fragment `i`, padded to `f` bytes. */
  function Fragment(message: seq<byte>, f: nat, i: nat): (s: seq<byte>)
    ensures |s| == f && forall k :: 0 <= k < f ==> s[k] == PaddedAt(message, i * f + k)
  {
    FragmentPrefix(message, f, i, f)
  }

  function FragmentPrefix(message: seq<byte>, f: nat, i: nat, n: nat): (s: seq<byte>)
    ensures |s| == n && forall k :: 0 <= k < n ==> s[k] == PaddedAt(message, i * f + k)
  {
    if n == 0 then [] else FragmentPrefix(message, f, i, n - 1) + [PaddedAt(message, i * f + n - 1)]
  }

  /** Past the end of the message a fragment is zeros. */
  lemma FragmentIs(message: seq<byte>, f: nat, i: nat, k: nat)
    requires k < f
    ensures Fragment(message, f, i)[k] == if i * f + k < |message| then message[i * f + k] else 0
  {
  }

  /** Byte `k` of each of the first `n` fragments. */
  function Column(message: seq<byte>, f: nat, k: nat, n: nat): (c: seq<byte>)
    ensures |c| == n && forall i :: 0 <= i < n ==> c[i] == PaddedAt(message, i * f + k)
  {
    if n == 0 then [] else Column(message, f, k, n - 1) + [PaddedAt(message, (n - 1) * f + k)]
  }

  /** The first `n` bytes of the mixture of the chosen fragments. */
  ghost function Mixed(message: seq<byte>, f: nat, chosen: set<nat>, seqLen: nat, n: nat): (s: seq<byte>)
    ensures |s| == n && forall k :: 0 <= k < n ==> s[k] == XorOver(Column(message, f, k, seqLen), chosen, seqLen)
  {
    if n == 0 then [] else
      Mixed(message, f, chosen, seqLen, n - 1) + [XorOver(Column(message, f, n - 1, seqLen), chosen, seqLen)]
  }

  lemma {:induction false} XorOverOne(column: seq<byte>, t: nat, n: nat)
    requires n <= |column|
    ensures XorOver(column, {t}, n) == if t < n then column[t] else 0
  {
    if n > 0 {
      XorOverOne(column, t, n - 1);
      XorZero(column[n - 1]);
    }
  }

  /** A mixture of one fragment is that fragment. */
  lemma {:induction false} PureIsFragment(message: seq<byte>, f: nat, seqLen: nat, t: nat)
    requires t < seqLen
    ensures Mixed(message, f, {t}, seqLen, f) == Fragment(message, f, t)
  {
    forall k | 0 <= k < f ensures Mixed(message, f, {t}, seqLen, f)[k] == Fragment(message, f, t)[k] {
      XorOverOne(Column(message, f, k, seqLen), t, seqLen);
    }
  }

  // ---------------------------------------------------------------------------
  // Parts
  // ---------------------------------------------------------------------------

  /** What a sender's message is: its bytes, how many fragments, and what numbers its mixtures. */
  datatype Sender = Sender(message: seq<byte>, seqLen: nat, checksum: Checksum, seeder: Seeder) {
    /** Parts can be made, and their numbers fit the header. */
    ghost predicate Ok() {
      0 < seqLen <= MAX_FRAGMENTS && |message| < U32_BOUND
    }

    ghost function FragLen(): nat
      requires 0 < seqLen
    {
      FragmentLen(|message|, seqLen)
    }

    ghost function Header(seqNum: nat): Cbor.Part {
      Cbor.Part(seqNum, seqLen, |message|, checksum(message))
    }

    ghost function ChosenFor(seqNum: nat): set<nat>
      requires 0 < seqNum && 0 < seqLen
    {
      Chosen(seqNum, seqLen, checksum(message), seeder)
    }

    ghost function Data(seqNum: nat): (d: seq<byte>)
      requires 0 < seqNum && 0 < seqLen
      ensures |d| == FragLen()
    {
      Mixed(message, FragLen(), ChosenFor(seqNum), seqLen, FragLen())
    }

    /** The bytes of part `seqNum`, before bytewords. */
    ghost function Body(seqNum: nat): seq<byte>
      requires 0 < seqNum && 0 < seqLen
    {
      Cbor.PartBytes(Header(seqNum), Data(seqNum))
    }
  }

  /** A body holds this many bytes; what does not fit is dropped. */
  const BODY_CAPACITY: nat := 1024

  function Extended(body: seq<byte>, s: seq<byte>): seq<byte> {
    if |body| + |s| <= BODY_CAPACITY then body + s else body
  }

  /** `uint`: shortest form, of the low 32 bits. */
  function UintInto(body: seq<byte>, n: nat): seq<byte> {
    if n < 24 then Extended(body, [n as byte])
    else if n < 0x100 then Extended(body, [24, n as byte])
    else if n < 0x1_0000 then Extended(Extended(body, [25]), ToBe(n, 2))
    else Extended(Extended(body, [26]), ToBe(n % U32_BOUND, 4))
  }

  /** `bytes_header`: shortest form, of the low 16 bits. */
  function BytesHeaderInto(body: seq<byte>, len: nat): seq<byte> {
    if len < 24 then Extended(body, [(0x40 + len) as byte])
    else if len < 0x100 then Extended(body, [0x58, len as byte])
    else Extended(Extended(body, [0x59]), ToBe(len % 0x1_0000, 2))
  }

  lemma {:induction false} UintIntoWrites(body: seq<byte>, n: nat)
    requires n < U32_BOUND && |body| + |Cbor.HeadBytes(Cbor.UINT, n)| <= BODY_CAPACITY
    ensures UintInto(body, n) == body + Cbor.HeadBytes(Cbor.UINT, n)
  {
    OneByte(n);
  }

  lemma {:induction false} BytesHeaderIntoWrites(body: seq<byte>, len: nat)
    requires len < 0x1_0000 && |body| + |Cbor.HeadBytes(Cbor.BYTES, len)| <= BODY_CAPACITY
    ensures BytesHeaderInto(body, len) == body + Cbor.HeadBytes(Cbor.BYTES, len)
  {
    OneByte(len);
  }

  lemma {:induction false} OneByte(n: nat)
    ensures ToBe(n, 0) == [] && (n < 0x100 ==> ToBe(n, 1) == [n as byte])
  {
    assert ToBe(n / 0x100, 0) == [];
  }

  /** The header of a part, as far as it fits. */
  function HeaderInto(p: Cbor.Part, fragment: nat): seq<byte> {
    BytesHeaderInto(UintInto(UintInto(UintInto(UintInto([0x85], p.seqNum), p.seqLen), p.messageLen), p.checksum), fragment)
  }

  lemma {:induction false} ShortHeads(p: Cbor.Part, len: nat)
    requires p.seqNum < U32_BOUND && p.seqLen < U32_BOUND && p.messageLen < U32_BOUND && p.checksum < U32_BOUND && len < 0x1_0000
    ensures |Cbor.HeadBytes(Cbor.UINT, p.seqNum)| <= 5 && |Cbor.HeadBytes(Cbor.UINT, p.seqLen)| <= 5
    ensures |Cbor.HeadBytes(Cbor.UINT, p.messageLen)| <= 5 && |Cbor.HeadBytes(Cbor.UINT, p.checksum)| <= 5
    ensures |Cbor.HeadBytes(Cbor.BYTES, len)| <= 3
  {
  }

  /** As much of some bytes as a body holds. */
  function Cut(s: seq<byte>): seq<byte> {
    if |s| <= BODY_CAPACITY then s else s[..BODY_CAPACITY]
  }

  lemma {:induction false} HeaderIntoWrites(p: Cbor.Part, data: seq<byte>)
    requires p.seqNum < U32_BOUND && p.seqLen < U32_BOUND && p.messageLen < U32_BOUND && p.checksum < U32_BOUND
    requires |data| < 0x1_0000
    ensures HeaderInto(p, |data|) + data == Cbor.PartBytes(p, data) && |HeaderInto(p, |data|)| <= 24
    ensures |HeaderInto(p, |data|)| + |data| == |Cbor.PartBytes(p, data)|
  {
    hide Cbor.HeadBytes, UintInto, BytesHeaderInto;
    var h1, h2 := Cbor.HeadBytes(Cbor.UINT, p.seqNum), Cbor.HeadBytes(Cbor.UINT, p.seqLen);
    var h3, h4 := Cbor.HeadBytes(Cbor.UINT, p.messageLen), Cbor.HeadBytes(Cbor.UINT, p.checksum);
    var h5 := Cbor.HeadBytes(Cbor.BYTES, |data|);
    var b0: seq<byte> := [0x85];
    ShortHeads(p, |data|);
    assert Cbor.PartBytes(p, data) == b0 + h1 + h2 + h3 + h4 + h5 + data;
    UintIntoWrites(b0, p.seqNum);
    UintIntoWrites(b0 + h1, p.seqLen);
    UintIntoWrites(b0 + h1 + h2, p.messageLen);
    UintIntoWrites(b0 + h1 + h2 + h3, p.checksum);
    BytesHeaderIntoWrites(b0 + h1 + h2 + h3 + h4, |data|);
  }

  /** A part is readable exactly when all of it fitted; one that was cut is refused by whoever reads it. */
  lemma {:induction false} CutIsUnreadable(s: Sender, seqNum: nat)
    requires s.Ok() && 0 < seqNum < U32_BOUND && s.FragLen() < 0x1_0000
    ensures Cbor.PartOf(Cut(s.Body(seqNum))).Ok? <==> |s.Body(seqNum)| <= BODY_CAPACITY
    ensures |s.Body(seqNum)| > BODY_CAPACITY ==> Cbor.PartOf(Cut(s.Body(seqNum))) == Err(Cbor.Short)
  {
    hide Cbor.PartOf, Cbor.PartBytes, Sender.Data;
    var p, data, body := s.Header(seqNum), s.Data(seqNum), s.Body(seqNum);
    if |body| <= BODY_CAPACITY {
      Cbor.PartRoundTrip(p, data, body);
    } else {
      HeaderIntoWrites(p, data);
      Cbor.ShortPart(p, data, |data| - (|body| - BODY_CAPACITY), Cut(body));
    }
  }

  /** One byte of a part: every chosen fragment's, XORed. */
  method MixByte(s: Sender, words: seq<nat>, k: nat, ghost chosen: set<nat>) returns (b: byte)
    requires s.Ok() && |words| == BITMAP_WORDS && Members(words) == chosen
    ensures b == XorOver(Column(s.message, s.FragLen(), k, s.seqLen), chosen, s.seqLen)
  {
    hide FragmentLen, Xor, PaddedAt, Column, Has;
    var fragment := FragmentLen(|s.message|, s.seqLen);
    ghost var column := Column(s.message, s.FragLen(), k, s.seqLen);
    b := 0;
    for f := 0 to s.seqLen
      invariant b == XorOver(column, chosen, f)
    {
      assert Has(words, f) <==> f in chosen;
      if Has(words, f) {
        b := Xor(b, PaddedAt(s.message, f * fragment + k));
      }
    }
  }

  /** Append the mixture a byte at a time; what does not fit is dropped. */
  method MixInto(s: Sender, words: seq<nat>, head: seq<byte>, ghost chosen: set<nat>) returns (body: seq<byte>)
    requires s.Ok() && |words| == BITMAP_WORDS && Members(words) == chosen
    ensures |head| <= BODY_CAPACITY ==> body == Cut(head + Mixed(s.message, s.FragLen(), chosen, s.seqLen, s.FragLen()))
  {
    var fragment := FragmentLen(|s.message|, s.seqLen);
    body := head;
    for k := 0 to fragment
      invariant |head| <= BODY_CAPACITY ==> body == Cut(head + Mixed(s.message, fragment, chosen, s.seqLen, k))
    {
      var b := MixByte(s, words, k, chosen);
      ghost var mixed := Mixed(s.message, fragment, chosen, s.seqLen, k);
      assert head + (mixed + [b]) == head + mixed + [b];
      body := Extended(body, [b]);
    }
  }

  /** `part`, as far as its CBOR body: `None` when there is no such part. */
  method Part(s: Sender, seqNum: nat) returns (r: Option<seq<byte>>)
    requires seqNum < U32_BOUND && s.seqLen < U32_BOUND && |s.message| < U32_BOUND
    ensures r.None? <==> s.seqLen == 0 || seqNum == 0 || s.seqLen > MAX_FRAGMENTS
    ensures r.Some? && s.FragLen() < 0x1_0000 ==> r.value == Cut(s.Body(seqNum))
  {
    if s.seqLen == 0 || seqNum == 0 {
      return None;
    }
    var words := ChooseFragments(seqNum, s.seqLen, s.checksum(s.message), s.seeder);
    if words.None? {
      return None;
    }
    var p := Cbor.Part(seqNum, s.seqLen, |s.message|, s.checksum(s.message));
    var head := HeaderInto(p, FragmentLen(|s.message|, s.seqLen));
    if s.FragLen() < 0x1_0000 {
      HeaderIntoWrites(p, s.Data(seqNum));
    }
    var body := MixInto(s, words.value, head, s.ChosenFor(seqNum));
    return Some(body);
  }
}
