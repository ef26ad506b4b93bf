/** Bytes, and the little-endian 32-bit words a Cortex-M keeps in them. */
module Bytes {
  newtype byte = x: int | 0 <= x < 256

  const U32_BOUND: nat := 0x1_0000_0000
  const U64_BOUND: nat := 0x1_0000_0000_0000_0000

  function Pow256(n: nat): (p: nat)
    ensures p > 0
  {
    if n == 0 then 1 else 0x100 * Pow256(n - 1)
  }

  /** The number whose little-endian bytes are `s`. */
  function FromLe(s: seq<byte>): (n: nat)
    ensures n < Pow256(|s|)
  {
    if s == [] then 0 else s[0] as nat + 0x100 * FromLe(s[1..])
  }

  /** The `width` little-endian bytes of `n`. */
  function ToLe(n: nat, width: nat): (s: seq<byte>)
    ensures |s| == width
  {
    if width == 0 then [] else [(n % 0x100) as byte] + ToLe(n / 0x100, width - 1)
  }

  lemma {:induction false} FromToLe(n: nat, width: nat)
    requires n < Pow256(width)
    ensures FromLe(ToLe(n, width)) == n
  {
    if width > 0 {
      FromToLe(n / 0x100, width - 1);
      assert ToLe(n, width)[1..] == ToLe(n / 0x100, width - 1);
    }
  }

  lemma Pow256Four()
    ensures Pow256(4) == U32_BOUND
    ensures Pow256(8) == U64_BOUND
  {
    assert Pow256(4) == 0x100 * (0x100 * Pow256(2));
    assert Pow256(8) == 0x100 * (0x100 * (0x100 * (0x100 * Pow256(4))));
  }

  /** The word whose four bytes start at `a`. */
  function Word(m: seq<byte>, a: nat): (w: nat)
    requires a + 4 <= |m|
    ensures w < U32_BOUND
  {
    Pow256Four();
    FromLe(m[a..a + 4])
  }

  /** Write the word `w` at `a`: it reads back, and no byte outside the word changes. */
  method StoreWord(m: array<byte>, a: nat, w: nat)
    requires a + 4 <= m.Length && w < U32_BOUND
    modifies m
    ensures Word(m[..], a) == w
    ensures forall i :: 0 <= i < m.Length && !(a <= i < a + 4) ==> m[i] == old(m[i])
    ensures forall b: nat :: b + 4 <= m.Length && (b + 4 <= a || a + 4 <= b) ==> Word(m[..], b) == old(Word(m[..], b))
  {
    var s := ToLe(w, 4);
    m[a], m[a + 1], m[a + 2], m[a + 3] := s[0], s[1], s[2], s[3];
    assert m[..][a..a + 4] == s;
    Pow256Four();
    FromToLe(w, 4);
    forall b: nat | b + 4 <= m.Length && (b + 4 <= a || a + 4 <= b) ensures Word(m[..], b) == old(Word(m[..], b)) {
      SameBytesSameWord(m[..], old(m[..]), b);
    }
  }

  /** Read the word at `a`. */
  method LoadWord(m: array<byte>, a: nat) returns (w: nat)
    requires a + 4 <= m.Length
    ensures w == Word(m[..], a)
  {
    assert m[..][a..a + 4] == m[a..a + 4];
    w := FromLe(m[a..a + 4]);
  }

  /** Two memories that agree on a word's bytes agree on the word. */
  lemma {:induction false} SameBytesSameWord(m: seq<byte>, n: seq<byte>, a: nat)
    requires |m| == |n| && a + 4 <= |m|
    requires forall i :: a <= i < a + 4 ==> m[i] == n[i]
    ensures Word(m, a) == Word(n, a)
  {
    assert m[a..a + 4] == n[a..a + 4];
  }

  /** The number whose big-endian bytes are `s`. */
  function FromBe(s: seq<byte>): (n: nat)
    ensures n < Pow256(|s|)
  {
    if s == [] then 0 else 0x100 * FromBe(s[..|s| - 1]) + s[|s| - 1] as nat
  }

  /** The `width` big-endian bytes of `n`. */
  function ToBe(n: nat, width: nat): (s: seq<byte>)
    ensures |s| == width
  {
    if width == 0 then [] else ToBe(n / 0x100, width - 1) + [(n % 0x100) as byte]
  }

  lemma {:induction false} FromToBe(n: nat, width: nat)
    requires n < Pow256(width)
    ensures FromBe(ToBe(n, width)) == n
  {
    if width > 0 {
      FromToBe(n / 0x100, width - 1);
      assert ToBe(n, width)[..width - 1] == ToBe(n / 0x100, width - 1);
    }
  }
}
