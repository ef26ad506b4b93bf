/**
 The variable-length integers of a 7-Zip header: the leading one-bits of the first byte count the
 bytes that follow, the bits below the first zero are the value's highest.
 */
module SevenZipNumbers {
  import opened Bytes

  function Pow2(n: nat): (p: nat)
    ensures p > 0
  {
    if n == 0 then 1 else 2 * Pow2(n - 1)
  }

  lemma {:induction false} Pow2Add(a: nat, b: nat)
    ensures Pow2(a + b) == Pow2(a) * Pow2(b)
  {
    if a > 0 {
      Pow2Add(a - 1, b);
    }
  }

  lemma {:induction false} Pow256IsPow2(k: nat)
    ensures Pow256(k) == Pow2(8 * k)
  {
    if k > 0 {
      Pow256IsPow2(k - 1);
      Pow2Add(8, 8 * (k - 1));
      assert Pow2(8) == 0x100;
    }
  }

  lemma {:induction false} FromLeSnoc(s: seq<byte>, b: byte)
    ensures FromLe(s + [b]) == FromLe(s) + b as nat * Pow256(|s|)
  {
    if s == [] {
      assert s + [b] == [b];
      assert FromLe([b][1..]) == 0;
    } else {
      FromLeSnoc(s[1..], b);
      assert (s + [b])[1..] == s[1..] + [b];
      PlacesRegroup(s[0] as nat, FromLe(s[1..]), b as nat, Pow256(|s| - 1));
    }
  }

  /** `k` one-bits at the top of a byte. */
  function Top(k: nat): nat
    requires k <= 8
  {
    Pow2Small();
    0x100 - Pow2(8 - k)
  }

  /** How many one-bits a byte starts with. */
  function LeadingOnes(b: byte): (k: nat)
    ensures k <= 8
  {
    if b < 0x80 then 0 else if b < 0xC0 then 1 else if b < 0xE0 then 2 else if b < 0xF0 then 3
    else if b < 0xF8 then 4 else if b < 0xFC then 5 else if b < 0xFE then 6 else if b < 0xFF then 7 else 8
  }

  /** A byte has `k` leading ones exactly when it is between `Top(k)` and `Top(k + 1)`. */
  lemma {:induction false} LeadingOnesIs(b: byte, k: nat)
    requires k <= 8 && Top(k) <= b as nat && (k < 8 ==> (b as nat) < Top(k + 1))
    ensures LeadingOnes(b) == k
  {
    Pow2Small();
  }

  lemma {:induction false} Pow2Small()
    ensures Pow2(0) == 1 && Pow2(1) == 2 && Pow2(2) == 4 && Pow2(3) == 8 && Pow2(4) == 16 && Pow2(5) == 32 && Pow2(6) == 64
    ensures Pow2(7) == 128 && Pow2(8) == 256
  {
  }

  // ---------------------------------------------------------------------------
  // Reading
  // ---------------------------------------------------------------------------

  /** The value of a number with first byte `first` and extra bytes `extra`. */
  function ValueOf(first: byte, extra: seq<byte>): (v: nat)
    requires |extra| == LeadingOnes(first)
  {
    FromLe(extra) + HighBits(first) * Pow256(|extra|)
  }

  /** The bits of the first byte below its first zero. */
  function HighBits(first: byte): (h: nat)
    ensures LeadingOnes(first) < 8 ==> h < Pow2(7 - LeadingOnes(first))
    ensures LeadingOnes(first) == 8 ==> h == 0
  {
    Pow2Small();
    first as nat - Top(LeadingOnes(first))
  }

  /** What a number of `k` extra bytes can hold. */
  lemma {:induction false} ValueBound(first: byte, extra: seq<byte>)
    requires |extra| == LeadingOnes(first)
    ensures |extra| < 8 ==> ValueOf(first, extra) < Limit(|extra|)
    ensures ValueOf(first, extra) < U64_BOUND
  {
    var k := |extra|;
    Pow256IsPow2(k);
    Pow256Four();
    if k < 8 {
      Pow2Add(8 * k, 7 - k);
      BelowProduct(FromLe(extra), HighBits(first), Pow256(k), Pow2(7 - k));
      Pow2Grows(7 * k + 7, 64);
      Pow256IsPow2(8);
    }
  }

  lemma BelowProduct(r: nat, q: nat, p: nat, n: nat)
    requires r < p && q < n
    ensures r + q * p < p * n
  {
    assert (q + 1) * p <= n * p;
  }

  lemma {:induction false} Pow2Grows(a: nat, b: nat)
    requires a <= b
    ensures Pow2(a) <= Pow2(b)
  {
    Pow2Add(a, b - a);
    assert Pow2(a) * 1 <= Pow2(a) * Pow2(b - a);
  }

  // ---------------------------------------------------------------------------
  // Writing
  // ---------------------------------------------------------------------------

  /** `1 << (7 * (k + 1))`: what `k` extra bytes can hold, for `k` less than eight. */
  function Limit(k: nat): nat {
    Pow2(7 * (k + 1))
  }

  /** How many extra bytes the shortest form of `v` has, `k` being too few or enough. */
  function WidthFrom(v: nat, k: nat): (w: nat)
    requires k <= 8
    ensures k <= w <= 8
    ensures w < 8 ==> v < Limit(w)
    decreases 8 - k
  {
    if k == 8 || v < Limit(k) then k else WidthFrom(v, k + 1)
  }

  lemma {:induction false} WidthIsLeast(v: nat, k: nat, j: nat)
    requires k <= j < 8 && v < Limit(j)
    ensures WidthFrom(v, k) <= j
    decreases 8 - k
  {
    hide Limit;
    if k < j {
      WidthIsLeast(v, k + 1, j);
    }
  }

  /** `v >> (8 * k)` */
  function Shifted(v: nat, k: nat): nat {
    if k == 0 then v else Shifted(v / 0x100, k - 1)
  }

  /** The low bytes and the rest make up the number. */
  lemma {:induction false} LowAndHigh(v: nat, k: nat)
    ensures FromLe(ToLe(v, k)) + Shifted(v, k) * Pow256(k) == v
  {
    if k > 0 {
      LowAndHigh(v / 0x100, k - 1);
      var low := ToLe(v / 0x100, k - 1);
      assert ToLe(v, k)[1..] == low;
      PlacesRegroup(v % 0x100, FromLe(low), Shifted(v / 0x100, k - 1), Pow256(k - 1));
    }
  }

  lemma PlacesRegroup(r: nat, f: nat, s: nat, p: nat)
    ensures r + 0x100 * (f + s * p) == (r + 0x100 * f) + s * (0x100 * p)
  {
  }

  lemma {:induction false} HighFits(v: nat, k: nat)
    requires k < 8 && v < Limit(k)
    ensures Shifted(v, k) < Pow2(7 - k)
    ensures Top(k) + Shifted(v, k) < Top(k + 1)
  {
    Pow256IsPow2(k);
    Pow2Add(8 * k, 7 - k);
    LowAndHigh(v, k);
    QuotientBelow(Shifted(v, k), Pow256(k), Pow2(7 - k));
    assert Pow2(8 - k) == 2 * Pow2(7 - k);
  }

  lemma TimesGrows(p: nat, a: nat, b: nat)
    requires a <= b
    ensures p * a <= p * b
  {
  }

  lemma QuotientBelow(q: nat, p: nat, n: nat)
    requires q * p < p * n
    ensures q < n
  {
    if n <= q {
      TimesGrows(p, n, q);
    }
  }

  /** The first byte of `v` with `k` extra bytes. */
  function FirstByte(v: nat, k: nat): (b: byte)
    requires k <= 8 && (k < 8 ==> v < Limit(k))
  {
    if k == 8 then 0xFF else
      HighFits(v, k);
      Pow2Small();
      (Top(k) + Shifted(v, k)) as byte
  }

  /** The shortest form of `v`. */
  function NumberBytes(v: nat): (s: seq<byte>)
    ensures 1 <= |s| <= 9
  {
    var k := WidthFrom(v, 0);
    [FirstByte(v, k)] + ToLe(v, k)
  }

  lemma {:induction false} FirstByteCounts(v: nat, k: nat)
    requires k <= 8 && (k < 8 ==> v < Limit(k))
    ensures LeadingOnes(FirstByte(v, k)) == k
    ensures HighBits(FirstByte(v, k)) == if k == 8 then 0 else Shifted(v, k)
  {
    Pow2Small();
    if k < 8 {
      HighFits(v, k);
      LeadingOnesIs(FirstByte(v, k), k);
    }
  }

  /** Reading what was written gives the number back. */
  lemma {:induction false} NumberRoundTrip(v: nat)
    requires v < U64_BOUND
    ensures var s := NumberBytes(v);
            |s| == 1 + LeadingOnes(s[0]) && ValueOf(s[0], s[1..]) == v
  {
    hide Pow2, Pow256, FromLe, ToLe, WidthFrom, Shifted;
    var k := WidthFrom(v, 0);
    FirstByteCounts(v, k);
    if k == 8 {
      Pow256Four();
      FromToLe(v, 8);
    } else {
      LowAndHigh(v, k);
    }
  }

  /** No other form of a number is shorter than the one written. */
  lemma {:induction false} WrittenIsShortest(first: byte, extra: seq<byte>)
    requires |extra| == LeadingOnes(first)
    ensures |NumberBytes(ValueOf(first, extra))| <= 1 + |extra|
  {
    ValueBound(first, extra);
    if |extra| < 8 {
      WidthIsLeast(ValueOf(first, extra), 0, |extra|);
    }
  }

  /** The first half of `write_number`: how many extra bytes, and the byte that says so. */
  method WriteFirst(v: nat) returns (first: byte, extra: nat)
    requires v < U64_BOUND
    ensures extra == WidthFrom(v, 0) && first == FirstByte(v, extra)
  {
    hide Pow2, Pow256, Limit, Top, WidthFrom, Shifted, FirstByte;
    var lead, mask: nat := 0, 0x80;
    extra := 0;
    TopNone();
    while extra < 8
      invariant extra <= 8 && lead == Top(extra)
      invariant extra < 8 ==> mask == Pow2(7 - extra)
      invariant WidthFrom(v, 0) == WidthFrom(v, extra)
    {
      TopNext(v, extra);
      if v < Limit(extra) {
        FirstByteIs(v, extra);
        return (lead + Shifted(v, extra)) as byte, extra;
      }
      lead := lead + mask;
      mask := mask / 2;
      extra := extra + 1;
    }
    first := 0xFF;
    AllOnes(v);
  }

  lemma {:induction false} FirstByteIs(v: nat, k: nat)
    requires k < 8 && v < Limit(k)
    ensures Top(k) + Shifted(v, k) == FirstByte(v, k) as nat
  {
    HighFits(v, k);
    Pow2Small();
  }

  lemma {:induction false} TopNone()
    ensures Top(0) == 0 && Pow2(7) == 0x80
  {
    Pow2Small();
  }

  lemma {:induction false} TopNext(v: nat, k: nat)
    requires k < 8
    ensures Top(k + 1) == Top(k) + Pow2(7 - k) && Top(k + 1) <= 0xFF
    ensures k < 7 ==> Pow2(7 - k) / 2 == Pow2(6 - k)
    ensures WidthFrom(v, k) == if v < Limit(k) then k else WidthFrom(v, k + 1)
  {
    assert Pow2(8 - k) == 2 * Pow2(7 - k);
    assert k < 7 ==> Pow2(7 - k) == 2 * Pow2(6 - k);
  }

  lemma {:induction false} AllOnes(v: nat)
    ensures Top(8) == 0xFF && WidthFrom(v, 8) == 8 && FirstByte(v, 8) == 0xFF
  {
  }

  /** `write_number` */
  method WriteNumber(v: nat) returns (s: seq<byte>)
    requires v < U64_BOUND
    ensures s == NumberBytes(v)
  {
    hide FirstByte, WidthFrom;
    var first, extra := WriteFirst(v);
    s := [first];
    var value := v;
    for i := 0 to extra
      invariant |s| == 1 + i && s + ToLe(value, extra - i) == [first] + ToLe(v, extra)
    {
      LowByteFirst(s, value, extra - i);
      s := s + [(value % 0x100) as byte];
      value := value / 0x100;
    }
    assert ToLe(value, 0) == [];
  }

  lemma {:induction false} LowByteFirst(s: seq<byte>, value: nat, width: nat)
    requires width > 0
    ensures s + [(value % 0x100) as byte] + ToLe(value / 0x100, width - 1) == s + ToLe(value, width)
  {
  }
}
