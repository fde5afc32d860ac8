/**
 * `jspb.utils`: 64-bit numbers as pairs of 32-bit halves, as JavaScript
 * numbers, as zigzag codes, as decimal strings and as 8-byte hashes.
 */
module Split64 {
  import opened JsNumbers
  import opened Decimal
  import opened UInt64s

  /** `splitInt64`: two's complement of the magnitude, halves carried by hand. */
  function SplitInt64(x: real): UInt64 {
    var m := if x < 0.0 then -x else x;
    var c := ToUint32(m.Floor);
    var a := ToUint32(((m - c as real) / 4294967296.0).Floor);
    if x >= 0.0 then UInt64(c, a)
    else
      var a' := 0xFFFF_FFFF - a;
      var c' := 0xFFFF_FFFF - c + 1;
      var a'': int := if a' + 1 > 0xFFFF_FFFF then 0 else a' + 1;
      if c' > 0xFFFF_FFFF then UInt64(0, a'') else UInt64(c', a')
  }

  /** The integer part. */
  function Trunc(x: real): int {
    if x < 0.0 then 0 - (-x).Floor else x.Floor
  }

  lemma TruncatesTowardZero(x: real)
    ensures x >= 0.0 ==> Trunc(x) as real <= x < Trunc(x) as real + 1.0
    ensures x < 0.0 ==> Trunc(x) as real - 1.0 < x <= Trunc(x) as real
  {
  }

  lemma HighHalf(m: real)
    requires m >= 0.0
    ensures ((m - ToUint32(m.Floor) as real) / 4294967296.0).Floor == m.Floor / 0x1_0000_0000
  {
    var q, c := m.Floor / 0x1_0000_0000, m.Floor % 0x1_0000_0000;
    assert m.Floor == q * 0x1_0000_0000 + c;
    assert m.Floor as real == q as real * 4294967296.0 + c as real;
    assert q as real <= (m - c as real) / 4294967296.0 < q as real + 1.0;
  }

  lemma MagnitudeHalves(n: nat)
    ensures UInt64(n % 0x1_0000_0000, n / 0x1_0000_0000 % 0x1_0000_0000).Value() == n % 0x1_0000_0000_0000_0000
  {
    Carry(n / 0x1_0000_0000, n % 0x1_0000_0000);
  }

  /** The complemented halves with the carry are the negated number. */
  lemma NegatedHalves(x: real)
    requires x < 0.0
    ensures var y := SplitInt64(-x).Value();
            SplitInt64(x).Value() == if y == 0 then 0 else 0x1_0000_0000_0000_0000 - y
  {
  }

  lemma SplitMagnitude(m: real)
    requires m >= 0.0
    ensures SplitInt64(m).Value() == m.Floor % 0x1_0000_0000_0000_0000
  {
    HighHalf(m);
    hide UInt64.Value;
    MagnitudeHalves(m.Floor);
  }

  /** For every number, whatever its size: the integer part modulo 2^64. */
  lemma SplitMeaning(x: real)
    ensures SplitInt64(x).Value() == Trunc(x) % 0x1_0000_0000_0000_0000
  {
    hide SplitInt64, UInt64.Value;
    if x < 0.0 {
      SplitMagnitude(-x);
      NegatedHalves(x);
      NegWraps((-x).Floor);
      NegWraps(SplitInt64(-x).Value());
    } else {
      SplitMagnitude(x);
    }
  }

  /** `joinInt64`: the number itself, exact when it is within 2^53. */
  function JoinInt64(x: UInt64): (v: int)
    ensures v == x.Signed()
  {
    if x.hi >= 0x8000_0000 then
      var lo := ToUint32(0xFFFF_FFFF - x.lo + 1);
      var hi := 0xFFFF_FFFF - x.hi;
      var hi' := if lo == 0 then ToUint32(hi + 1) else hi;
      -(hi' * 0x1_0000_0000 + lo)
    else x.hi * 0x1_0000_0000 + x.lo
  }

  /** Splitting and joining are inverse on every signed 64-bit number. */
  lemma SplitJoin(v: int64)
    ensures JoinInt64(SplitInt64(v as real)) == v
  {
    hide SplitInt64, JoinInt64, UInt64.Value;
    SplitMeaning(v as real);
    assert Trunc(v as real) == v;
    if v < 0 {
      DivModUnique(v, -1, 0x1_0000_0000_0000_0000, v + 0x1_0000_0000_0000_0000);
    } else {
      DivModUnique(v, 0, 0x1_0000_0000_0000_0000, v);
    }
  }

  // ---- zigzag ----

  /** `x ^ mask` for a mask that is all zeros or all ones. */
  function XorMask(x: uint32, ones: bool): uint32 {
    if ones then 0xFFFF_FFFF - x else x
  }

  function ToZigzag64(x: UInt64): UInt64 {
    var d := x.hi >= 0x8000_0000;
    UInt64(XorMask(ToUint32(x.lo * 2), d),
           XorMask(ToUint32(x.hi * 2) + x.lo / 0x8000_0000, d))
  }

  function FromZigzag64(x: UInt64): UInt64 {
    var d := x.lo % 2 == 1;
    UInt64(XorMask(x.lo / 2 + x.hi % 2 * 0x8000_0000, d), XorMask(x.hi / 2, d))
  }

  function Code(v: int): nat {
    if v >= 0 then 2 * v else -2 * v - 1
  }

  function Decode(c: nat): int {
    if c % 2 == 0 then c / 2 else -(c / 2) - 1
  }

  lemma CodeDecodes(v: int)
    ensures Decode(Code(v)) == v
  {
  }

  lemma DecodeCodes(c: nat)
    ensures Code(Decode(c)) == c
  {
  }

  /** The zigzag code of v is 2v, or -2v-1 for negative v: small magnitudes get small codes. */
  lemma ZigzagMeaning(x: UInt64)
    ensures ToZigzag64(x).Value() == Code(x.Signed())
    ensures ToZigzag64(x).Value() == if x.Signed() >= 0 then 2 * x.Signed() else -2 * x.Signed() - 1
  {
    hide ToZigzag64, UInt64.LeftShift, UInt64.Value, XorMask;
    ZigzagWords(x);
    Flipped(x.LeftShift());
    Doubled(x);
  }

  /** The zigzag words are those of the shifted number, flipped for a negative one. */
  lemma ZigzagWords(x: UInt64)
    ensures var y, d := x.LeftShift(), x.Signed() < 0;
            ToZigzag64(x) == UInt64(XorMask(y.lo, d), XorMask(y.hi, d))
  {
    hide XorMask;
    assert x.Msb() <==> x.hi >= 0x8000_0000;
  }

  lemma Flipped(x: UInt64)
    ensures UInt64(XorMask(x.lo, true), XorMask(x.hi, true)).Value() == 0xFFFF_FFFF_FFFF_FFFF - x.Value()
    ensures UInt64(XorMask(x.lo, false), XorMask(x.hi, false)) == x
  {
  }

  lemma Doubled(x: UInt64)
    ensures 2 * x.Value() % 0x1_0000_0000_0000_0000 ==
            if x.Signed() >= 0 then 2 * x.Signed() else 0x1_0000_0000_0000_0000 + 2 * x.Signed()
  {
    hide UInt64.Value;
    if x.Signed() < 0 {
      DivModUnique(2 * x.Value(), 1, 0x1_0000_0000_0000_0000, 2 * x.Value() - 0x1_0000_0000_0000_0000);
    } else {
      DivModUnique(2 * x.Value(), 0, 0x1_0000_0000_0000_0000, 2 * x.Value());
    }
  }

  lemma ZigzagBack(x: UInt64)
    ensures FromZigzag64(x).Signed() == Decode(x.Value())
  {
    assert x.Value() % 2 == x.lo % 2;
    assert x.RightShift().Value() == x.Value() / 2;
  }

  /** Zigzag encoding is a bijection on the 64-bit numbers. */
  lemma ZigzagRoundTrip(x: UInt64)
    ensures FromZigzag64(ToZigzag64(x)) == x
    ensures ToZigzag64(FromZigzag64(x)) == x
  {
    hide ToZigzag64, FromZigzag64, UInt64.Value, UInt64.Signed, Code, Decode;
    ZigzagMeaning(x);
    ZigzagBack(ToZigzag64(x));
    CodeDecodes(x.Signed());
    SignedInjective(FromZigzag64(ToZigzag64(x)), x);
    ZigzagBack(x);
    ZigzagMeaning(FromZigzag64(x));
    DecodeCodes(x.Value());
    ValueInjective(ToZigzag64(FromZigzag64(x)), x);
  }

  lemma SignedInjective(x: UInt64, y: UInt64)
    requires x.Signed() == y.Signed()
    ensures x == y
  {
  }

  // ---- the fast decimal printer ----

  /** The inner function of the printer: seven digits when something stands before them. */
  function Part(a: nat, padded: bool): string {
    var s := Dec0(a);
    if padded && |s| <= 7 then seq(7 - |s|, _ => '0') + s else s
  }

  /**
   * `joinUnsignedDecimalString`: the number is cut at bits 24 and 48, and the
   * three parts are turned into base-10^7 digits with 2^24 = 1|6777216 and
   * 2^48 = 2|8147497|6710656.
   */
  function JoinUnsignedDecimalString(x: UInt64): string {
    if x.hi <= 2097151 then Dec(x.hi * 0x1_0000_0000 + x.lo)
    else
      var (b, d, a) := Base1e7(x);
      Part(b, false) + Part(d, b != 0) + Part(a, true)
  }

  function Base1e7(x: UInt64): (r: (nat, nat, nat))
    ensures Exact(r.0) && Exact(r.1) && Exact(r.2)
    ensures r.1 < 1_0000000 && r.2 < 1_0000000
    ensures r.0 * 1_0000000_0000000 + r.1 * 1_0000000 + r.2 == x.Value()
  {
    var mid := (x.lo / 0x100_0000 + x.hi * 256) % 0x100_0000;
    var top := x.hi / 0x1_0000;
    assert x.Value() == top * 0x1_0000_0000_0000 + mid * 0x100_0000 + x.lo % 0x100_0000 by {
      MiddleBits(x.lo, x.hi);
    }
    var a := x.lo % 0x100_0000 + 6777216 * mid + 6710656 * top;
    var d := mid + 8147497 * top;
    var b := 2 * top;
    assert Exact(6777216 * mid) && Exact(6710656 * top) && Exact(a) && Exact(8147497 * top) && Exact(d);
    var d' := d + a / 1_0000000;
    (b + d' / 1_0000000, d' % 1_0000000, a % 1_0000000)
  }

  lemma MiddleBits(lo: uint32, hi: uint32)
    ensures (lo / 0x100_0000 + hi * 256) % 0x100_0000 == lo / 0x100_0000 + hi % 0x1_0000 * 256
  {
    DivModUnique(lo / 0x100_0000 + hi * 256, hi / 0x1_0000, 0x100_0000, lo / 0x100_0000 + hi % 0x1_0000 * 256);
  }

  /** A part below 10^7 that is padded is exactly its seven digits. */
  lemma PartIsPadded(a: nat)
    requires a < 1_0000000
    ensures Part(a, true) == Padded(a, 7)
  {
    Pow10Seven();
    PaddedIsZerosThenDec(a, 7);
  }

  lemma Pow10Seven()
    ensures Pow10(7) == 1_0000000
  {
    assert Pow10(4) == 10000;
    assert Pow10(5) == 10 * Pow10(4) && Pow10(6) == 10 * Pow10(5) && Pow10(7) == 10 * Pow10(6);
  }

  /** The fast printer gives the string of repeated division by ten. */
  lemma {:induction false} FastIsSlow(x: UInt64)
    ensures JoinUnsignedDecimalString(x) == Dec(x.Value()) && Spells(JoinUnsignedDecimalString(x), x.Value())
  {
    hide Spells;
    DecSpells(x.Value(), Dec(x.Value()));
    if x.hi > 2097151 {
      hide Dec, Part, UInt64.Value, Base1e7;
      var (b, d, a) := Base1e7(x);
      TopPartNonzero(x);
      CutAtSeven(b, d);
      CutAtSeven(b * 1_0000000 + d, a);
      PartUnpadded(b);
    }
  }

  /** A numeral cut before its last seven digits. */
  lemma CutAtSeven(high: nat, low: nat)
    requires high > 0 && low < 1_0000000
    ensures Dec(high * 1_0000000 + low) == Dec(high) + Part(low, true)
  {
    hide Dec, Part, Padded, Pow10;
    Pow10Seven();
    PartIsPadded(low);
    DecSplit(high, low, 7);
  }

  lemma PartUnpadded(b: nat)
    requires b > 0
    ensures Part(b, false) == Dec(b)
  {
    hide Dec;
  }

  lemma TopPartNonzero(x: UInt64)
    requires x.hi > 2097151
    ensures Base1e7(x).0 > 0
  {
    hide Base1e7;
    assert x.Value() >= 9007199254740992;
  }

  function JoinSignedDecimalString(x: UInt64): string {
    if x.hi >= 0x8000_0000 then
      var lo := ToUint32(0xFFFF_FFFF - x.lo + 1);
      var hi := ToUint32(0xFFFF_FFFF - x.hi + (if lo == 0 then 1 else 0));
      "-" + JoinUnsignedDecimalString(UInt64(lo, hi))
    else JoinUnsignedDecimalString(x)
  }

  lemma {:induction false} FastSignedIsSlow(x: UInt64)
    ensures JoinSignedDecimalString(x) == SignedDec(x.Signed()) && SpellsSigned(JoinSignedDecimalString(x), x.Signed())
  {
    hide JoinUnsignedDecimalString, Dec, Spells, SpellsSigned;
    SignedDecSpells(x.Signed(), SignedDec(x.Signed()));
    if x.hi >= 0x8000_0000 {
      var lo := ToUint32(0xFFFF_FFFF - x.lo + 1);
      var hi := ToUint32(0xFFFF_FFFF - x.hi + (if lo == 0 then 1 else 0));
      assert JoinInt64(x) == 0 - UInt64(lo, hi).Value();
      FastIsSlow(UInt64(lo, hi));
    } else {
      FastIsSlow(x);
    }
  }
}
