/** `jspb.arith.UInt64` and `Int64`: 64-bit arithmetic on two 32-bit halves. */
module UInt64s {
  import opened JsNumbers
  import opened Outcomes
  import opened Decimal

  datatype UInt64 = UInt64(lo: uint32, hi: uint32) {

    function Value(): uint64 {
      hi * 0x1_0000_0000 + lo
    }

    /** The two's complement reading, for `Int64`. */
    function Signed(): int64 {
      if Value() < 0x8000_0000_0000_0000 then Value() else Value() - 0x1_0000_0000_0000_0000
    }

    function Cmp(that: UInt64): (c: int)
      ensures -1 <= c <= 1
      ensures c == -1 <==> Value() < that.Value()
      ensures c == 0 <==> Value() == that.Value()
      ensures c == 1 <==> Value() > that.Value()
    {
      if hi < that.hi || (hi == that.hi && lo < that.lo) then -1
      else if hi == that.hi && lo == that.lo then 0 else 1
    }

    function RightShift(): (r: UInt64)
      ensures r.Value() == Value() / 2
    {
      UInt64(lo / 2 + hi % 2 * 0x8000_0000, hi / 2)
    }

    function LeftShift(): (r: UInt64)
      ensures r.Value() == 2 * Value() % 0x1_0000_0000_0000_0000
    {
      Carry(2 * hi, 2 * lo);
      DoubledWord(hi, lo / 0x8000_0000);
      DivModUnique(2 * lo, lo / 0x8000_0000, 0x1_0000_0000, 2 * (lo % 0x8000_0000));
      UInt64(ToUint32(lo * 2), ToUint32(hi * 2) + lo / 0x8000_0000)
    }

    predicate Msb()
      ensures Msb() <==> Value() >= 0x8000_0000_0000_0000
    {
      hi >= 0x8000_0000
    }

    predicate Zero()
      ensures Zero() <==> Value() == 0
    {
      lo == 0 && hi == 0
    }

    function Add(that: UInt64): (r: UInt64)
      ensures r.Value() == (Value() + that.Value()) % 0x1_0000_0000_0000_0000
    {
      var carry := if 0x1_0000_0000 <= lo + that.lo then 1 else 0;
      assert (lo + that.lo) / 0x1_0000_0000 == carry;
      Carry(hi + that.hi, lo + that.lo);
      WrapsFirst(hi + that.hi, carry);
      assert Value() + that.Value() == (hi + that.hi) * 0x1_0000_0000 + (lo + that.lo);
      UInt64(ToUint32(lo + that.lo),
             ToUint32(ToUint32(hi + that.hi) + carry))
    }

    function Sub(that: UInt64): (r: UInt64)
      ensures r.Value() == (Value() - that.Value()) % 0x1_0000_0000_0000_0000
    {
      var borrow := if lo - that.lo < 0 then 1 else 0;
      assert (lo - that.lo) / 0x1_0000_0000 == -borrow;
      Carry(hi - that.hi, lo - that.lo);
      WrapsFirst(hi - that.hi, -borrow);
      assert Value() - that.Value() == (hi - that.hi) * 0x1_0000_0000 + (lo - that.lo);
      UInt64(ToUint32(lo - that.lo),
             ToUint32(ToUint32(hi - that.hi) - borrow))
    }
  }

  lemma DoubledWord(hi: uint32, bit: nat)
    requires bit < 2
    ensures ToUint32(2 * hi) == 2 * (hi % 0x8000_0000)
    ensures ToUint32(2 * hi + bit) == ToUint32(2 * hi) + bit
  {
    DivModUnique(2 * hi, hi / 0x8000_0000, 0x1_0000_0000, 2 * (hi % 0x8000_0000));
    DivModUnique(2 * hi + bit, hi / 0x8000_0000, 0x1_0000_0000, 2 * (hi % 0x8000_0000) + bit);
  }

  const ZERO: UInt64 := UInt64(0, 0)

  lemma ZeroValue()
    ensures ZERO.Value() == 0
  {
  }

  function Of(n: uint64): (r: UInt64)
    ensures r.Value() == n
  {
    UInt64(n % 0x1_0000_0000, n / 0x1_0000_0000)
  }

  lemma ValueInjective(x: UInt64, y: UInt64)
    requires x.Value() == y.Value()
    ensures x == y
  {
  }

  /** Schoolbook product of two 32-bit numbers through 16-bit halves; every intermediate is exact. */
  method Mul32x32(a: uint32, b: uint32) returns (r: UInt64)
    ensures r.Value() == a * b
  {
    var c, a1 := a % 0x1_0000, a / 0x1_0000;
    var d, e := b % 0x1_0000, b / 0x1_0000;
    MulMono(c, d, 0xFFFF);
    MulMono(c, e, 0xFFFF);
    MulMono(a1, d, 0xFFFF);
    MulMono(a1, e, 0xFFFF);
    var low := c * d + 65536 * (c * e % 0x1_0000) + 65536 * (a1 * d % 0x1_0000);
    var high := a1 * e + c * e / 0x1_0000 + a1 * d / 0x1_0000;
    HalvesProduct(c, a1, d, e);
    Recombine(c * d, c * e, a1 * d, a1 * e);
    assert Exact(low);
    MulMono(a, b, 0xFFFF_FFFF);
    r := CarryOut(low, high, a * b);
  }

  /** The loop that moves multiples of 2^32 from the low word to the high word. */
  method CarryOut(low0: nat, high0: nat, ghost product: uint64) returns (r: UInt64)
    requires high0 * 0x1_0000_0000 + low0 == product
    ensures r.Value() == product
  {
    var low, high := low0, high0;
    while 0x1_0000_0000 <= low
      invariant 0 <= low && 0 <= high
      invariant high * 0x1_0000_0000 + low == product
    {
      low := low - 0x1_0000_0000;
      high := high + 1;
    }
    r := UInt64(ToUint32(low), ToUint32(high));
  }

  /** The four partial products, with the middle ones split at bit 16. */
  lemma Recombine(p0: nat, p1: nat, p2: nat, p3: nat)
    ensures (p3 + p1 / 0x1_0000 + p2 / 0x1_0000) * 0x1_0000_0000
            + p0 + 65536 * (p1 % 0x1_0000) + 65536 * (p2 % 0x1_0000)
            == p3 * 0x1_0000_0000 + (p1 + p2) * 0x1_0000 + p0
  {
  }

  lemma HalvesProduct(c: nat, a: nat, d: nat, e: nat)
    ensures (a * 0x1_0000 + c) * (e * 0x1_0000 + d) ==
            a * e * 0x1_0000_0000 + (c * e + a * d) * 0x1_0000 + c * d
  {
  }

  method Mul(x: UInt64, a: uint32) returns (r: UInt64)
    ensures r.Value() == x.Value() * a % 0x1_0000_0000_0000_0000
  {
    hide UInt64.Add, UInt64.Value;
    var b := Mul32x32(x.lo, a);
    var c := Mul32x32(x.hi, a);
    MulHigh(x, a, b.Value(), c.Value());
    LowMoved(c);
    c := c.(hi := c.lo);
    c := c.(lo := 0);
    r := b.Add(c);
  }

  /** The low half moved up. */
  lemma LowMoved(c: UInt64)
    ensures UInt64(0, c.lo).Value() == c.Value() % 0x1_0000_0000 * 0x1_0000_0000
  {
    DivModUnique(c.Value(), c.hi, 0x1_0000_0000, c.lo);
  }

  lemma HalvesTimes(x: UInt64, a: uint32)
    ensures x.Value() * a == x.hi * a * 0x1_0000_0000 + x.lo * a
  {
    assert x.Value() * a == x.hi * 0x1_0000_0000 * a + x.lo * a;
  }

  lemma MulHigh(x: UInt64, a: uint32, b: nat, p: nat)
    requires b == x.lo * a && p == x.hi * a
    ensures (b + p % 0x1_0000_0000 * 0x1_0000_0000) % 0x1_0000_0000_0000_0000
            == x.Value() * a % 0x1_0000_0000_0000_0000
  {
    HalvesTimes(x, a);
    Wraps(b + p % 0x1_0000_0000 * 0x1_0000_0000, p / 0x1_0000_0000);
  }

  /**
   * Shift-subtract division. The divisor is first shifted until its top bit is
   * set; then each step decides one quotient bit and shifts both back.
   */
  method Div(x: UInt64, a: uint32) returns (r: Option<(UInt64, UInt64)>)
    ensures a == 0 ==> r == None
    ensures a != 0 ==> r.Some? && r.value.0.Value() == x.Value() / a && r.value.1.Value() == x.Value() % a
  {
    if a == 0 {
      return None;
    }
    var d, e, k := AlignDivisor(a);
    var b, c := DivideAligned(x, a, d, e, k);
    DivModUnique(x.Value(), b.Value(), a, c.Value());
    r := Some((b, c));
  }

  /** The first loop of `div`: shift until the divisor's top bit is set. */
  method AlignDivisor(a: uint32) returns (d: UInt64, e: UInt64, ghost k: nat)
    requires a > 0
    ensures d.Value() >= 0x8000_0000_0000_0000
    ensures e.Value() == Pow2(k) && d.Value() == a * Pow2(k)
  {
    hide UInt64.Value, UInt64.Msb, UInt64.LeftShift, Pow2;
    d, e := UInt64(a, 0), UInt64(1, 0);
    LowValue(d);
    LowValue(e);
    Pow2Zero();
    k := 0;
    while !d.Msb()
      invariant e.Value() == Pow2(k) && d.Value() == a * Pow2(k)
      decreases 0x1_0000_0000_0000_0000 - d.Value()
    {
      ShiftFits(a, k);
      d, e := d.LeftShift(), e.LeftShift();
      k := k + 1;
    }
  }

  /** The second loop: one quotient bit a turn. */
  method DivideAligned(x: UInt64, a: uint32, d0: UInt64, e0: UInt64, ghost k: nat) returns (b: UInt64, c: UInt64)
    requires a > 0 && d0.Value() >= 0x8000_0000_0000_0000
    requires e0.Value() == Pow2(k) && d0.Value() == a * Pow2(k)
    ensures x.Value() == b.Value() * a + c.Value() && c.Value() < a
  {
    hide UInt64.Value, UInt64.Add, UInt64.Sub, UInt64.Cmp, UInt64.Zero, UInt64.RightShift, DivInvariant;
    b, c := ZERO, UInt64(x.lo, x.hi);
    var d, e := d0, e0;
    ZeroValue();
    ghost var left: nat := k + 1;
    DivStart(a, k, d.Value(), e.Value(), x.Value());
    while !e.Zero()
      invariant DivInvariant(b.Value(), c.Value(), d.Value(), e.Value(), a, left, x.Value())
      decreases left
    {
      DivStep(b, c, d, e, a, left, x.Value());
      if 0 >= d.Cmp(c) {
        b := b.Add(e);
        c := c.Sub(d);
      }
      d, e := d.RightShift(), e.RightShift();
      left := left - 1;
    }
    DivEnd(b.Value(), c.Value(), d.Value(), a, left, x.Value());
  }

  /**
   * With `left` quotient bits to go, the divisor stands shifted by left-1 bits,
   * `e` is the quotient bit it decides, and the remainder is below twice the
   * shifted divisor.
   */
  ghost predicate DivInvariant(b: nat, c: nat, d: nat, e: nat, a: nat, left: nat, x: nat) {
    a > 0 && b * a + c == x &&
    if left == 0 then e == 0 && c < a
    else e == Pow2(left - 1) && d == a * Pow2(left - 1) && c < 2 * d
  }

  lemma DivStart(a: nat, k: nat, d: nat, e: nat, x: uint64)
    requires a > 0 && e == Pow2(k) && d == a * Pow2(k) && d >= 0x8000_0000_0000_0000
    ensures DivInvariant(0, x, d, e, a, k + 1, x)
  {
    hide Pow2;
  }

  lemma DivStep(b: UInt64, c: UInt64, d: UInt64, e: UInt64, a: nat, left: nat, x: uint64)
    requires DivInvariant(b.Value(), c.Value(), d.Value(), e.Value(), a, left, x) && e.Value() != 0
    ensures left > 0
    ensures var d', e' := d.RightShift(), e.RightShift();
            if 0 >= d.Cmp(c)
            then DivInvariant(b.Add(e).Value(), c.Sub(d).Value(), d'.Value(), e'.Value(), a, left - 1, x)
            else DivInvariant(b.Value(), c.Value(), d'.Value(), e'.Value(), a, left - 1, x)
  {
    hide UInt64.Value, UInt64.Add, UInt64.Sub, UInt64.Cmp, UInt64.RightShift, Pow2;
    HalfShift(a, left - 1);
    if 0 >= d.Cmp(c) {
      SubtractStep(b, c, d, e, a, left - 1, x);
    }
  }

  lemma DivEnd(b: nat, c: nat, d: nat, a: nat, left: nat, x: nat)
    requires a > 0 && DivInvariant(b, c, d, 0, a, left, x)
    ensures x == b * a + c && c < a
  {
    hide Pow2;
  }

  lemma Pow2Zero()
    ensures Pow2(0) == 1
  {
  }

  lemma ShiftFits(a: nat, k: nat)
    requires a > 0 && a * Pow2(k) < 0x8000_0000_0000_0000
    ensures Pow2(k) < 0x8000_0000_0000_0000 && Pow2(k + 1) == 2 * Pow2(k) && a * Pow2(k + 1) == 2 * (a * Pow2(k))
    ensures a * Pow2(k) > 0
  {
    assert a * Pow2(k) >= Pow2(k);
  }

  /** Halving the divisor and the quotient bit; the divisor is even until the last bit. */
  lemma HalfShift(a: nat, k: nat)
    ensures Pow2(k) / 2 == if k == 0 then 0 else Pow2(k - 1)
    ensures k > 0 ==> a * Pow2(k) / 2 == a * Pow2(k - 1) && 2 * (a * Pow2(k) / 2) == a * Pow2(k)
    ensures k == 0 ==> a * Pow2(k) == a
  {
    if k > 0 {
      assert a * Pow2(k) == 2 * (a * Pow2(k - 1));
    }
  }

  /** Taking the shifted divisor off the remainder once: nothing wraps. */
  lemma SubtractStep(b: UInt64, c: UInt64, d: UInt64, e: UInt64, a: nat, k: nat, x: uint64)
    requires a > 0 && e.Value() == Pow2(k) && d.Value() == a * Pow2(k)
    requires b.Value() * a + c.Value() == x && d.Value() <= c.Value() < 2 * d.Value()
    ensures b.Add(e).Value() * a + c.Sub(d).Value() == x
    ensures c.Sub(d).Value() < d.Value()
  {
    hide UInt64.Value, UInt64.Add, UInt64.Sub, Pow2;
    QuotientFits(b.Value(), e.Value(), a, c.Value(), d.Value(), x);
    assert b.Add(e).Value() == b.Value() + e.Value();
    assert c.Sub(d).Value() == c.Value() - d.Value();
  }

  lemma QuotientFits(b: nat, e: nat, a: nat, c: nat, d: nat, x: uint64)
    requires a > 0 && b * a + c == x && d == a * e && d <= c
    ensures b + e < 0x1_0000_0000_0000_0000 && c < 0x1_0000_0000_0000_0000
    ensures (b + e) * a + (c - d) == x
  {
    assert (b + e) * a == b * a + e * a;
    MulMono(b + e, 1, a);
    MulMono(b, 0, a);
  }

  lemma SmallValue(x: UInt64)
    requires x.Value() < 0x1_0000_0000
    ensures x.lo == x.Value()
  {
  }

  /** Repeated division by ten, digits put in front. */
  method ToString(x: UInt64) returns (a: string)
    ensures a == Dec(x.Value()) && Spells(a, x.Value())
  {
    hide Dec, Dec0, UInt64.Value, Spells;
    DecSpells(x.Value(), Dec(x.Value()));
    a := "";
    var b := x;
    Dec0Step(x.Value());
    while !b.Zero()
      invariant Dec0(b.Value()) + a == Dec0(x.Value())
      decreases b.Value()
    {
      var qr := Div(b, 10);
      Dec0Step(b.Value());
      SmallValue(qr.value.1);
      a := Dec(qr.value.1.lo) + a;
      b := qr.value.0;
    }
    assert "" + a == a;
    if "" == a {
      a := "0";
    }
  }

  /** None stands for null: some character is no digit. Larger numerals wrap. */
  method FromString(a: string) returns (r: Option<UInt64>)
    ensures r.None? <==> !AllDigits(a)
    ensures r.None? <==> !DigitCodes(a)
    ensures r.Some? ==> r.value.Value() == Parse(a) % 0x1_0000_0000_0000_0000
    ensures r.Some? ==> r.value.Value() == PlaceValue(a) % 0x1_0000_0000_0000_0000
  {
    hide UInt64.Add, UInt64.Value, Parse, DigitValue, DigitCodes, PlaceValue;
    DigitsAreCodes(a);
    var b := ZERO;
    var c := ZERO;
    ZeroValue();
    assert a[..0] == [];
    ParseEmpty();
    for d := 0 to |a|
      invariant AllDigits(a[..d]) && b.Value() == Parse(a[..d]) % 0x1_0000_0000_0000_0000
      invariant c.hi == 0
    {
      if a[d] < '0' || '9' < a[d] {
        assert !IsDigit(a[d]);
        return None;
      }
      var e := DigitValue(a[d]);
      c := c.(lo := e);
      LowValue(c);
      ParseStep(a, d);
      ghost var n := Parse(a[..d]);
      var b10 := Mul(b, 10);
      b := b10.Add(c);
      Accumulate(n, e);
      assert Parse(a[..d + 1]) == 10 * n + e;
    }
    assert a[..|a|] == a;
    ParseIsPlaceValue(a);
    r := Some(b);
  }

  lemma LowValue(c: UInt64)
    requires c.hi == 0
    ensures c.Value() == c.lo
  {
  }

  lemma Accumulate(n: nat, e: nat)
    ensures (n % 0x1_0000_0000_0000_0000 * 10 % 0x1_0000_0000_0000_0000 + e) % 0x1_0000_0000_0000_0000
            == (10 * n + e) % 0x1_0000_0000_0000_0000
  {
    var m := 0x1_0000_0000_0000_0000;
    var t := n % m * 10;
    Wraps(t % m + e, t / m);
    Wraps(t + e, n / m * 10);
  }

  lemma SignedCases(x: UInt64)
    ensures x.Msb() ==> x.Signed() == x.Value() - 0x1_0000_0000_0000_0000 && x.Signed() < 0
    ensures !x.Msb() ==> x.Signed() == x.Value()
  {
  }

  method Int64ToString(x: UInt64) returns (s: string)
    ensures s == SignedDec(x.Signed()) && SpellsSigned(s, x.Signed())
  {
    hide UInt64.Sub, UInt64.Value, UInt64.Signed, UInt64.Msb, Dec, Spells, SpellsSigned;
    SignedDecSpells(x.Signed(), SignedDec(x.Signed()));
    var a := x.Msb();
    ZeroValue();
    SignedCases(x);
    var b := UInt64(x.lo, x.hi);
    NegWraps(x.Value());
    if a {
      b := ZERO.Sub(b);
    }
    s := ToString(b);
    assert "" + s == s;
    s := (if a then "-" else "") + s;
  }

  /** The magnitude and sign of an optionally signed numeral. */
  predicate SignedNumeral(s: string) {
    AllDigits(if s != [] && s[0] == '-' then s[1..] else s)
  }

  function SignedParse(s: string): int
    requires SignedNumeral(s)
  {
    if s != [] && s[0] == '-' then 0 - Parse(s[1..]) else Parse(s)
  }

  /** Digits behind at most one minus sign. */
  predicate SignedCodes(s: string) {
    DigitCodes(if s != "" && s[0] as int == 45 then s[1..] else s)
  }

  function SignedPlaceValue(s: string): int {
    if s != "" && s[0] as int == 45 then -PlaceValue(s[1..]) else PlaceValue(s)
  }

  lemma SignedNumeralCodes(s: string)
    ensures SignedNumeral(s) <==> SignedCodes(s)
    ensures SignedNumeral(s) ==> SignedParse(s) == SignedPlaceValue(s)
  {
    hide Parse, PlaceValue, AllDigits, DigitCodes;
    var digits := if s != "" && s[0] == '-' then s[1..] else s;
    DigitsAreCodes(digits);
    if AllDigits(digits) {
      ParseIsPlaceValue(digits);
    }
  }

  method Int64FromString(s: string) returns (r: Option<UInt64>)
    ensures r.None? <==> !SignedNumeral(s)
    ensures r.Some? ==> r.value.Value() == SignedParse(s) % 0x1_0000_0000_0000_0000
    ensures r.None? <==> !SignedCodes(s)
    ensures r.Some? ==> r.value.Value() == SignedPlaceValue(s) % 0x1_0000_0000_0000_0000
  {
    hide UInt64.Sub, UInt64.Value, Parse, DigitCodes, SignedCodes, PlaceValue, SignedPlaceValue;
    SignedNumeralCodes(s);
    ZeroValue();
    var b := 0 < |s| && s[0] == '-';
    var a := if b then s[1..] else s;
    r := FromString(a);
    if r == None {
      return None;
    }
    NegWraps(Parse(a));
    if b {
      r := Some(ZERO.Sub(r.value));
    }
  }

  /** Every signed 64-bit number, -2^63 included, survives printing and parsing. */
  lemma SignedRoundTrip(x: UInt64)
    ensures var s := SignedDec(x.Signed());
            SignedNumeral(s) && SignedParse(s) == x.Signed() && SignedParse(s) % 0x1_0000_0000_0000_0000 == x.Value()
  {
    hide Dec, Parse, UInt64.Value;
    var v: int := x.Signed();
    SignedResidue(x);
    if v < 0 {
      ParseOfDec(-v);
      assert SignedDec(v)[1..] == Dec(-v);
    } else {
      ParseOfDec(v);
      assert IsDigit(Dec(v)[0]);
    }
  }

  lemma SignedResidue(x: UInt64)
    ensures x.Signed() % 0x1_0000_0000_0000_0000 == x.Value()
  {
    hide UInt64.Value;
    var v: int := x.Signed();
    DivModUnique(v, if v < 0 then -1 else 0, 0x1_0000_0000_0000_0000, x.Value());
  }

  /** An optional minus sign and a canonical numeral, but not minus zero. */
  predicate SignedCanonical(s: string) {
    if s != [] && s[0] == '-' then Canonical(s[1..]) && s[1..] != "0" else Canonical(s)
  }

  /** Printing a parsed signed numeral gives it back exactly when it is canonical and in range. */
  lemma {:induction false} SignedReprint(s: string)
    requires SignedNumeral(s)
    ensures SignedDec(Of(SignedParse(s) % 0x1_0000_0000_0000_0000).Signed()) == s <==>
            SignedCanonical(s) && -0x8000_0000_0000_0000 <= SignedParse(s) < 0x8000_0000_0000_0000
  {
    hide Dec, Parse, Canonical, UInt64.Value;
    var n := SignedParse(s);
    var v: int := Of(n % 0x1_0000_0000_0000_0000).Signed();
    SignedResidue(Of(n % 0x1_0000_0000_0000_0000));
    SameResidue(n, v);
    if SignedDec(v) == s {
      SignedDecParses(v);
    }
    if v == n {
      SignedDecOfParse(s);
    }
  }

  /** Two numbers of the signed range with the same residue are the same number. */
  lemma SameResidue(n: int, v: int64)
    requires v % 0x1_0000_0000_0000_0000 == n % 0x1_0000_0000_0000_0000
    ensures v == n <==> -0x8000_0000_0000_0000 <= n < 0x8000_0000_0000_0000
  {
    if -0x8000_0000_0000_0000 <= n < 0x8000_0000_0000_0000 {
      ResidueOf(n);
      ResidueOf(v);
    }
  }

  lemma ResidueOf(v: int64)
    ensures v % 0x1_0000_0000_0000_0000 == if v < 0 then v + 0x1_0000_0000_0000_0000 else v
  {
    if v < 0 {
      DivModUnique(v, -1, 0x1_0000_0000_0000_0000, v + 0x1_0000_0000_0000_0000);
    } else {
      DivModUnique(v, 0, 0x1_0000_0000_0000_0000, v);
    }
  }

  lemma SignedDecParses(v: int)
    ensures SignedNumeral(SignedDec(v)) && SignedParse(SignedDec(v)) == v && SignedCanonical(SignedDec(v))
  {
    hide Dec, Parse, Canonical;
    if v < 0 {
      ParseOfDec(-v);
      assert SignedDec(v)[1..] == Dec(-v);
      assert Dec(-v)[0] != '0';
    } else {
      ParseOfDec(v);
      assert IsDigit(Dec(v)[0]);
    }
  }

  lemma SignedDecOfParse(s: string)
    requires SignedNumeral(s)
    ensures SignedDec(SignedParse(s)) == s <==> SignedCanonical(s)
  {
    hide Dec, Parse, Canonical;
    var n := SignedParse(s);
    SignedDecParses(n);
    if SignedCanonical(s) {
      if s != [] && s[0] == '-' {
        DecOfParse(s[1..]);
        ParseOfDec(Parse(s[1..]));
        ZeroNumeral();
        assert s == "-" + s[1..];
      } else {
        DecOfParse(s);
      }
    }
  }

  lemma ZeroNumeral()
    ensures Dec(0) == "0"
  {
  }

  /** Printing a parsed numeral gives it back exactly when it is canonical and in range. */
  lemma {:induction false} UnsignedReprint(s: string)
    requires AllDigits(s)
    ensures Dec(Parse(s) % 0x1_0000_0000_0000_0000) == s <==> Canonical(s) && Parse(s) < 0x1_0000_0000_0000_0000
  {
    hide Dec, Parse, Canonical;
    var n := Parse(s);
    DecOfParse(s);
    ParseOfDec(n % 0x1_0000_0000_0000_0000);
    if Dec(n % 0x1_0000_0000_0000_0000) == s {
      assert n == n % 0x1_0000_0000_0000_0000;
    }
  }
}
