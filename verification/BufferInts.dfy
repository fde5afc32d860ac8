/**
 * Buffer's `writeIntLE`/`writeIntBE` and `readIntLE`/`readIntBE`: two's complement
 * integers of one to six bytes, written with truncating division and a borrow.
 */
module BufferInts {
  import opened JsNumbers
  import opened Outcomes
  import opened LittleEndians

  /** `(x / m) >> 0`: the quotient truncated toward zero, as an int32. */
  function TruncatedQuotient(x: int, m: nat): int32
    requires m > 0
  {
    ToInt32(if x >= 0 then x / m else -(-x / m))
  }

  /** The half of the range that has the sign bit clear. */
  function Limit(n: nat): nat
    requires n >= 1
  {
    Pow256(n - 1) * 128
  }

  predicate InRange(v: int, n: nat)
    requires n >= 1
  {
    0 - Limit(n) <= v < Limit(n)
  }

  /** The number bytes denote in two's complement. */
  function SignedOf(s: seq<byte>): int
    requires s != []
  {
    if LittleEndian(s) >= Limit(|s|) then LittleEndian(s) - Pow256(|s|) else LittleEndian(s)
  }

  function Reverse(s: seq<byte>): (r: seq<byte>)
    ensures |r| == |s| && forall i :: 0 <= i < |s| ==> r[i] == s[|s| - 1 - i]
  {
    seq(|s|, i requires 0 <= i < |s| => s[|s| - 1 - i])
  }

  /** Truncation and a borrow of one when anything was cut off make floor division. */
  lemma BorrowedDigit(v: int, k: nat, sub: nat)
    requires sub == if v < 0 && v % Pow256(k) != 0 then 1 else 0
    ensures (TruncatedQuotient(v, Pow256(k)) - sub) % 256 == DigitAt(v, k)
  {
    var m := Pow256(k);
    var t := if v >= 0 then v / m else -(-v / m);
    if v < 0 {
      NegatedDivision(-v, m);
    }
    assert t - sub == v / m;
    LowByteOfInt32(t, sub);
  }

  lemma NegatedDivision(u: nat, m: nat)
    requires m > 0
    ensures (0 - u) / m == 0 - u / m - (if u % m != 0 then 1 else 0)
    ensures (0 - u) % m == 0 <==> u % m == 0
  {
    if u % m == 0 {
      DivModUnique(0 - u, 0 - u / m, m, 0);
    } else {
      assert (0 - u / m - 1) * m == 0 - u / m * m - m;
      DivModUnique(0 - u, 0 - u / m - 1, m, m - u % m);
    }
  }

  lemma LowByteOfInt32(t: int, sub: int)
    ensures (ToInt32(t) - sub) % 256 == (t - sub) % 256
  {
    var d := (t - ToInt32(t)) / 0x1_0000_0000;
    assert t == ToInt32(t) + d * 0x1_0000_0000;
    DivModUnique(t - sub, (ToInt32(t) - sub) / 256 + d * 0x100_0000, 256, (ToInt32(t) - sub) % 256);
  }

  /** The borrow is raised once, by the first nonzero byte. */
  lemma BorrowRaised(v: int, k: nat)
    ensures v % Pow256(k + 1) != 0 <==> v % Pow256(k) != 0 || DigitAt(v, k) != 0
  {
    NextRemainder(v, k);
    assert DigitAt(v, k) > 0 ==> Pow256(k) * DigitAt(v, k) > 0;
  }

  /** `checkInt`: the value and the offset must fit, or nothing is written. */
  predicate CheckInt(value: int, offset: nat, byteLength: nat, length: nat)
    requires byteLength >= 1
  {
    InRange(value, byteLength) && offset + byteLength <= length
  }

  /** `mul *= 0x100`. */
  method NextPower(mul: nat, ghost k: nat) returns (r: nat)
    requires mul == Pow256(k)
    ensures r == Pow256(k + 1) && r > 0
  {
    r := mul * 256;
  }

  /** The loop body of both writers: `mul *= 0x100`, the borrow, and the next digit. */
  method NextDigit(value: int, ghost k: nat, mul0: nat, sub0: nat, previous: byte)
      returns (mul: nat, sub: nat, digit: byte)
    requires mul0 == Pow256(k) && previous == DigitAt(value, k)
    requires sub0 == if value < 0 && value % Pow256(k) != 0 then 1 else 0
    ensures mul == Pow256(k + 1) && digit == DigitAt(value, k + 1)
    ensures sub == if value < 0 && value % Pow256(k + 1) != 0 then 1 else 0
  {
    hide Pow256, DigitAt, TruncatedQuotient;
    mul := NextPower(mul0, k);
    sub := sub0;
    BorrowRaised(value, k);
    if value < 0 && sub == 0 && previous != 0 {
      sub := 1;
    }
    BorrowedDigit(value, k + 1, sub);
    digit := (TruncatedQuotient(value, mul) - sub) % 256;
  }

  method WriteIntLE(buf: array<byte>, value: int, offset: nat, byteLength: nat) returns (r: Outcome<nat>)
    requires 1 <= byteLength <= 6
    modifies buf
    ensures !CheckInt(value, offset, byteLength, buf.Length) ==> r == Throws && buf[..] == old(buf[..])
    ensures CheckInt(value, offset, byteLength, buf.Length) ==>
              r == Ok(offset + byteLength) &&
              buf[..] == old(buf[..offset]) + Digits(value, byteLength) + old(buf[offset + byteLength..])
  {
    if !CheckInt(value, offset, byteLength, buf.Length) {
      return Throws;
    }
    hide Pow256, DigitAt, CheckInt;
    FirstDigit(value);
    var i, mul, sub := 1, 1, 0;
    buf[offset] := value % 256;
    while i < byteLength
      invariant 1 <= i <= byteLength && mul == Pow256(i - 1)
      invariant sub == if value < 0 && value % Pow256(i - 1) != 0 then 1 else 0
      invariant forall j :: 0 <= j < i ==> buf[offset + j] == DigitAt(value, j)
      invariant forall j :: 0 <= j < offset || offset + byteLength <= j < buf.Length ==> buf[j] == old(buf[j])
    {
      var digit;
      mul, sub, digit := NextDigit(value, i - 1, mul, sub, buf[offset + i - 1]);
      buf[offset + i] := digit;
      i := i + 1;
    }
    r := Ok(offset + byteLength);
  }

  method WriteIntBE(buf: array<byte>, value: int, offset: nat, byteLength: nat) returns (r: Outcome<nat>)
    requires 1 <= byteLength <= 6
    modifies buf
    ensures !CheckInt(value, offset, byteLength, buf.Length) ==> r == Throws && buf[..] == old(buf[..])
    ensures CheckInt(value, offset, byteLength, buf.Length) ==>
              r == Ok(offset + byteLength) &&
              buf[..] == old(buf[..offset]) + Reverse(Digits(value, byteLength)) + old(buf[offset + byteLength..])
  {
    if !CheckInt(value, offset, byteLength, buf.Length) {
      return Throws;
    }
    hide Pow256, DigitAt, Reverse, CheckInt;
    FirstDigit(value);
    var i, mul, sub := byteLength - 1, 1, 0;
    ghost var last := offset + byteLength - 1;
    buf[offset + i] := value % 256;
    while i > 0
      invariant 0 <= i < byteLength && mul == Pow256(byteLength - 1 - i)
      invariant sub == if value < 0 && value % Pow256(byteLength - 1 - i) != 0 then 1 else 0
      invariant forall j :: 0 <= j < byteLength - i ==> buf[last - j] == DigitAt(value, j)
      invariant forall j :: 0 <= j < offset || offset + byteLength <= j < buf.Length ==> buf[j] == old(buf[j])
    {
      ghost var k := byteLength - 1 - i;
      assert buf[offset + i] == buf[last - k];
      i := i - 1;
      var digit;
      mul, sub, digit := NextDigit(value, k, mul, sub, buf[offset + i + 1]);
      buf[offset + i] := digit;
    }
    BigEndianWritten(buf[..], old(buf[..]), value, offset, byteLength);
    r := Ok(offset + byteLength);
  }

  lemma BigEndianWritten(now: seq<byte>, was: seq<byte>, value: int, offset: nat, n: nat)
    requires n >= 1 && offset + n <= |was| == |now|
    requires forall j :: 0 <= j < n ==> now[offset + n - 1 - j] == DigitAt(value, j)
    requires forall j :: 0 <= j < offset || offset + n <= j < |was| ==> now[j] == was[j]
    ensures now == was[..offset] + Reverse(Digits(value, n)) + was[offset + n..]
  {
    hide DigitAt;
    var r := Reverse(Digits(value, n));
    forall j | 0 <= j < n ensures now[offset + j] == r[j] {
      assert now[offset + n - 1 - (n - 1 - j)] == DigitAt(value, n - 1 - j);
    }
  }

  lemma FirstDigit(v: int)
    ensures DigitAt(v, 0) == v % 256 && Pow256(0) == 1 && v % Pow256(0) == 0
  {
  }

  method ReadIntLE(buf: array<byte>, offset: nat, byteLength: nat) returns (r: Outcome<int>)
    requires 1 <= byteLength <= 6
    ensures offset + byteLength > buf.Length ==> r == Throws
    ensures offset + byteLength <= buf.Length ==> r == Ok(SignedOf(buf[offset..offset + byteLength]))
  {
    if offset + byteLength > buf.Length {
      return Throws;
    }
    hide Pow256, LittleEndian, SignedOf;
    var val: int, i, mul := buf[offset], 1, 1;
    SingleByte(buf[offset]);
    ghost var s := buf[offset..offset + byteLength];
    assert s[..1] == [buf[offset]];
    while i < byteLength
      invariant 1 <= i <= byteLength && mul == Pow256(i - 1)
      invariant val >= 0 && val == LittleEndian(s[..i])
    {
      mul := NextPower(mul, i - 1);
      NextByte(s, i, mul);
      assert s[i] == buf[offset + i];
      val := val + buf[offset + i] * mul;
      i := i + 1;
    }
    assert s[..byteLength] == s;
    val := ToSigned(val, mul, byteLength, s);
    r := Ok(val);
  }

  /** `mul *= 0x80`, and values from there on are negative. */
  method ToSigned(val: nat, mul: nat, byteLength: nat, ghost s: seq<byte>) returns (r: int)
    requires 1 <= byteLength == |s| && val == LittleEndian(s) && mul == Pow256(byteLength - 1)
    ensures r == SignedOf(s)
  {
    r := val;
    if val >= mul * 0x80 {
      r := val - Pow256(byteLength);
    }
  }

  method ReadIntBE(buf: array<byte>, offset: nat, byteLength: nat) returns (r: Outcome<int>)
    requires 1 <= byteLength <= 6
    ensures offset + byteLength > buf.Length ==> r == Throws
    ensures offset + byteLength <= buf.Length ==> r == Ok(SignedOf(Reverse(buf[offset..offset + byteLength])))
  {
    if offset + byteLength > buf.Length {
      return Throws;
    }
    hide Pow256, LittleEndian, Reverse, SignedOf;
    ghost var s := Reverse(buf[offset..offset + byteLength]);
    var i, mul := byteLength - 1, 1;
    var val: int := buf[offset + i];
    SingleByte(buf[offset + i]);
    assert s[..1] == [buf[offset + i]];
    while i > 0
      invariant 0 <= i < byteLength && mul == Pow256(byteLength - 1 - i)
      invariant val >= 0 && val == LittleEndian(s[..byteLength - i])
    {
      ghost var k := byteLength - i;
      mul := NextPower(mul, k - 1);
      i := i - 1;
      NextByte(s, k, mul);
      assert s[k] == buf[offset + i];
      val := val + buf[offset + i] * mul;
    }
    assert s[..byteLength] == s;
    val := ToSigned(val, mul, byteLength, s);
    r := Ok(val);
  }

  lemma NextByte(s: seq<byte>, k: nat, mul: nat)
    requires k < |s| && mul == Pow256(k)
    ensures LittleEndian(s[..k + 1]) == LittleEndian(s[..k]) + s[k] * mul
  {
    hide LittleEndian;
    LittleEndianAppend(s[..k], s[k]);
    assert s[..k + 1] == s[..k] + [s[k]];
  }

  lemma SingleByte(b: byte)
    ensures LittleEndian([b]) == b && Pow256(0) == 1
  {
    assert [b][1..] == [];
  }

  /** Every integer in range is the two's complement reading of its digits. */
  lemma SignedOfDigits(v: int, n: nat)
    requires n >= 1 && InRange(v, n)
    ensures SignedOf(Digits(v, n)) == v
  {
    DigitsValue(v, n);
    var p := Pow256(n);
    assert p == 2 * Limit(n);
    if v >= 0 {
      DivModUnique(v, 0, p, v);
    } else {
      DivModUnique(v, -1, p, v + p);
    }
  }

  /** Reading undoes writing in both byte orders, and the other bytes stay. */
  method RoundTrip(buf: array<byte>, value: int, offset: nat, byteLength: nat)
      returns (le: Outcome<int>, be: Outcome<int>)
    requires 1 <= byteLength <= 6 && CheckInt(value, offset, byteLength, buf.Length)
    modifies buf
    ensures le == be == Ok(value)
  {
    SignedOfDigits(value, byteLength);
    var n := WriteIntLE(buf, value, offset, byteLength);
    assert buf[offset..offset + byteLength] == Digits(value, byteLength);
    le := ReadIntLE(buf, offset, byteLength);
    n := WriteIntBE(buf, value, offset, byteLength);
    assert buf[offset..offset + byteLength] == Reverse(Digits(value, byteLength));
    assert Reverse(buf[offset..offset + byteLength]) == Digits(value, byteLength);
    be := ReadIntBE(buf, offset, byteLength);
  }

  // ---- the ranges by their numbers ----

  lemma Powers()
    ensures Pow256(0) == 1 && Pow256(1) == 0x100 && Pow256(2) == 0x1_0000 && Pow256(3) == 0x100_0000
    ensures Pow256(4) == 0x1_0000_0000 && Pow256(5) == 0x100_0000_0000 && Pow256(6) == 0x1_0000_0000_0000
  {
    assert Pow256(2) == 256 * Pow256(1) && Pow256(3) == 256 * Pow256(2) && Pow256(4) == 256 * Pow256(3);
    assert Pow256(5) == 256 * Pow256(4) && Pow256(6) == 256 * Pow256(5);
  }

  /** What is written is what the bytes can hold and the buffer has room for. */
  lemma WhatIsWritten(v: int, offset: nat, length: nat)
    ensures CheckInt(v, offset, 1, length) <==> -0x80 <= v <= 0x7F && offset + 1 <= length
    ensures CheckInt(v, offset, 2, length) <==> -0x8000 <= v <= 0x7FFF && offset + 2 <= length
    ensures CheckInt(v, offset, 3, length) <==> -0x80_0000 <= v <= 0x7F_FFFF && offset + 3 <= length
    ensures CheckInt(v, offset, 4, length) <==> -0x8000_0000 <= v <= 0x7FFF_FFFF && offset + 4 <= length
    ensures CheckInt(v, offset, 5, length) <==> -0x80_0000_0000 <= v <= 0x7F_FFFF_FFFF && offset + 5 <= length
    ensures CheckInt(v, offset, 6, length) <==> -0x8000_0000_0000 <= v <= 0x7FFF_FFFF_FFFF && offset + 6 <= length
  {
    Powers();
    hide Pow256;
  }

  /** By places, the first byte the lowest. */
  function Places(s: seq<byte>, k: nat): nat
    requires k <= |s|
  {
    if k == 0 then 0 else Places(s, k - 1) + s[k - 1] * Pow256(k - 1)
  }

  lemma {:induction false} LittleEndianIsPlaces(s: seq<byte>, k: nat)
    requires k <= |s|
    ensures LittleEndian(s[..k]) == Places(s, k)
  {
    if k > 0 {
      hide LittleEndian;
      LittleEndianIsPlaces(s, k - 1);
      assert s[..k] == s[..k - 1] + [s[k - 1]];
      LittleEndianAppend(s[..k - 1], s[k - 1]);
    } else {
      assert s[..0] == [];
    }
  }

  lemma HighestByte(b: byte, p: nat, low: nat)
    requires low < p
    ensures low + b * p >= p * 128 <==> b >= 128
  {
    if b >= 128 {
      MulMono(p, 128, b);
    } else {
      MulMono(p, b, 127);
    }
  }

  /** What is read: the places, less a power of 256 when the highest byte has its top bit set. */
  lemma WhatIsRead(s: seq<byte>)
    requires s != []
    ensures SignedOf(s) == Places(s, |s|) - if s[|s| - 1] >= 128 then Pow256(|s|) else 0
  {
    var n := |s| - 1;
    LittleEndianIsPlaces(s, |s|);
    LittleEndianIsPlaces(s, n);
    assert s[..|s|] == s;
    LittleEndianBound(s[..n]);
    HighestByte(s[n], Pow256(n), Places(s, n));
  }

  /** What is written, byte by byte: the k-th 256-digit of the number, floored for negative ones. */
  lemma DigitsAreBytes(v: int, n: nat)
    ensures n >= 1 ==> Digits(v, n)[0] == v % 0x100
    ensures n >= 2 ==> Digits(v, n)[1] == v / 0x100 % 0x100
    ensures n >= 3 ==> Digits(v, n)[2] == v / 0x1_0000 % 0x100
    ensures n >= 4 ==> Digits(v, n)[3] == v / 0x100_0000 % 0x100
    ensures n >= 5 ==> Digits(v, n)[4] == v / 0x1_0000_0000 % 0x100
    ensures n >= 6 ==> Digits(v, n)[5] == v / 0x100_0000_0000 % 0x100
  {
    Powers();
    hide Pow256;
  }
}
