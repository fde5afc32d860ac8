/**
 * Base 128 varints as byte strings: the reference encoding, and what the two
 * readers of js/bundle.js make of an arbitrary input.
 */
module Varints {
  import opened JsNumbers
  import opened Outcomes

  /** Seven bits a byte, least significant first; all bytes but the last have the top bit. */
  function Encode(n: nat): (s: seq<byte>)
    ensures |s| >= 1
  {
    if n < 128 then [n] else [n % 128 + 128] + Encode(n / 128)
  }

  /** Negative numbers are sign-extended to 64 bits. */
  function EncodeSigned(v: int64): seq<byte> {
    Encode(if v >= 0 then v else v + 0x1_0000_0000_0000_0000)
  }

  /** The length of the varint at the front of `s`, if its last byte is there. */
  function Width(s: seq<byte>): (w: Option<nat>)
    ensures w.Some? ==> 1 <= w.value <= |s| && s[w.value - 1] < 128
    ensures w.Some? ==> forall i :: 0 <= i < w.value - 1 ==> s[i] >= 128
    ensures w.None? ==> forall i :: 0 <= i < |s| ==> s[i] >= 128
  {
    if s == [] then None
    else if s[0] < 128 then Some(1)
    else match Width(s[1..])
      case None => None
      case Some(w) =>
        assert forall i :: 1 <= i < w ==> s[i] == s[1..][i - 1];
        Some(w + 1)
  }

  /** The payload bits of `s`, whatever their top bits say. */
  function Value(s: seq<byte>): nat {
    if s == [] then 0 else s[0] % 128 + 128 * Value(s[1..])
  }

  /**
   * What `readUnsignedVarint32` returns at the front of `s`, with the number of
   * bytes it consumes: unsigned up to five bytes, signed for six to ten.
   */
  function Read32(s: seq<byte>): (r: Outcome<(int, nat)>)
    ensures !r.Backward?
    ensures r.Ok? ==> 1 <= r.value.1 <= |s| && -0x8000_0000 <= r.value.0 < 0x1_0000_0000
  {
    match Width(s)
    case None => Throws
    case Some(w) =>
      if w > 10 then Throws
      else if w <= 5 then Ok((ToUint32(Value(s[..w])), w))
      else Ok((ToInt32(Value(s[..w])), w))
  }

  /** What `readSplitVarint64` returns, as one 64-bit number. */
  function Read64(s: seq<byte>): (r: Outcome<(uint64, nat)>)
    ensures !r.Backward?
    ensures r.Ok? ==> 1 <= r.value.1 <= |s|
  {
    match Width(s)
    case None => Throws
    case Some(w) => if w > 10 then Throws else Ok((Value(s[..w]) % 0x1_0000_0000_0000_0000, w))
  }

  lemma {:induction false} WidthOfEncode(n: nat, rest: seq<byte>)
    ensures Width(Encode(n) + rest) == Some(|Encode(n)|)
  {
    var s := Encode(n) + rest;
    if n >= 128 {
      WidthOfEncode(n / 128, rest);
      assert s[1..] == Encode(n / 128) + rest;
    }
  }

  lemma {:induction false} ValueOfEncode(n: nat)
    ensures Value(Encode(n)) == n
  {
    if n >= 128 {
      ValueOfEncode(n / 128);
      assert Encode(n)[1..] == Encode(n / 128);
    } else {
      assert Encode(n)[1..] == [];
    }
  }

  function Pow128(k: nat): (p: nat)
    ensures p > 0
  {
    if k == 0 then 1 else 128 * Pow128(k - 1)
  }

  /** A number takes k bytes exactly when it lies in the k-th band of 128-powers. */
  lemma {:induction false} EncodeLength(n: nat, k: nat)
    requires k >= 1
    ensures |Encode(n)| <= k <==> n < Pow128(k)
  {
    if k == 1 {
      assert Pow128(1) == 128 * Pow128(0);
    } else if n >= 128 {
      EncodeLength(n / 128, k - 1);
      assert n / 128 < Pow128(k - 1) <==> n < 128 * Pow128(k - 1);
    } else {
      assert Pow128(k - 1) >= 1;
    }
  }

  lemma Pow128Values()
    ensures Pow128(1) == 0x80 && Pow128(2) == 0x4000 && Pow128(3) == 0x20_0000
    ensures Pow128(4) == 0x1000_0000 && Pow128(5) == 0x8_0000_0000
    ensures Pow128(9) == 0x8000_0000_0000_0000 && Pow128(10) == 128 * 0x8000_0000_0000_0000
  {
    assert Pow128(6) == 128 * Pow128(5);
    assert Pow128(7) == 128 * Pow128(6);
    assert Pow128(8) == 128 * Pow128(7);
  }

  /** The reader hands back the number, consuming exactly the bytes of its encoding. */
  lemma ReadsBack32(n: uint32, rest: seq<byte>)
    ensures Read32(Encode(n) + rest) == Ok((n, |Encode(n)|))
  {
    hide Encode, Width, Value, Pow128;
    WidthOfEncode(n, rest);
    ValueOfEncode(n);
    Pow128Values();
    EncodeLength(n, 5);
    assert (Encode(n) + rest)[..|Encode(n)|] == Encode(n);
  }

  lemma ReadsBack64(n: uint64, rest: seq<byte>)
    ensures Read64(Encode(n) + rest) == Ok((n, |Encode(n)|))
    ensures |Encode(n)| <= 10
  {
    hide Encode, Width, Value, Pow128;
    WidthOfEncode(n, rest);
    ValueOfEncode(n);
    LengthOf64(n);
    DivModUnique(n, 0, 0x1_0000_0000_0000_0000, n);
    assert (Encode(n) + rest)[..|Encode(n)|] == Encode(n);
  }

  lemma LengthOf64(n: uint64)
    ensures |Encode(n)| <= 10
  {
    hide Encode, Pow128;
    Pow128Values();
    EncodeLength(n, 10);
  }

  /**
   * A sign-extended int32 is read back by the 32-bit reader as itself, and by
   * the 64-bit reader as its two's complement; both consume all its bytes, ten
   * of them when it is negative.
   */
  lemma SignedReadsBack(v: int32, rest: seq<byte>)
    ensures Read32(EncodeSigned(v) + rest) == Ok((v, |EncodeSigned(v)|))
    ensures Read64(EncodeSigned(v) + rest) == Ok((v % 0x1_0000_0000_0000_0000, |EncodeSigned(v)|))
    ensures v < 0 ==> |EncodeSigned(v)| == 10
  {
    hide Encode, Width, Value;
    if v >= 0 {
      DivModUnique(v, 0, 0x1_0000_0000_0000_0000, v);
      ReadsBack64(v, rest);
      ReadsBack32(v, rest);
    } else {
      var n := v + 0x1_0000_0000_0000_0000;
      DivModUnique(v, -1, 0x1_0000_0000_0000_0000, n);
      DivModUnique(n, 0xFFFF_FFFF, 0x1_0000_0000, v + 0x1_0000_0000);
      NegativeWidth(n);
      ReadsBack64(n, rest);
      WidthOfEncode(n, rest);
      ValueOfEncode(n);
      assert (Encode(n) + rest)[..10] == Encode(n);
    }
  }

  lemma NegativeWidth(n: uint64)
    requires n >= 0x8000_0000_0000_0000
    ensures |Encode(n)| == 10
  {
    Pow128Values();
    EncodeLength(n, 9);
    EncodeLength(n, 10);
  }

  /** One more byte adds its seven bits above those already read. */
  lemma {:induction false} ValueAppend(s: seq<byte>, b: byte)
    ensures Value(s + [b]) == Value(s) + (b % 128) * Pow128(|s|)
  {
    if s == [] {
      assert (s + [b])[1..] == [];
    } else {
      ValueAppend(s[1..], b);
      assert (s + [b])[1..] == s[1..] + [b];
      assert 128 * ((b % 128) * Pow128(|s| - 1)) == (b % 128) * (128 * Pow128(|s| - 1));
    }
  }

  lemma {:induction false} ValueSplit(s: seq<byte>, i: nat)
    requires i <= |s|
    ensures Value(s) == Value(s[..i]) + Pow128(i) * Value(s[i..])
  {
    if i > 0 {
      ValueSplit(s[1..], i - 1);
      assert s[1..][..i - 1] == s[..i][1..] && s[1..][i - 1..] == s[i..];
      Pow128Shift(i - 1, Value(s[i..]));
      assert Value(s) == s[0] % 128 + 128 * Value(s[1..]);
      assert Value(s[..i]) == s[0] % 128 + 128 * Value(s[..i][1..]);
    } else {
      assert s[..0] == [] && s[0..] == s;
    }
  }

  lemma Pow128Shift(k: nat, h: nat)
    ensures 128 * (Pow128(k) * h) == Pow128(k + 1) * h
  {
  }

  /** The first byte below 128 ends the varint. */
  lemma {:induction false} WidthAt(s: seq<byte>, w: nat)
    requires 1 <= w <= |s| && s[w - 1] < 128
    requires forall i :: 0 <= i < w - 1 ==> s[i] >= 128
    ensures Width(s) == Some(w)
  {
    if w > 1 {
      assert forall i :: 0 <= i < w - 2 ==> s[1..][i] == s[i + 1];
      WidthAt(s[1..], w - 1);
    }
  }

  /** What follows a complete varint does not matter to its reader. */
  lemma ReadsTheSame32(s: seq<byte>, t: seq<byte>)
    requires Read32(s).Ok?
    ensures Read32(s + t) == Read32(s) && Width(s + t) == Width(s)
  {
    WidthTheSame(s, t);
    assert (s + t)[..Width(s).value] == s[..Width(s).value];
  }

  lemma WidthTheSame(s: seq<byte>, t: seq<byte>)
    requires Width(s).Some?
    ensures Width(s + t) == Width(s)
  {
    WidthAt(s + t, Width(s).value);
  }

  /** Bits beyond the 32nd (or 64th) do not matter to the low word. */
  lemma LowWord(s: seq<byte>, k: nat)
    requires k == 5 <= |s| || k == 10 <= |s|
    ensures k == 5 ==> Value(s) % 0x1_0000_0000 == Value(s[..5]) % 0x1_0000_0000
    ensures k == 10 ==> Value(s) % 0x1_0000_0000_0000_0000 == Value(s[..10]) % 0x1_0000_0000_0000_0000
  {
    hide Value, Pow128;
    Pow128Values();
    ValueSplit(s, k);
    var low, h := Value(s[..k]), Value(s[k..]);
    if k == 5 {
      DivModUnique(Value(s), low / 0x1_0000_0000 + 8 * h, 0x1_0000_0000, low % 0x1_0000_0000);
    } else {
      Wraps(low, 64 * h);
    }
  }

  lemma {:induction false} ValueBound(s: seq<byte>)
    ensures Value(s) < Pow128(|s|)
  {
    if s != [] {
      ValueBound(s[1..]);
    }
  }

  /** No encoding is a proper prefix of another: concatenated varints parse uniquely. */
  lemma PrefixFree(m: nat, n: nat, s: seq<byte>, t: seq<byte>)
    requires Encode(m) + s == Encode(n) + t
    ensures m == n && s == t
  {
    WidthOfEncode(m, s);
    WidthOfEncode(n, t);
    ValueOfEncode(m);
    ValueOfEncode(n);
    var k := |Encode(m)|;
    assert Encode(m) == (Encode(m) + s)[..k] == (Encode(n) + t)[..k] == Encode(n);
    assert s == (Encode(m) + s)[k..] == (Encode(n) + t)[k..] == t;
  }
}
