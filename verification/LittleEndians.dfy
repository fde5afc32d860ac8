/** Byte strings as base-256 numerals, least significant byte first. */
module LittleEndians {
  import opened JsNumbers

  /** The number a byte string holds, least significant byte first. */
  function LittleEndian(s: seq<byte>): nat {
    if s == [] then 0 else s[0] + 256 * LittleEndian(s[1..])
  }

  lemma {:induction false} LittleEndianSplit(s: seq<byte>, i: nat)
    requires i <= |s|
    ensures LittleEndian(s) == LittleEndian(s[..i]) + Pow256(i) * LittleEndian(s[i..])
  {
    if i > 0 {
      LittleEndianSplit(s[1..], i - 1);
      assert s[1..][..i - 1] == s[..i][1..] && s[1..][i - 1..] == s[i..];
      ShiftedProduct(Pow256(i - 1), LittleEndian(s[i..]));
      assert LittleEndian(s) == s[0] + 256 * LittleEndian(s[1..]);
      assert LittleEndian(s[..i]) == s[0] + 256 * LittleEndian(s[..i][1..]);
    } else {
      assert s[..0] == [] && s[0..] == s;
    }
  }

  lemma ShiftedProduct(p: nat, h: nat)
    ensures 256 * (p * h) == (256 * p) * h
  {
  }

  lemma {:induction false} LittleEndianBound(s: seq<byte>)
    ensures LittleEndian(s) < Pow256(|s|)
  {
    if s != [] {
      LittleEndianBound(s[1..]);
    }
  }

  lemma Pow256Values()
    ensures Pow256(4) == 0x1_0000_0000 && Pow256(8) == 0x1_0000_0000_0000_0000
  {
    assert Pow256(5) == 256 * Pow256(4) && Pow256(6) == 256 * Pow256(5) && Pow256(7) == 256 * Pow256(6);
  }

  lemma LittleEndianAppend(s: seq<byte>, b: byte)
    ensures LittleEndian(s + [b]) == LittleEndian(s) + Pow256(|s|) * b
  {
    LittleEndianSplit(s + [b], |s|);
    assert (s + [b])[..|s|] == s && (s + [b])[|s|..] == [b] && [b][1..] == [];
    assert LittleEndian([b]) == b;
  }

  /** The k-th base-256 digit of an integer, in two's complement for negative ones. */
  function DigitAt(v: int, k: nat): byte {
    v / Pow256(k) % 256
  }

  function Digits(v: int, n: nat): (s: seq<byte>)
    ensures |s| == n
  {
    seq(n, k requires 0 <= k => DigitAt(v, k))
  }

  /** One more digit: the remainder modulo the next power. */
  lemma NextRemainder(v: int, k: nat)
    ensures v % Pow256(k + 1) == v % Pow256(k) + Pow256(k) * DigitAt(v, k)
  {
    var p := Pow256(k);
    var q := v / p;
    assert q == q / 256 * 256 + q % 256;
    RemainderAlgebra(v, p, q);
    DivModUnique(v, q / 256, 256 * p, v % p + p * (q % 256));
  }

  lemma RemainderAlgebra(v: int, p: nat, q: int)
    requires p > 0 && q == v / p
    ensures v == q / 256 * (256 * p) + (v % p + p * (q % 256))
    ensures 0 <= v % p + p * (q % 256) < 256 * p
  {
    assert v == p * q + v % p;
    assert p * q == p * (q / 256 * 256) + p * (q % 256);
    assert p * (q / 256 * 256) == q / 256 * (256 * p);
    MulMono(p, q % 256, 255);
  }

  /** The digits of an integer spell it modulo the power of their number. */
  lemma {:induction false} DigitsValue(v: int, n: nat)
    ensures LittleEndian(Digits(v, n)) == v % Pow256(n)
  {
    if n > 0 {
      DigitsValue(v, n - 1);
      assert Digits(v, n) == Digits(v, n - 1) + [DigitAt(v, n - 1)];
      LittleEndianAppend(Digits(v, n - 1), DigitAt(v, n - 1));
      NextRemainder(v, n - 1);
    }
  }
}
