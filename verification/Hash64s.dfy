/** Decimal strings as little-endian 8-byte hashes: `decimalStringToHash64` and `splitHash64`. */
module Hash64s {
  import opened JsNumbers
  import opened Decimal
  import opened LittleEndians
  import opened UInt64s

  /**
   * The inner loop: multiply the eight bytes by m and add c, byte by byte; when m
   * is 1 it stops as soon as no carry is left. What would leave the eighth byte is lost.
   */
  method MulAdd(e: array<byte>, m: byte, c0: nat)
    requires e.Length == 8 && c0 < 256
    modifies e
    ensures LittleEndian(e[..]) == (m * LittleEndian(old(e[..])) + c0) % 0x1_0000_0000_0000_0000
  {
    ghost var was := e[..];
    ghost var total := m * LittleEndian(was) + c0;
    var b: nat := c0;
    var c := 0;
    MulAddStart(m, was, c0);
    while c < 8 && (m != 1 || 0 < b)
      invariant 0 <= c <= 8 && e[c..] == was[c..] && 0 <= b < 256
      invariant MulAddInvariant(LittleEndian(e[..c]), b, m, was, c, total)
    {
      hide LittleEndian, Pow256, MulAddInvariant;
      MulAddStep(e[..c], b, m, was, c, total);
      ghost var done := e[..c];
      e[c], b := MulAddByte(m, e[c], b);
      assert e[..c + 1] == done + [e[c]];
      c := c + 1;
    }
    assert e[..] == e[..c] + was[c..];
    MulAddEnd(e[..c], b, m, was, c, total);
  }

  /** `b = a * e[c] + b, e[c] = b & 255, b >>>= 8`; the product is exact. */
  method MulAddByte(m: byte, w: byte, b: nat) returns (low: byte, carry: nat)
    requires b < 256
    ensures low == (m * w + b) % 256 && carry == (m * w + b) / 256 < 256
  {
    MulMono(m, w, 255);
    var product: int := m * w + b;
    assert Exact(product);
    low, carry := product % 256, product / 256;
  }

  /** The bytes done, the carry and the bytes still to do make up the whole result. */
  ghost predicate MulAddInvariant(low: nat, b: nat, m: nat, was: seq<byte>, c: nat, total: nat) {
    c <= |was| && low + Pow256(c) * (b + m * LittleEndian(was[c..])) == total
  }

  lemma MulAddStart(m: nat, was: seq<byte>, c0: nat)
    ensures MulAddInvariant(LittleEndian([]), c0, m, was, 0, m * LittleEndian(was) + c0)
  {
    assert was[0..] == was;
  }

  lemma MulAddStep(done: seq<byte>, b: nat, m: nat, was: seq<byte>, c: nat, total: nat)
    requires c == |done| < |was| && MulAddInvariant(LittleEndian(done), b, m, was, c, total)
    ensures var product := m * was[c] + b;
            MulAddInvariant(LittleEndian(done + [product % 256]), product / 256, m, was, c + 1, total)
  {
    var p, product := Pow256(c), m * was[c] + b;
    var h := LittleEndian(was[c + 1..]);
    var last: byte := product % 256;
    LittleEndianSplit(done + [last], c);
    assert (done + [last])[..c] == done && (done + [last])[c..] == [last] && [last][1..] == [];
    assert LittleEndian([last]) == last;
    assert was[c..][1..] == was[c + 1..];
    assert LittleEndian(was[c..]) == was[c] + 256 * h;
    MulAddAlgebra(p, b, m, was[c], h);
  }

  lemma MulAddAlgebra(p: nat, b: nat, m: nat, w: nat, h: nat)
    ensures var product := m * w + b;
            p * (b + m * (w + 256 * h)) == p * (product % 256) + 256 * p * (product / 256 + m * h)
  {
    var product := m * w + b;
    assert m * (w + 256 * h) == m * w + 256 * (m * h);
    assert b + m * (w + 256 * h) == product + 256 * (m * h) == product % 256 + 256 * (product / 256 + m * h);
    assert p * (product % 256 + 256 * (product / 256 + m * h))
        == p * (product % 256) + p * (256 * (product / 256 + m * h));
  }

  lemma MulAddEnd(done: seq<byte>, b: nat, m: nat, was: seq<byte>, c: nat, total: nat)
    requires |done| == c <= 8 && |was| == 8 && MulAddInvariant(LittleEndian(done), b, m, was, c, total)
    requires c == 8 || (m == 1 && b == 0)
    ensures LittleEndian(done + was[c..]) == total % 0x1_0000_0000_0000_0000
  {
    hide Pow256;
    var e := done + was[c..];
    LittleEndianSplit(e, c);
    assert e[..c] == done && e[c..] == was[c..];
    LittleEndianBound(e);
    Pow256Values();
    var h := LittleEndian(was[c..]);
    if c == 8 {
      assert h == 0;
      FullWidth(LittleEndian(e), b, total);
    } else {
      assert LittleEndian(e) == total;
      FullWidth(total, 0, total);
    }
  }

  lemma FullWidth(low: nat, b: nat, total: nat)
    requires low < 0x1_0000_0000_0000_0000 && total == low + 0x1_0000_0000_0000_0000 * b
    ensures low == total % 0x1_0000_0000_0000_0000
  {
    DivModUnique(total, b, 0x1_0000_0000_0000_0000, low);
  }

  /** `~e[a] & 255` on every byte. */
  method Complement(e: array<byte>)
    requires e.Length == 8
    modifies e
    ensures LittleEndian(e[..]) == 0xFFFF_FFFF_FFFF_FFFF - LittleEndian(old(e[..]))
  {
    ghost var was := e[..];
    for a := 0 to 8
      invariant forall i :: 0 <= i < a ==> e[i] == 255 - was[i]
      invariant forall i :: a <= i < 8 ==> e[i] == was[i]
    {
      e[a] := 255 - e[a];
    }
    ComplementValue(e[..], was);
    Pow256Values();
  }

  lemma {:induction false} ComplementValue(s: seq<byte>, t: seq<byte>)
    requires |s| == |t| && forall i :: 0 <= i < |s| ==> s[i] == 255 - t[i]
    ensures LittleEndian(s) + LittleEndian(t) == Pow256(|s|) - 1
  {
    if s != [] {
      ComplementValue(s[1..], t[1..]);
    }
  }

  /** `decimalStringToHash64` on an optionally signed numeral. */
  method DecimalStringToHash64(s: string) returns (hash: seq<byte>)
    requires s != [] && SignedNumeral(s)
    ensures |hash| == 8 && LittleEndian(hash) == SignedParse(s) % 0x1_0000_0000_0000_0000
    ensures LittleEndian(hash) == SignedPlaceValue(s) % 0x1_0000_0000_0000_0000
  {
    hide LittleEndian, Parse, DigitValue, SignedPlaceValue, SignedCodes;
    SignedNumeralCodes(s);
    var a, d := s, false;
    if s[0] == '-' {
      d := true;
      a := s[1..];
    }
    var e: array<byte> := new byte[8](_ => 0);
    ZeroHash(e[..]);
    assert a[..0] == [];
    ParseEmpty();
    for f := 0 to |a|
      invariant e.Length == 8
      invariant LittleEndian(e[..]) == Parse(a[..f]) % 0x1_0000_0000_0000_0000
    {
      ParseStep(a, f);
      ghost var n := Parse(a[..f]);
      MulAdd(e, 10, DigitValue(a[f]));
      WrappedMulAdd(n, DigitValue(a[f]));
      assert Parse(a[..f + 1]) == 10 * n + DigitValue(a[f]);
    }
    assert a[..|a|] == a;
    if d {
      ghost var n := LittleEndian(e[..]);
      Complement(e);
      MulAdd(e, 1, 1);
      NegWraps(Parse(a));
      NegationByComplement(n);
    }
    hash := e[..];
  }

  lemma ZeroHash(s: seq<byte>)
    requires |s| == 8 && forall i :: 0 <= i < 8 ==> s[i] == 0
    ensures LittleEndian(s) == 0
  {
    ZeroBytes(s);
  }

  lemma {:induction false} ZeroBytes(s: seq<byte>)
    requires forall i :: 0 <= i < |s| ==> s[i] == 0
    ensures LittleEndian(s) == 0
  {
    if s != [] {
      ZeroBytes(s[1..]);
    }
  }

  lemma WrappedMulAdd(n: nat, d: nat)
    ensures (10 * (n % 0x1_0000_0000_0000_0000) + d) % 0x1_0000_0000_0000_0000 == (10 * n + d) % 0x1_0000_0000_0000_0000
  {
    var m := 0x1_0000_0000_0000_0000;
    Wraps(10 * (n % m) + d, n / m * 10);
  }

  lemma NegationByComplement(n: uint64)
    ensures (1 * (0xFFFF_FFFF_FFFF_FFFF - n) + 1) % 0x1_0000_0000_0000_0000 == (0 - n) % 0x1_0000_0000_0000_0000
  {
    Wraps(0 - n, 1);
  }

  /** `b0 + (b1 << 8) + (b2 << 16) + (b3 << 24) >>> 0`. */
  function Word(b0: int, b1: int, b2: int, b3: int): int {
    b0 + b1 * 0x100 + b2 * 0x1_0000 + b3 * 0x100_0000
  }

  /** `splitHash64`: the two halves of a hash. */
  function SplitHash64(hash: seq<byte>): (r: UInt64)
    requires |hash| == 8
    ensures r.Value() == LittleEndian(hash)
  {
    FourBytes(hash[..4]);
    FourBytes(hash[4..]);
    LittleEndianSplit(hash, 4);
    Pow256Values();
    UInt64(Word(hash[0], hash[1], hash[2], hash[3]), Word(hash[4], hash[5], hash[6], hash[7]))
  }

  lemma FourBytes(s: seq<byte>)
    requires |s| == 4
    ensures LittleEndian(s) == Word(s[0], s[1], s[2], s[3])
  {
    assert s[1..][1..] == s[2..] && s[2..][1..] == s[3..] && s[3..][1..] == [];
    assert LittleEndian(s[3..]) == s[3];
    assert LittleEndian(s[2..]) == s[2] + 256 * LittleEndian(s[3..]);
    assert LittleEndian(s[1..]) == s[1] + 256 * LittleEndian(s[2..]);
  }

  /**
   * The byte-carry parser and the 64-bit multiply-add parser give the same
   * number for every optionally signed numeral, however long.
   */
  method ParsersAgree(s: string) returns (x: UInt64, y: UInt64)
    requires s != [] && SignedNumeral(s)
    ensures x == y && x.Value() == SignedParse(s) % 0x1_0000_0000_0000_0000
  {
    var hash := DecimalStringToHash64(s);
    x := SplitHash64(hash);
    var r := Int64FromString(s);
    y := r.value;
    ValueInjective(x, y);
  }
}
