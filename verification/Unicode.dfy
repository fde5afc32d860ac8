/**
 * Scalar values, their UTF-8 form (section 3 of RFC 3629) and their UTF-16 form
 * (section 2 of RFC 2781).
 */
module Unicode {
  import opened JsNumbers

  type scalar = n: int | 0 <= n < 0x11_0000 && !(0xD800 <= n < 0xE000)

  predicate IsLead(u: int) {
    0xD800 <= u < 0xDC00
  }

  predicate IsTrail(u: int) {
    0xDC00 <= u < 0xE000
  }

  function Utf8(v: scalar): (s: seq<byte>)
    ensures 1 <= |s| <= 4
  {
    if v < 0x80 then [v]
    else if v < 0x800 then [v / 64 + 192, v % 64 + 128]
    else if v < 0x1_0000 then [v / 4096 + 224, v / 64 % 64 + 128, v % 64 + 128]
    else [v / 262144 + 240, v / 4096 % 64 + 128, v / 64 % 64 + 128, v % 64 + 128]
  }

  function Utf16(v: scalar): (s: seq<uint16>)
    ensures 1 <= |s| <= 2
  {
    if v < 0x1_0000 then [v]
    else [0xD800 + (v - 0x1_0000) / 1024, 0xDC00 + (v - 0x1_0000) % 1024]
  }

  function Utf8All(vs: seq<scalar>): seq<byte> {
    if vs == [] then [] else Utf8(vs[0]) + Utf8All(vs[1..])
  }

  function Utf16All(vs: seq<scalar>): seq<uint16> {
    if vs == [] then [] else Utf16(vs[0]) + Utf16All(vs[1..])
  }

  /** Leads and trails come only in pairs. */
  predicate WellFormed(s: seq<uint16>) {
    s == [] ||
    (if IsLead(s[0]) then |s| >= 2 && IsTrail(s[1]) && WellFormed(s[2..])
     else !IsTrail(s[0]) && WellFormed(s[1..]))
  }

  /** The scalar value of a surrogate pair. */
  function Pair(lead: uint16, trail: uint16): (v: scalar)
    requires IsLead(lead) && IsTrail(trail)
    ensures Utf16(v) == [lead, trail]
  {
    1024 * (lead - 0xD800) + (trail - 0xDC00) + 0x1_0000
  }

  function Scalars(s: seq<uint16>): (vs: seq<scalar>)
    requires WellFormed(s)
    ensures Utf16All(vs) == s
  {
    if s == [] then []
    else if IsLead(s[0]) then
      var vs := [Pair(s[0], s[1])] + Scalars(s[2..]);
      assert s == [s[0], s[1]] + s[2..] && vs[1..] == Scalars(s[2..]);
      vs
    else
      var vs := [s[0] as scalar] + Scalars(s[1..]);
      assert s == [s[0]] + s[1..] && vs[1..] == Scalars(s[1..]);
      vs
  }

  lemma {:induction false} ScalarsOfUtf16(vs: seq<scalar>)
    ensures WellFormed(Utf16All(vs)) && Scalars(Utf16All(vs)) == vs
  {
    if vs != [] {
      var s, rest := Utf16All(vs), Utf16All(vs[1..]);
      ScalarsOfUtf16(vs[1..]);
      if vs[0] < 0x1_0000 {
        assert s[1..] == rest;
      } else {
        assert s[2..] == rest;
        assert Pair(s[0], s[1]) == vs[0];
      }
    }
  }

  /** The six-bit digits of a code point, and the same digits under the UTF-8 marker bits. */
  lemma SixBitDigits(v: nat)
    requires v < 0x11_0000
    ensures v == v / 64 * 64 + v % 64
    ensures v == v / 4096 * 4096 + v / 64 % 64 * 64 + v % 64
    ensures v == v / 262144 * 262144 + v / 4096 % 64 * 4096 + v / 64 % 64 * 64 + v % 64
    ensures v / 262144 < 5 && (v < 0x1_0000 ==> v / 4096 < 16) && (v < 0x800 ==> v / 64 < 32)
  {
    assert v / 4096 == v / 64 / 64;
    assert v / 262144 == v / 4096 / 64;
  }

  /** The bytes of some sequence of scalar values. */
  ghost predicate IsUtf8(b: seq<byte>) {
    exists vs: seq<scalar> :: Utf8All(vs) == b
  }

  // ---- the forms by their bits ----

  /** A byte of UTF-8 behind the first: the bits 10, and six more. */
  predicate Continuation(b: byte) {
    b / 64 == 2
  }

  /** What is left of a byte or unit below its marker bits. */
  function Low(b: int, m: int): int
    requires m > 0
  {
    b % m
  }

  lemma Marked(d: nat, m: nat, q: nat)
    requires d < m
    ensures (d + q * m) / m == q && Low(d + q * m, m) == d
  {
    DivModUnique(d + q * m, q, m, d);
  }

  /**
   * Section 3 of RFC 3629: the first byte begins with 0, 110, 1110 or 11110, the others with 10,
   * and the remaining bits in order are the code point; the form is the shortest that holds it.
   */
  lemma Utf8Layout(v: scalar)
    ensures v < 0x80 ==> Utf8(v) == [v]
    ensures 0x80 <= v < 0x800 ==>
              var s := Utf8(v);
              && |s| == 2 && s[0] / 32 == 6 && Continuation(s[1])
              && Low(s[0], 32) * 64 + Low(s[1], 64) == v
    ensures 0x800 <= v < 0x1_0000 ==>
              var s := Utf8(v);
              && |s| == 3 && s[0] / 16 == 14 && Continuation(s[1]) && Continuation(s[2])
              && Low(s[0], 16) * 4096 + Low(s[1], 64) * 64 + Low(s[2], 64) == v
    ensures 0x1_0000 <= v ==>
              var s := Utf8(v);
              && |s| == 4 && s[0] / 8 == 30 && Continuation(s[1]) && Continuation(s[2]) && Continuation(s[3])
              && Low(s[0], 8) * 262144 + Low(s[1], 64) * 4096 + Low(s[2], 64) * 64 + Low(s[3], 64) == v
  {
    SixBitDigits(v);
    var d0, d1, d2 := v % 64, v / 64 % 64, v / 4096 % 64;
    Marked(d0, 64, 2);
    Marked(d1, 64, 2);
    Marked(d2, 64, 2);
    if 0x80 <= v < 0x800 {
      Marked(v / 64, 32, 6);
    } else if 0x800 <= v < 0x1_0000 {
      Marked(v / 4096, 16, 14);
    } else if 0x1_0000 <= v {
      Marked(v / 262144, 8, 30);
    }
  }

  /** Section 2.1 of RFC 2781: leads begin with the bits 110110, trails with 110111, ten bits each. */
  lemma Utf16Layout(v: scalar)
    ensures v < 0x1_0000 ==> Utf16(v) == [v]
    ensures v >= 0x1_0000 ==>
              var s := Utf16(v);
              && |s| == 2 && s[0] / 1024 == 54 && s[1] / 1024 == 55
              && Low(s[0], 1024) * 1024 + Low(s[1], 1024) + 0x1_0000 == v
  {
    if v >= 0x1_0000 {
      var u := v - 0x1_0000;
      Marked(u / 1024, 1024, 54);
      Marked(u % 1024, 1024, 55);
    }
  }

  lemma SurrogateBits(u: uint16)
    ensures IsLead(u) <==> u / 1024 == 54
    ensures IsTrail(u) <==> u / 1024 == 55
  {
  }
}
