/**
 * Base64 (sections 4 and 5 of RFC 4648): the sextets of a byte string and
 * Closure's encoder and decoder with their five alphabets.
 */
module Base64 {
  import opened JsNumbers
  import opened Outcomes

  /** `goog.crypt.base64.Alphabet`. */
  datatype Alphabet = DEFAULT | NO_PADDING | WEBSAFE | WEBSAFE_DOT_PADDING | WEBSAFE_NO_PADDING

  /** Six-bit digits; 64 stands for padding. */
  type code = n: int | 0 <= n <= 64

  /** The character of a code; an alphabet without padding has none for 64. */
  function CharOf(al: Alphabet, n: code): string {
    if n < 26 then [(n + 65) as char]
    else if n < 52 then [(n + 71) as char]
    else if n < 62 then [(n - 4) as char]
    else if n == 62 then if al.DEFAULT? || al.NO_PADDING? then "+" else "-"
    else if n == 63 then if al.DEFAULT? || al.NO_PADDING? then "/" else "_"
    else if al.DEFAULT? || al.WEBSAFE? then "="
    else if al.WEBSAFE_DOT_PADDING? then "." else ""
  }

  /** `charToByteMap_`, filled from all five alphabets at once. */
  function CodeOf(c: char): (r: Option<code>) {
    if 'A' <= c <= 'Z' then Some(c as int - 65)
    else if 'a' <= c <= 'z' then Some(c as int - 71)
    else if '0' <= c <= '9' then Some(c as int + 4)
    else if c == '+' || c == '-' then Some(62)
    else if c == '/' || c == '_' then Some(63)
    else if c == '=' || c == '.' then Some(64)
    else None
  }

  /** One map decodes every alphabet. */
  lemma CodeOfCharOf(al: Alphabet, n: code)
    ensures n < 64 ==> |CharOf(al, n)| == 1
    ensures |CharOf(al, n)| == 1 ==> CodeOf(CharOf(al, n)[0]) == Some(n)
    ensures |CharOf(al, n)| <= 1
  {
  }

  /** Four codes for the first one to three bytes. */
  function Quad(b: seq<byte>): (q: seq<code>)
    requires b != []
    ensures |q| == 4 && q[0] < 64 && q[1] < 64
    ensures |b| >= 2 ==> q[2] < 64
    ensures |b| >= 3 ==> q[3] < 64
  {
    if |b| == 1 then [b[0] / 4, b[0] % 4 * 16, 64, 64]
    else if |b| == 2 then [b[0] / 4, b[0] % 4 * 16 + b[1] / 16, b[1] % 16 * 4, 64]
    else [b[0] / 4, b[0] % 4 * 16 + b[1] / 16, b[1] % 16 * 4 + b[2] / 64, b[2] % 64]
  }

  function Spell(al: Alphabet, q: seq<code>): string {
    if q == [] then "" else CharOf(al, q[0]) + Spell(al, q[1..])
  }

  /** The base64 string of a byte string. */
  function Encoded(al: Alphabet, b: seq<byte>): string
    decreases |b|
  {
    if b == [] then ""
    else Spell(al, Quad(b)) + Encoded(al, if |b| <= 3 then [] else b[3..])
  }

  /** `goog.crypt.base64.encodeByteArray`. */
  method EncodeByteArray(a: seq<byte>, al: Alphabet) returns (c: string)
    ensures c == Encoded(al, a)
  {
    c := "";
    var d := 0;
    while d < |a|
      invariant 0 <= d && c + Encoded(al, if d <= |a| then a[d..] else []) == Encoded(al, a)
      decreases |a| - d
    {
      hide Quad, Encoded;
      ghost var t, was := a[d..], c;
      EncodedStep(al, t, was, Encoded(al, a));
      var q := QuadAt(a, d);
      c := c + (CharOf(al, q[0]) + CharOf(al, q[1]) + CharOf(al, q[2]) + CharOf(al, q[3]));
      SpellFour(al, q);
      assert |t| > 3 ==> t[3..] == a[d + 3..];
      assert |t| == 3 ==> a[d + 3..] == [];
      d := d + 3;
    }
    assert c + "" == c;
  }

  /** The loop body: missing bytes count as zero and their codes as padding. */
  method QuadAt(a: seq<byte>, d: nat) returns (q: seq<code>)
    requires d < |a|
    ensures q == Quad(a[d..])
  {
    ghost var t := a[d..];
    var e: int := a[d];
    var f := d + 1 < |a|;
    var g: int := if f then a[d + 1] else 0;
    var h := d + 2 < |a|;
    var k: int := if h then a[d + 2] else 0;
    assert f ==> g == t[1];
    assert h ==> k == t[2];
    var l := e / 4;
    e := e % 4 * 16 + g / 16;
    g := g % 16 * 4 + k / 64;
    k := k % 64;
    if !h {
      k := 64;
      if !f {
        g := 64;
      }
    }
    q := [l, e, g, k];
  }

  lemma EncodedStep(al: Alphabet, t: seq<byte>, c: string, all: string)
    requires t != [] && c + Encoded(al, t) == all
    ensures (c + Spell(al, Quad(t))) + Encoded(al, if |t| <= 3 then [] else t[3..]) == all
  {
    hide Quad, Spell;
    var rest := Encoded(al, if |t| <= 3 then [] else t[3..]);
    assert c + (Spell(al, Quad(t)) + rest) == (c + Spell(al, Quad(t))) + rest;
  }

  lemma SpellFour(al: Alphabet, q: seq<code>)
    requires |q| == 4
    ensures Spell(al, q) == CharOf(al, q[0]) + CharOf(al, q[1]) + CharOf(al, q[2]) + CharOf(al, q[3])
  {
    hide CharOf;
    assert q[1..][1..] == q[2..] && q[2..][1..] == q[3..] && q[3..][1..] == [];
    assert Spell(al, q[3..]) == CharOf(al, q[3]) + "" == CharOf(al, q[3]);
    assert Spell(al, q[2..]) == CharOf(al, q[2]) + Spell(al, q[3..]);
    assert Spell(al, q[1..]) == CharOf(al, q[1]) + Spell(al, q[2..]);
  }

  // ---- decoding ----

  /** White space as JavaScript's `\\s` and no-break space. */
  predicate IsSpace(c: char) {
    c as int in {9, 10, 11, 12, 13, 32, 0xA0, 0x1680, 0x2028, 0x2029, 0x202F, 0x205F, 0x3000, 0xFEFF}
    || 0x2000 <= c as int <= 0x200A
  }

  /** The next code and the rest of the string, or the default at its end; white space is skipped. */
  function NextCode(s: string, atEnd: int): Outcome<(int, string)> {
    if s == "" then Ok((atEnd, ""))
    else match CodeOf(s[0])
      case Some(n) => Ok((n, s[1..]))
      case None => if IsSpace(s[0]) then NextCode(s[1..], atEnd) else Throws
  }

  /** `e << 2 | f >> 4`; only a padding character in second place makes the bits overlap. */
  function FirstByte(e: code, f: code): int {
    if f < 64 || e % 2 == 0 then e * 4 + f / 16 else e * 4
  }

  /** The numbers four codes stand for. */
  function Unquad(e: code, f: code, g: code, h: code): seq<int> {
    [FirstByte(e, f)] +
    (if g == 64 then [] else [f % 16 * 16 + g / 4] + (if h == 64 then [] else [g % 4 * 64 + h]))
  }

  /** `decodeStringInternal_`: the numbers handed to the callback, in order. */
  function Decoded(s: string): Outcome<seq<int>>
    decreases |s|
  {
    var (e, s1) :- NextCode(s, -1);
    var (f, s2) :- NextCode(s1, 0);
    var (g, s3) :- NextCode(s2, 64);
    var (h, s4) :- NextCode(s3, 64);
    CodeRange(s, -1);
    CodeRange(s1, 0);
    CodeRange(s2, 64);
    CodeRange(s3, 64);
    if e == -1 then Ok([])
    else
      var rest :- Decoded(s4);
      Ok(Unquad(e, f, g, h) + rest)
  }

  lemma {:induction false} CodeRange(s: string, atEnd: int)
    ensures match NextCode(s, atEnd)
            case Ok((n, rest)) =>
              |rest| <= |s| && ((rest == "" && n == atEnd) || (0 <= n <= 64 && |rest| < |s|))
            case _ => true
  {
    if s != "" && CodeOf(s[0]).None? {
      CodeRange(s[1..], atEnd);
    }
  }

  method ReadCode(a: string, d0: nat, b: int) returns (r: Outcome<int>, d: nat)
    requires d0 <= |a|
    ensures d0 <= d <= |a|
    ensures match NextCode(a[d0..], b)
            case Ok((n, rest)) => r == Ok(n) && a[d..] == rest
            case Throws => r == Throws
            case Backward => r == Backward
  {
    d := d0;
    while d < |a|
      invariant d0 <= d <= |a| && NextCode(a[d..], b) == NextCode(a[d0..], b)
    {
      var c := a[d];
      assert a[d..][1..] == a[d + 1..];
      d := d + 1;
      var e := CodeOf(c);
      if e != None {
        return Ok(e.value), d;
      }
      if !IsSpace(c) {
        return Throws, d;
      }
    }
    r := Ok(b);
  }

  method DecodeStringInternal(a: string) returns (r: Outcome<seq<int>>)
    ensures r == Decoded(a)
  {
    hide Decoded, NextCode;
    var out: seq<int> := [];
    var d := 0;
    assert a[0..] == a;
    ghost var all := Decoded(a);
    assert Prepend([], Decoded(a[0..])) == all by {
      PrependNothing(Decoded(a));
    }
    while true
      invariant 0 <= d <= |a| && Prepend(out, Decoded(a[d..])) == all
      decreases |a| - d
    {
      DecodedStep(a[d..]);
      CodeRange(a[d..], -1);
      var e, d1 := ReadCode(a, d, -1);
      if e.IsFailure() {
        return e.PropagateFailure();
      }
      CodeRange(a[d1..], 0);
      var f, d2 := ReadCode(a, d1, 0);
      if f.IsFailure() {
        return f.PropagateFailure();
      }
      CodeRange(a[d2..], 64);
      var g, d3 := ReadCode(a, d2, 64);
      if g.IsFailure() {
        return g.PropagateFailure();
      }
      CodeRange(a[d3..], 64);
      var h, d4 := ReadCode(a, d3, 64);
      if h.IsFailure() {
        return h.PropagateFailure();
      }
      if 64 == h.value && -1 == e.value {
        assert out + [] == out;
        return Ok(out);
      }
      EndedEarly(a[d..]);
      ghost var q := Unquad(e.value, f.value, g.value, h.value);
      ghost var was := out;
      out := out + [FirstByte(e.value, f.value)];
      if 64 != g.value {
        out := out + [f.value % 16 * 16 + g.value / 4];
        if 64 != h.value {
          out := out + [g.value % 4 * 64 + h.value];
        }
      }
      assert out == was + q;
      PrependTwice(was, q, Decoded(a[d4..]));
      d := d4;
    }
  }

  function Prepend(s: seq<int>, r: Outcome<seq<int>>): Outcome<seq<int>> {
    if r.Ok? then Ok(s + r.value) else r
  }

  lemma PrependNothing(r: Outcome<seq<int>>)
    ensures Prepend([], r) == r
  {
    assert r.Ok? ==> [] + r.value == r.value;
  }

  lemma PrependTwice(s: seq<int>, t: seq<int>, r: Outcome<seq<int>>)
    ensures Prepend(s, Prepend(t, r)) == Prepend(s + t, r)
  {
    if r.Ok? {
      assert s + (t + r.value) == (s + t) + r.value;
    }
  }

  /** The four reads one after the other, and what they make of the rest. */
  lemma DecodedStep(s: string)
    ensures match NextCode(s, -1)
            case Throws => Decoded(s) == Throws
            case Backward => Decoded(s) == Backward
            case Ok((e, s1)) =>
              match NextCode(s1, 0)
              case Throws => Decoded(s) == Throws
              case Backward => Decoded(s) == Backward
              case Ok((f, s2)) =>
                match NextCode(s2, 64)
                case Throws => Decoded(s) == Throws
                case Backward => Decoded(s) == Backward
                case Ok((g, s3)) =>
                  match NextCode(s3, 64)
                  case Throws => Decoded(s) == Throws
                  case Backward => Decoded(s) == Backward
                  case Ok((h, s4)) =>
                    if e == -1 then Decoded(s) == Ok([])
                    else 0 <= e <= 64 && 0 <= f <= 64 && 0 <= g <= 64 && 0 <= h <= 64 && |s4| < |s| &&
                         Decoded(s) == Prepend(Unquad(e, f, g, h), Decoded(s4))
  {
    hide NextCode, Unquad;
    CodeRange(s, -1);
    if NextCode(s, -1).Ok? {
      var (e, s1) := NextCode(s, -1).value;
      CodeRange(s1, 0);
      if NextCode(s1, 0).Ok? {
        var (f, s2) := NextCode(s1, 0).value;
        CodeRange(s2, 64);
        if NextCode(s2, 64).Ok? {
          var (g, s3) := NextCode(s2, 64).value;
          CodeRange(s3, 64);
        }
      }
    }
  }

  /** At the end of the string all four reads give their defaults. */
  lemma EndedEarly(s: string)
    ensures NextCode(s, -1) == Ok((-1, "")) ==> NextCode("", 0) == Ok((0, "")) && NextCode("", 64) == Ok((64, ""))
  {
  }

  // ---- round trip ----

  lemma QuadBack(b: seq<byte>)
    requires b != []
    ensures var q := Quad(b);
            Unquad(q[0], q[1], q[2], q[3]) == if |b| <= 3 then b else b[..3]
  {
    if |b| == 1 {
      FirstBack(b[0], 0);
    } else {
      FirstBack(b[0], b[1]);
      SecondBack(b[1], if |b| == 2 then 0 else b[2]);
    }
  }

  lemma FirstBack(x: byte, y: byte)
    ensures x / 4 * 4 + (x % 4 * 16 + y / 16) / 16 == x && (x % 4 * 16 + y / 16) % 16 == y / 16
  {
  }

  lemma SecondBack(y: byte, z: byte)
    ensures y / 16 * 16 + (y % 16 * 4 + z / 64) / 4 == y && (y % 16 * 4 + z / 64) % 4 * 64 + z % 64 == z
  {
  }

  /** Four written codes are read back one by one; missing padding is supplied at the end. */
  lemma ReadsQuad(al: Alphabet, q: seq<code>, rest: string)
    requires |q| == 4 && q[0] < 64 && q[1] < 64 && (q[2] == 64 ==> q[3] == 64)
    requires q[3] == 64 ==> rest == ""
    ensures Decoded(Spell(al, q) + rest) == Prepend(Unquad(q[0], q[1], q[2], q[3]), Decoded(rest))
  {
    hide Unquad, CharOf, CodeOf, Decoded;
    SpellFour(al, q);
    CodeOfCharOf(al, q[0]);
    CodeOfCharOf(al, q[1]);
    CodeOfCharOf(al, q[2]);
    CodeOfCharOf(al, q[3]);
    PaddingUniform(al);
    var c0, c1, c2, c3 := CharOf(al, q[0]), CharOf(al, q[1]), CharOf(al, q[2]), CharOf(al, q[3]);
    var s := Spell(al, q) + rest;
    assert s == c0 + (c1 + (c2 + (c3 + rest)));
    ReadsChar(c0, q[0], -1, c1 + (c2 + (c3 + rest)));
    ReadsChar(c1, q[1], 0, c2 + (c3 + rest));
    ReadsChar(c2, q[2], 64, c3 + rest);
    ReadsChar(c3, q[3], 64, rest);
    DecodedStep(s);
  }

  lemma PaddingUniform(al: Alphabet)
    ensures CharOf(al, 64) == "" || |CharOf(al, 64)| == 1
  {
  }

  /** Reading a spelled code, or the padding that an unpadded alphabet leaves out at the end. */
  lemma ReadsChar(c: string, n: code, atEnd: int, rest: string)
    requires (|c| == 1 && CodeOf(c[0]) == Some(n)) || (c == "" && rest == "" && n == atEnd)
    ensures NextCode(c + rest, atEnd) == Ok((n, rest))
  {
    if c != "" {
      assert (c + rest)[1..] == rest;
    } else {
      assert c + rest == "";
    }
  }

  /** Decoding undoes encoding in every alphabet, padded or not. */
  lemma {:induction false} DecodeUndoesEncode(al: Alphabet, b: seq<byte>)
    ensures Decoded(Encoded(al, b)) == Ok(b)
    decreases |b|
  {
    hide Decoded, Quad, Unquad, Spell;
    if b == [] {
      DecodedNothing();
    } else {
      var rest := if |b| <= 3 then [] else b[3..];
      DecodeUndoesEncode(al, rest);
      QuadBack(b);
      QuadPadding(b);
      ReadsQuad(al, Quad(b), Encoded(al, rest));
      assert b == (if |b| <= 3 then b else b[..3]) + rest;
    }
  }

  lemma DecodedNothing()
    ensures Decoded("") == Ok([])
  {
  }

  lemma QuadPadding(b: seq<byte>)
    requires b != []
    ensures var q := Quad(b);
            (q[2] == 64 ==> q[3] == 64) && (q[3] == 64 ==> |b| <= 2)
  {
  }
}
