/**
 * The string codecs of js/bundle.js as functions on code units and bytes:
 * `writeString`/`readString` of the protobuf encoder, `utf8ToBytes`/`utf8Slice`
 * of Buffer, and Closure's `stringToUtf8ByteArray`. All are total, so they say
 * what happens to ill-formed input as well.
 */
module StringCodecs {
  import opened JsNumbers
  import opened Unicode

  function ThreeBytes(u: uint16): seq<byte> {
    [u / 4096 + 224, u / 64 % 64 + 128, u % 64 + 128]
  }

  const REPLACEMENT: seq<byte> := [0xEF, 0xBF, 0xBD]

  // ---- protobuf writeString and readString ----

  /** How many units go together at the front of `s`: two for a surrogate pair. */
  function Taken(s: seq<uint16>): (k: nat)
    requires s != []
    ensures 1 <= k <= |s|
  {
    if |s| >= 2 && IsLead(s[0]) && IsTrail(s[1]) then 2 else 1
  }

  /** `writeString` has no branch for a lead that stands before a unit that is no trail. */
  predicate Dropped(s: seq<uint16>)
    requires s != []
  {
    |s| >= 2 && IsLead(s[0]) && !IsTrail(s[1])
  }

  /** The bytes of the first taken units; lone surrogates take three. */
  function Front(s: seq<uint16>): seq<byte>
    requires s != []
  {
    if Taken(s) == 2 then Utf8(Pair(s[0], s[1]))
    else if IsLead(s[0]) || IsTrail(s[0]) then ThreeBytes(s[0])
    else Utf8(s[0])
  }

  function TwoByteForm(v: int): seq<byte>
    requires 0 <= v < 0x800
  {
    [v / 64 + 192, v % 64 + 128]
  }

  function FourByteForm(v: int): seq<byte>
    requires 0 <= v < 0x11_0000
  {
    [v / 262144 + 240, v / 4096 % 64 + 128, v / 64 % 64 + 128, v % 64 + 128]
  }

  lemma FrontForms(t: seq<uint16>)
    requires t != []
    ensures Taken(t) == 2 ==> var v := 1024 * ((t[0] as int) - 55296) + t[1] - 56320 + 65536;
                              0 <= v < 0x11_0000 && Front(t) == FourByteForm(v)
    ensures Taken(t) == 1 ==> var d: int := t[0];
                              Front(t) == if d < 128 then [d] else if d < 2048 then TwoByteForm(d) else ThreeBytes(d)
  {
    if Taken(t) == 2 {
      assert Pair(t[0], t[1]) == 1024 * ((t[0] as int) - 55296) + t[1] - 56320 + 65536;
    }
  }

  function WriteUnits(s: seq<uint16>): seq<byte> {
    if s == [] then []
    else (if Dropped(s) then [] else Front(s)) + WriteUnits(s[Taken(s)..])
  }

  /** A continuation byte's six bits; reading past the array gives none. */
  function Six(s: seq<byte>, i: nat): int {
    if i < |s| then s[i] % 64 else 0
  }

  /** The units `readString` pushes for one lead byte, and the bytes it takes. */
  function ReadUnit(s: seq<byte>): (r: (seq<uint16>, nat))
    ensures 1 <= r.1 <= 4
  {
    if s == [] then ([], 1)
    else var f: int := s[0];
    if f < 128 then ([f], 1)
    else if f < 192 then ([], 1)
    else if f < 224 then ([f % 32 * 64 + Six(s, 1)], 2)
    else if f < 240 then ([f % 16 * 4096 + Six(s, 1) * 64 + Six(s, 2)], 3)
    else if f < 248 then
      var x := f % 8 * 262144 + Six(s, 1) * 4096 + Six(s, 2) * 64 + Six(s, 3) - 0x1_0000;
      ([x / 1024 % 1024 + 0xD800, x % 1024 + 0xDC00], 4)
    else ([], 1)
  }

  function Drop(s: seq<byte>, k: nat): seq<byte> {
    if k <= |s| then s[k..] else []
  }

  /** All units `readString(n)` produces from the front of `s`, and how far its cursor moves. */
  function ReadUnits(s: seq<byte>, n: int): (r: (seq<uint16>, nat))
    ensures r.1 >= n
    decreases n
  {
    if n <= 0 then ([], 0)
    else
      var (u, k) := ReadUnit(s);
      var (us, m) := ReadUnits(Drop(s, k), n - k);
      (u + us, k + m)
  }

  /** What survives `writeString`: everything but leads that stand before a non-trail. */
  function Kept(s: seq<uint16>): (t: seq<uint16>)
    ensures |t| <= |s|
  {
    if s == [] then []
    else (if Dropped(s) then [] else s[..Taken(s)]) + Kept(s[Taken(s)..])
  }

  predicate NoLeadDropped(s: seq<uint16>) {
    forall i :: 0 <= i < |s| - 1 && IsLead(s[i]) ==> IsTrail(s[i + 1])
  }

  lemma ReadsScalar(v: scalar, rest: seq<byte>)
    ensures ReadUnit(Utf8(v) + rest) == (Utf16(v), |Utf8(v)|)
  {
    if 0x80 <= v < 0x800 {
      ReadsTwoBytes(v, rest);
    } else if 0x800 <= v < 0x1_0000 {
      ReadsThreeBytes(v, rest);
    } else if 0x1_0000 <= v {
      ReadsFourBytes(v, rest);
    }
  }

  lemma ReadsTwoBytes(v: uint16, rest: seq<byte>)
    requires v < 0x800
    ensures ReadUnit(TwoByteForm(v) + rest) == ([v], 2)
  {
    MarkedDigits(v);
    var s := TwoByteForm(v) + rest;
    assert s[0] == v / 64 + 192 && Six(s, 1) == v % 64;
  }

  lemma ReadsFourBytes(v: scalar, rest: seq<byte>)
    requires v >= 0x1_0000
    ensures ReadUnit(FourByteForm(v) + rest) == (Utf16(v), 4)
  {
    SixBitDigits(v);
    MarkedDigits(v);
    var s := FourByteForm(v) + rest;
    assert s[0] == v / 262144 + 240;
    assert Six(s, 1) == v / 4096 % 64 && Six(s, 2) == v / 64 % 64 && Six(s, 3) == v % 64;
    HighUnits(v);
  }

  lemma HighUnits(v: scalar)
    requires v >= 0x1_0000
    ensures (v - 0x1_0000) / 1024 % 1024 == (v - 0x1_0000) / 1024
  {
  }

  /** The marker bits of a byte do not disturb the digit below them. */
  lemma MarkedDigits(v: nat)
    requires v < 0x11_0000
    ensures (v % 64 + 128) % 64 == v % 64 && (v / 64 % 64 + 128) % 64 == v / 64 % 64
    ensures (v / 4096 % 64 + 128) % 64 == v / 4096 % 64
    ensures v < 0x800 ==> (v / 64 + 192) % 32 == v / 64
    ensures v < 0x1_0000 ==> (v / 4096 + 224) % 16 == v / 4096
    ensures (v / 262144 + 240) % 8 == v / 262144 && (v / 262144 + 240) % 16 == v / 262144
    ensures (v % 64 + 128) / 64 == 2 && (v / 64 % 64 + 128) / 64 == 2 && (v / 4096 % 64 + 128) / 64 == 2
  {
    SixBitDigits(v);
  }

  lemma ReadsThreeBytes(u: uint16, rest: seq<byte>)
    requires u >= 0x800
    ensures ReadUnit(ThreeBytes(u) + rest) == ([u], 3)
  {
    SixBitDigits(u);
    MarkedDigits(u);
    var s := ThreeBytes(u) + rest;
    assert Six(s, 1) == u / 64 % 64 && Six(s, 2) == u % 64;
  }

  lemma ReadsFront(s: seq<uint16>, tail: seq<byte>)
    requires s != []
    ensures Front(s) != [] && ReadUnit(Front(s) + tail) == (s[..Taken(s)], |Front(s)|)
  {
    if Taken(s) == 2 {
      var v := Pair(s[0], s[1]);
      assert s[..Taken(s)] == Utf16(v) && Front(s) == Utf8(v);
      ReadsScalar(v, tail);
    } else if IsLead(s[0]) || IsTrail(s[0]) {
      assert s[..Taken(s)] == [s[0]];
      ReadsThreeBytes(s[0], tail);
    } else {
      assert s[..Taken(s)] == Utf16(s[0]);
      ReadsScalar(s[0], tail);
    }
  }

  /** `readString` of the written length undoes `writeString` up to the dropped leads. */
  lemma {:induction false} ReadUndoesWrite(s: seq<uint16>, rest: seq<byte>)
    ensures ReadUnits(WriteUnits(s) + rest, |WriteUnits(s)|) == (Kept(s), |WriteUnits(s)|)
  {
    if s != [] {
      var t := s[Taken(s)..];
      ReadUndoesWrite(t, rest);
      if Dropped(s) {
        assert WriteUnits(s) == WriteUnits(t) && Kept(s) == Kept(t);
      } else {
        ReadsFront(s, WriteUnits(t) + rest);
        ReadsOneMore(Front(s), s[..Taken(s)], WriteUnits(t), Kept(t), rest);
        assert WriteUnits(s) == Front(s) + WriteUnits(t) && Kept(s) == s[..Taken(s)] + Kept(t);
      }
    }
  }

  lemma ReadUnitsStep(s: seq<byte>, n: int, us: seq<uint16>, k: nat)
    requires n > 0 && ReadUnit(s) == (us, k)
    ensures ReadUnits(s, n) == (us + ReadUnits(Drop(s, k), n - k).0, k + ReadUnits(Drop(s, k), n - k).1)
  {
    hide ReadUnit;
  }

  lemma ReadsOneMore(head: seq<byte>, us: seq<uint16>, w: seq<byte>, kept: seq<uint16>, rest: seq<byte>)
    requires head != [] && ReadUnit(head + (w + rest)) == (us, |head|)
    requires ReadUnits(w + rest, |w|) == (kept, |w|)
    ensures ReadUnits((head + w) + rest, |head + w|) == (us + kept, |head + w|)
  {
    hide ReadUnit, ReadUnits;
    var s := (head + w) + rest;
    assert s == head + (w + rest);
    ReadUnitsStep(s, |head + w|, us, |head|);
    assert Drop(s, |head|) == w + rest;
  }

  lemma {:induction false} KeptAll(s: seq<uint16>)
    ensures Kept(s) == s <==> NoLeadDropped(s)
  {
    if s != [] {
      var k := Taken(s);
      KeptAll(s[k..]);
      assert s == s[..k] + s[k..];
      if Dropped(s) {
        assert |Kept(s)| < |s|;
      } else {
        assert Kept(s)[k..] == Kept(s[k..]);
        NoLeadDroppedTail(s);
      }
    }
  }

  lemma NoLeadDroppedTail(s: seq<uint16>)
    requires s != [] && !Dropped(s)
    ensures NoLeadDropped(s) <==> NoLeadDropped(s[Taken(s)..])
  {
    var k := Taken(s);
    assert forall i :: 0 <= i < |s| - k ==> s[k..][i] == s[i + k];
    if NoLeadDropped(s[k..]) {
      forall i | 0 <= i < |s| - 1 && IsLead(s[i]) ensures IsTrail(s[i + 1]) {
        if i >= k { assert s[i] == s[k..][i - k] && s[i + 1] == s[k..][i + 1 - k]; }
      }
    }
  }

  /** The protobuf string round trip holds exactly for strings that drop no lead. */
  lemma {:induction false} RoundTripIffNoLeadDropped(s: seq<uint16>, rest: seq<byte>)
    ensures ReadUnits(WriteUnits(s) + rest, |WriteUnits(s)|) == (s, |WriteUnits(s)|) <==> NoLeadDropped(s)
  {
    ReadUndoesWrite(s, rest);
    KeptAll(s);
  }

  /** For instance: a lead before a letter is lost. */
  lemma LeadLost()
    ensures WriteUnits([0xD800, 0x41]) == [0x41] && ReadUnits(WriteUnits([0xD800, 0x41]), 1) == ([0x41], 1)
  {
    var s: seq<uint16> := [0xD800, 0x41];
    ReadUndoesWrite(s, []);
    assert s[1..] == [0x41] && s[1..][1..] == [];
    assert WriteUnits(s) == [] + (Utf8(0x41) + []) == [0x41];
    assert WriteUnits(s) + [] == WriteUnits(s);
  }

  lemma {:induction false} WellFormedDropsNothing(s: seq<uint16>)
    requires WellFormed(s)
    ensures NoLeadDropped(s)
  {
    if s != [] {
      WellFormedDropsNothing(s[Taken(s)..]);
      NoLeadDroppedTail(s);
    }
  }

  // ---- Buffer utf8ToBytes and utf8Slice ----

  /** `utf8ToBytes`; `lead` is the pending lead surrogate, 0 when there is none. */
  function ToBytes(s: seq<uint16>, lead: uint16): seq<byte>
    requires lead == 0 || IsLead(lead)
  {
    if s == [] then []
    else if IsLead(s[0]) || IsTrail(s[0]) then
      if lead == 0 then
        if IsTrail(s[0]) || |s| == 1 then REPLACEMENT + ToBytes(s[1..], 0) else ToBytes(s[1..], s[0])
      else if IsLead(s[0]) then REPLACEMENT + ToBytes(s[1..], s[0])
      else Utf8(Pair(lead, s[0])) + ToBytes(s[1..], 0)
    else (if lead != 0 then REPLACEMENT else []) + Utf8(s[0]) + ToBytes(s[1..], 0)
  }

  /** The code point `utf8Slice` takes at the front of `b`, and how many bytes it advances. */
  function NextPoint(b: seq<byte>): (r: (scalar, nat))
    requires b != []
    ensures 1 <= r.1 <= |b|
  {
    var f: int := b[0];
    if f < 0x80 then (f, 1)
    else if 0xC0 <= f < 0xE0 && |b| >= 2 && Continues(b, 1) && f % 32 * 64 + Six(b, 1) > 0x7F then
      (f % 32 * 64 + Six(b, 1), 2)
    else if 0xE0 <= f < 0xF0 && |b| >= 3 && Continues(b, 1) && Continues(b, 2) then
      var c := f % 16 * 4096 + Six(b, 1) * 64 + Six(b, 2);
      if c > 0x7FF && (c < 0xD800 || c > 0xDFFF) then (c, 3) else (0xFFFD, 1)
    else if 0xF0 <= f && |b| >= 4 && Continues(b, 1) && Continues(b, 2) && Continues(b, 3) then
      var c := f % 16 * 262144 + Six(b, 1) * 4096 + Six(b, 2) * 64 + Six(b, 3);
      if 0xFFFF < c < 0x11_0000 then (c, 4) else (0xFFFD, 1)
    else (0xFFFD, 1)
  }

  predicate Continues(b: seq<byte>, i: nat)
    requires i < |b|
  {
    b[i] / 64 == 2
  }

  function Points(b: seq<byte>): seq<scalar> {
    if b == [] then []
    else var (c, k) := NextPoint(b); [c] + Points(b[k..])
  }

  /** `utf8Slice` over the whole buffer. */
  function Slice(b: seq<byte>): seq<uint16> {
    if b == [] then []
    else var (c, k) := NextPoint(b); Utf16(c) + Slice(b[k..])
  }

  lemma {:induction false} SliceIsUtf16OfPoints(b: seq<byte>)
    ensures Slice(b) == Utf16All(Points(b))
  {
    if b != [] {
      var (c, k) := NextPoint(b);
      SliceIsUtf16OfPoints(b[k..]);
      assert Points(b)[1..] == Points(b[k..]);
    }
  }

  /** Whatever the bytes, the decoded string has no lone surrogate. */
  lemma {:induction false} SliceWellFormed(b: seq<byte>)
    ensures WellFormed(Slice(b))
  {
    SliceIsUtf16OfPoints(b);
    ScalarsOfUtf16(Points(b));
  }

  lemma NextPointOfUtf8(v: scalar, rest: seq<byte>)
    ensures NextPoint(Utf8(v) + rest) == (v, |Utf8(v)|)
  {
    if v < 0x800 {
      SixBitDigits(v);
      MarkedDigits(v);
      assert v >= 0x80 ==> Six(Utf8(v) + rest, 1) == v % 64;
    } else if v < 0x1_0000 {
      NextPointOfThree(v, rest);
    } else {
      NextPointOfFour(v, rest);
    }
  }

  lemma NextPointOfThree(v: scalar, rest: seq<byte>)
    requires 0x800 <= v < 0x1_0000
    ensures NextPoint(Utf8(v) + rest) == (v, 3)
  {
    SixBitDigits(v);
    MarkedDigits(v);
    var s := Utf8(v) + rest;
    assert Six(s, 1) == v / 64 % 64 && Six(s, 2) == v % 64;
  }

  lemma NextPointOfFour(v: scalar, rest: seq<byte>)
    requires 0x1_0000 <= v
    ensures NextPoint(Utf8(v) + rest) == (v, 4)
  {
    SixBitDigits(v);
    MarkedDigits(v);
    var s := Utf8(v) + rest;
    assert Six(s, 1) == v / 4096 % 64 && Six(s, 2) == v / 64 % 64 && Six(s, 3) == v % 64;
  }

  lemma {:induction false} PointsOfUtf8(vs: seq<scalar>)
    ensures Points(Utf8All(vs)) == vs
  {
    if vs != [] {
      PointsOfUtf8(vs[1..]);
      NextPointOfUtf8(vs[0], Utf8All(vs[1..]));
      assert Utf8All(vs)[|Utf8(vs[0])|..] == Utf8All(vs[1..]);
    }
  }

  lemma {:induction false} ToBytesOfWellFormed(s: seq<uint16>)
    requires WellFormed(s)
    ensures ToBytes(s, 0) == Utf8All(Scalars(s))
  {
    if s != [] {
      if IsLead(s[0]) {
        ToBytesOfWellFormed(s[2..]);
        assert s[1..][1..] == s[2..];
        assert Scalars(s)[1..] == Scalars(s[2..]);
        assert ToBytes(s, 0) == ToBytes(s[1..], s[0]);
      } else {
        ToBytesOfWellFormed(s[1..]);
        assert Scalars(s)[1..] == Scalars(s[1..]);
      }
    }
  }

  /** Decoding undoes encoding exactly on well-formed UTF-16. */
  lemma {:induction false} SliceUndoesToBytes(s: seq<uint16>)
    ensures Slice(ToBytes(s, 0)) == s <==> WellFormed(s)
  {
    SliceWellFormed(ToBytes(s, 0));
    if WellFormed(s) {
      ToBytesOfWellFormed(s);
      SliceIsUtf16OfPoints(ToBytes(s, 0));
      PointsOfUtf8(Scalars(s));
    }
  }

  /** Re-encoding a decoded buffer gives its code points' UTF-8. */
  lemma {:induction false} ToBytesOfSlice(b: seq<byte>)
    ensures ToBytes(Slice(b), 0) == Utf8All(Points(b))
  {
    SliceIsUtf16OfPoints(b);
    ScalarsOfUtf16(Points(b));
    ToBytesOfWellFormed(Slice(b));
  }

  /** Encoding undoes decoding exactly on valid UTF-8. */
  lemma {:induction false} ToBytesUndoesSlice(b: seq<byte>)
    ensures ToBytes(Slice(b), 0) == b <==> IsUtf8(b)
  {
    ToBytesOfSlice(b);
    if IsUtf8(b) {
      var vs: seq<scalar> :| Utf8All(vs) == b;
      PointsOfUtf8(vs);
    }
  }

  /** Decoding, encoding and decoding again is decoding once, on any bytes. */
  lemma {:induction false} SliceStable(b: seq<byte>)
    ensures Slice(ToBytes(Slice(b), 0)) == Slice(b)
  {
    SliceWellFormed(b);
    SliceUndoesToBytes(Slice(b));
  }

  // ---- Closure stringToUtf8ByteArray ----

  /** Pairs take four bytes, every other unit one to three: lone surrogates are kept. */
  function ClosureBytes(s: seq<uint16>): seq<byte> {
    if s == [] then [] else Front(s) + ClosureBytes(s[Taken(s)..])
  }

  /** On well-formed strings the three encoders emit the same bytes, those of RFC 3629. */
  lemma {:induction false} EncodersAgree(s: seq<uint16>)
    requires WellFormed(s)
    ensures WriteUnits(s) == ClosureBytes(s) == ToBytes(s, 0) == Utf8All(Scalars(s))
  {
    ToBytesOfWellFormed(s);
    if s != [] {
      EncodersAgree(s[Taken(s)..]);
      assert Scalars(s)[1..] == Scalars(s[Taken(s)..]);
    }
  }

  /** Off well-formed strings the two differ exactly where `writeString` drops a lead. */
  lemma {:induction false} WriteIsClosureIffNothingDropped(s: seq<uint16>)
    ensures |WriteUnits(s)| <= |ClosureBytes(s)|
    ensures WriteUnits(s) == ClosureBytes(s) <==> NoLeadDropped(s)
  {
    if s != [] {
      var t := s[Taken(s)..];
      WriteIsClosureIffNothingDropped(t);
      if !Dropped(s) {
        NoLeadDroppedTail(s);
        assert WriteUnits(s)[|Front(s)|..] == WriteUnits(t);
        assert ClosureBytes(s)[|Front(s)|..] == ClosureBytes(t);
      } else {
        assert |WriteUnits(s)| < |ClosureBytes(s)|;
      }
    }
  }

  /** The two readers agree on valid UTF-8: `readString` returns what `utf8Slice` does. */
  lemma {:induction false} ReadersAgree(vs: seq<scalar>, rest: seq<byte>)
    ensures ReadUnits(Utf8All(vs) + rest, |Utf8All(vs)|) == (Slice(Utf8All(vs)), |Utf8All(vs)|)
  {
    if vs != [] {
      hide Utf8, Utf16, NextPoint, ReadUnit, ReadUnits;
      var w := Utf8All(vs[1..]);
      ReadersAgree(vs[1..], rest);
      ReadsScalar(vs[0], w + rest);
      NextPointOfUtf8(vs[0], w);
      ReadsOneMore(Utf8(vs[0]), Utf16(vs[0]), w, Slice(w), rest);
      assert Utf8All(vs) == Utf8(vs[0]) + w;
      assert Utf8All(vs)[|Utf8(vs[0])|..] == w;
    } else {
      assert [] + rest == rest;
    }
  }

  // ---- the decoders byte by byte ----

  lemma TwoInFront(f: byte, x: byte)
    requires 0xC0 <= f < 0xE0 && x / 64 == 2
    ensures var c := f as int % 32 * 64 + x % 64; c / 64 + 192 == f as int && c % 64 + 128 == x as int && c < 0x800
  {
    DivModUnique(f as int % 32 * 64 + x % 64, f % 32, 64, x % 64);
  }

  lemma ThreeInFront(f: byte, x: byte, y: byte)
    requires 0xE0 <= f < 0xF0 && x / 64 == 2 && y / 64 == 2
    ensures var c := f as int % 16 * 4096 + x as int % 64 * 64 + y % 64;
            && c / 4096 + 224 == f as int && c / 64 % 64 + 128 == x as int && c % 64 + 128 == y as int
            && c < 0x1_0000
  {
    var c := f as int % 16 * 4096 + x as int % 64 * 64 + y % 64;
    DivModUnique(c, f % 16, 4096, x as int % 64 * 64 + y % 64);
    DivModUnique(c, f as int % 16 * 64 + x % 64, 64, y % 64);
    DivModUnique(f as int % 16 * 64 + x % 64, f % 16, 64, x % 64);
  }

  lemma FourInFront(f: byte, x: byte, y: byte, z: byte)
    requires 0xF0 <= f && x / 64 == 2 && y / 64 == 2 && z / 64 == 2
    requires f as int % 16 * 262144 + x as int % 64 * 4096 + y as int % 64 * 64 + z % 64 < 0x11_0000
    ensures var c := f as int % 16 * 262144 + x as int % 64 * 4096 + y as int % 64 * 64 + z % 64;
            && c / 262144 + 240 == f as int && c / 4096 % 64 + 128 == x as int
            && c / 64 % 64 + 128 == y as int && c % 64 + 128 == z as int
  {
    var c := f as int % 16 * 262144 + x as int % 64 * 4096 + y as int % 64 * 64 + z % 64;
    DivModUnique(c, f % 16, 262144, x as int % 64 * 4096 + y as int % 64 * 64 + z % 64);
    DivModUnique(c, f as int % 16 * 64 + x % 64, 4096, y as int % 64 * 64 + z % 64);
    DivModUnique(f as int % 16 * 64 + x % 64, f % 16, 64, x % 64);
    DivModUnique(c, f as int % 16 * 4096 + x as int % 64 * 64 + y % 64, 64, z % 64);
    DivModUnique(f as int % 16 * 4096 + x as int % 64 * 64 + y % 64, f as int % 16 * 64 + x % 64, 64, y % 64);
  }

  lemma FormInFront(b: seq<byte>)
    requires b != [] && NextPoint(b) != (0xFFFD, 1)
    ensures Utf8(NextPoint(b).0) <= b && NextPoint(b).1 == |Utf8(NextPoint(b).0)|
  {
    var k := NextPoint(b).1;
    match k {
      case 1 =>
      case 2 => TwoInFront(b[0], b[1]);
      case 3 => ThreeInFront(b[0], b[1], b[2]);
      case _ => FourInFront(b[0], b[1], b[2], b[3]);
    }
  }

  /** `utf8Slice` on any bytes takes the code point whose form stands in front, or one byte as U+FFFD. */
  lemma NextPointIsForm(b: seq<byte>, v: scalar)
    requires b != []
    ensures Utf8(v) <= b ==> NextPoint(b) == (v, |Utf8(v)|)
    ensures NextPoint(b) == (0xFFFD, 1) || (Utf8(NextPoint(b).0) <= b && NextPoint(b).1 == |Utf8(NextPoint(b).0)|)
  {
    if Utf8(v) <= b {
      NextPointOfUtf8(v, b[|Utf8(v)|..]);
      assert Utf8(v) + b[|Utf8(v)|..] == b;
    }
    if NextPoint(b) != (0xFFFD, 1) {
      FormInFront(b);
    }
  }

  /** A lone surrogate: U+FFFD from `utf8ToBytes`, its own three bytes from the other two encoders. */
  lemma LoneSurrogates(u: uint16)
    requires u / 1024 == 54 || u / 1024 == 55
    ensures ToBytes([u], 0) == [0xEF, 0xBF, 0xBD]
    ensures WriteUnits([u]) == ClosureBytes([u]) == [0xE0 + u / 4096, 0x80 + u / 64 % 64, 0x80 + u % 64]
  {
    assert [u][1..] == [];
    assert ToBytes([], 0) == [] && WriteUnits([]) == [] && ClosureBytes([]) == [];
  }

  /** A pending lead: replaced before any other unit, lost at the end. */
  lemma PendingLead(lead: uint16, u: uint16)
    requires lead / 1024 == 54
    ensures u / 1024 != 54 && u / 1024 != 55 ==> ToBytes([lead, u], 0) == [0xEF, 0xBF, 0xBD] + Utf8(u)
    ensures u / 1024 == 54 ==> ToBytes([lead, u], 0) == [0xEF, 0xBF, 0xBD]
  {
    SurrogateBits(lead);
    assert [lead, u][1..] == [u] && [u][1..] == [];
    assert ToBytes([], 0) == [];
    assert ToBytes([lead, u], 0) == ToBytes([u], lead);
    SurrogateBits(u);
    if u / 1024 == 54 {
      assert ToBytes([], u) == [];
    }
  }

  /**
   * `readString` by the first byte, with zeros behind the end: strays are dropped, and the bytes
   * behind are taken without a look.
   */
  lemma ReadUnitByFirstByte(s: seq<byte>)
    requires s != []
    ensures s[0] / 128 == 0 ==> ReadUnit(s) == ([s[0]], 1)
    ensures s[0] / 64 == 2 || s[0] / 8 == 31 ==> ReadUnit(s) == ([], 1)
    ensures var t: seq<int> := s + [0, 0, 0];
            && (t[0] / 32 == 6 ==> ReadUnit(s) == ([t[0] % 32 * 64 + t[1] % 64], 2))
            && (t[0] / 16 == 14 ==> ReadUnit(s) == ([t[0] % 16 * 4096 + t[1] % 64 * 64 + t[2] % 64], 3))
            && (t[0] / 8 == 30 ==>
                  var v := t[0] % 8 * 262144 + t[1] % 64 * 4096 + t[2] % 64 * 64 + t[3] % 64 - 0x1_0000;
                  ReadUnit(s) == ([0xD800 + v / 1024 % 1024, 0xDC00 + v % 1024], 4))
  {
    var t: seq<int> := s + [0, 0, 0];
    assert t[0] == s[0];
    assert Six(s, 1) == t[1] % 64 && Six(s, 2) == t[2] % 64 && Six(s, 3) == t[3] % 64;
  }

  /** `readString(n)` takes units until n bytes are used, however many more the last unit takes. */
  lemma ReadUnitsTurn(s: seq<byte>, n: int)
    ensures n <= 0 ==> ReadUnits(s, n) == ([], 0)
    ensures n > 0 && s != [] ==>
              var (u, k) := ReadUnit(s);
              var (us, m) := ReadUnits(if k <= |s| then s[k..] else [], n - k);
              ReadUnits(s, n) == (u + us, k + m)
  {
    hide ReadUnit;
  }

  /** Past the end of the input it goes on to the end of the length and finds nothing. */
  lemma {:induction false} ReadUnitsPastTheEnd(n: int)
    ensures ReadUnits([], n) == ([], if n <= 0 then 0 else n)
    decreases n
  {
    if n > 0 {
      ReadUnitsPastTheEnd(n - 1);
    }
  }
}
