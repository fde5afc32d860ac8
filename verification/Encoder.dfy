/** `jspb.BinaryEncoder`: a growing byte buffer. */
module Encoder {
  import opened JsNumbers
  import opened Unicode
  import opened StringCodecs
  import opened Varints
  import opened LittleEndians
  import opened UInt64s

  /** The body of the loop: pushes the bytes of the unit or pair at `c`, or nothing. */
  method PushUnit(a: seq<uint16>, c0: nat) returns (p: seq<byte>, c: nat)
    requires c0 < |a|
    ensures p == if Dropped(a[c0..]) then [] else Front(a[c0..])
    ensures c == c0 + Taken(a[c0..]) - 1
  {
    hide WriteUnits, Front, Pair, TwoByteForm, FourByteForm, ThreeBytes;
    ghost var t := a[c0..];
    FrontForms(t);
    c := c0;
    p := [];
    var d: int := a[c];
    if d < 128 {
      p := [d];
    } else if d < 2048 {
      p := TwoByteForm(d);
    } else if 55296 <= d <= 56319 && c + 1 < |a| {
      var e: int := a[c + 1];
      if 56320 <= e <= 57343 {
        d := 1024 * (d - 55296) + e - 56320 + 65536;
        p := FourByteForm(d);
        c := c + 1;
      }
    } else {
      p := ThreeBytes(d);
    }
  }

  lemma EncodeStep(buffer: seq<byte>, v: nat)
    ensures v >= 128 ==> buffer + Encode(v) == (buffer + [v % 128 + 128]) + Encode(v / 128)
  {
  }

  /** `(lo >>> 7 | hi << 25) >>> 0` and `hi >>> 7` halve the number seven times. */
  lemma SevenBitsDown(lo: uint32, hi: uint32)
    ensures lo / 128 + hi % 128 * 0x200_0000 < 0x1_0000_0000
    ensures UInt64(lo / 128 + hi % 128 * 0x200_0000, hi / 128).Value() == UInt64(lo, hi).Value() / 128
    ensures UInt64(lo, hi).Value() % 128 == lo % 128
  {
    var v := UInt64(lo, hi).Value();
    DivModUnique(v, hi / 128 * 0x1_0000_0000 + hi % 128 * 0x200_0000 + lo / 128, 128, lo % 128);
  }

  /** The bytes so far and the varint of what is left make up the whole. */
  predicate SplitLeft(buffer: seq<byte>, lo: uint32, hi: uint32, all: seq<byte>) {
    buffer + Encode(UInt64(lo, hi).Value()) == all
  }

  lemma SplitLeftStart(buffer: seq<byte>, lo: uint32, hi: uint32)
    ensures SplitLeft(buffer, lo, hi, buffer + Encode(UInt64(lo, hi).Value()))
  {
  }

  lemma SplitLeftStep(buffer: seq<byte>, lo: uint32, hi: uint32, all: seq<byte>)
    requires SplitLeft(buffer, lo, hi, all) && (0 < hi || 127 < lo)
    ensures var lo' := lo / 128 + hi % 128 * 0x200_0000;
            lo' < 0x1_0000_0000 && (hi / 128 < hi || (hi == 0 && lo' < lo))
    ensures SplitLeft(buffer + [lo % 128 + 128], lo / 128 + hi % 128 * 0x200_0000, hi / 128, all)
  {
    SevenBitsDown(lo, hi);
    assert UInt64(lo, hi).Value() >= 128;
    hide Encode, UInt64.Value;
    EncodeStep(buffer, UInt64(lo, hi).Value());
  }

  lemma SplitLeftEnd(buffer: seq<byte>, lo: uint32, all: seq<byte>)
    requires SplitLeft(buffer, lo, 0, all) && lo < 128
    ensures buffer + [lo] == all
  {
  }

  lemma Pow2Values()
    ensures Pow2(1) == 2 && Pow2(8) == 256 && Pow2(15) == 0x8000 && Pow2(22) == 0x40_0000 && Pow2(29) == 0x2000_0000
    ensures Pow2(36) == 0x10_0000_0000 && Pow2(43) == 0x800_0000_0000 && Pow2(50) == 0x4_0000_0000_0000
    ensures Pow2(57) == 0x200_0000_0000_0000 && Pow2(64) == 0x1_0000_0000_0000_0000
  {
    Pow2Seven(1);
    Pow2Seven(8);
    Pow2Seven(15);
    Pow2Seven(22);
    Pow2Seven(29);
    Pow2Seven(36);
    Pow2Seven(43);
    Pow2Seven(50);
    Pow2Seven(57);
  }

  lemma Pow2Seven(k: nat)
    ensures Pow2(k + 7) == 128 * Pow2(k)
  {
    assert Pow2(k + 2) == 4 * Pow2(k) && Pow2(k + 4) == 4 * Pow2(k + 2) && Pow2(k + 6) == 4 * Pow2(k + 4);
  }

  lemma EncodeOne()
    ensures Encode(1) == [1]
  {
  }

  lemma {:induction false} Pow2Mono(j: nat, k: nat)
    requires j <= k
    ensures Pow2(j) <= Pow2(k)
  {
    if j < k {
      Pow2Mono(j, k - 1);
    }
  }

  /** What is left of the number stays above its last seven bits until the tenth byte. */
  lemma SignRoom(b: nat, v: int)
    requires b < 9 && -0x8000_0000 <= v < 0 && (b >= 5 ==> v == -1)
    ensures Pow2(64 - 7 * b) + v >= 128
  {
    if b >= 5 {
      Pow2Mono(8, 64 - 7 * b);
    } else {
      Pow2Mono(36, 64 - 7 * b);
    }
    Pow2Values();
  }

  /** The sign-extended number and the int32 agree on the seven bits taken. */
  lemma SignStep(b: nat, v: int)
    requires b < 9 && -0x8000_0000 <= v < 0 && Pow2(64 - 7 * b) + v >= 128
    ensures var p := Pow2(64 - 7 * b);
            p / 128 == Pow2(64 - 7 * (b + 1)) &&
            (p + v) % 128 == v % 128 && (p + v) / 128 == p / 128 + v / 128
  {
    var q := Pow2(64 - 7 * (b + 1));
    Pow2Seven(64 - 7 * (b + 1));
    DivModUnique(128 * q + v, q + v / 128, 128, v % 128);
  }

  /** After b shifts of a negative int32: what is left, and the power of two its sign extension adds. */
  predicate SignLeft(b: nat, v: int, p: int) {
    && b <= 9 && p == Pow2(64 - 7 * b) && -0x8000_0000 <= v < 0
    && (b >= 1 ==> v >= -0x100_0000)
    && (b >= 2 ==> v >= -0x2_0000)
    && (b >= 3 ==> v >= -0x400)
    && (b >= 4 ==> v >= -8)
    && (b >= 5 ==> v == -1)
    && (b == 9 ==> p == 2)
  }

  lemma SignLeftStart(v: int32)
    requires v < 0
    ensures SignLeft(0, v, 0x1_0000_0000_0000_0000)
  {
    hide Pow2;
    Pow2Values();
  }

  lemma SignLeftEnd(v: int, p: int)
    requires SignLeft(9, v, p)
    ensures p + v == 1
  {
    hide Pow2;
  }

  lemma SignLeftStep(b: nat, v: int, p: int)
    requires b < 9 && SignLeft(b, v, p)
    ensures p + v >= 128 && p / 128 + v / 128 >= 0
    ensures SignLeft(b + 1, v / 128, p / 128)
    ensures (p + v) % 128 == v % 128 && (p + v) / 128 == p / 128 + v / 128
  {
    hide Pow2;
    SignRoom(b, v);
    SignStep(b, v);
    Pow2Values();
  }

  lemma FourDigits(a: uint32)
    ensures Digits(a, 4) == [a % 256, a / 0x100 % 256, a / 0x1_0000 % 256, a / 0x100_0000 % 256]
  {
    assert Pow256(1) == 0x100 && Pow256(2) == 0x1_0000 && Pow256(3) == 0x100_0000;
  }

  /** With the units `t` still to come the buffer will become `all`. */
  predicate Coming(buffer: seq<byte>, t: seq<uint16>, all: seq<byte>) {
    buffer + WriteUnits(t) == all
  }

  /** What one turn of the `writeString` loop has to push: the front of the rest, or nothing. */
  lemma WriteStep(t: seq<uint16>, buffer: seq<byte>, all: seq<byte>)
    requires t != [] && Coming(buffer, t, all)
    ensures Coming(buffer + if Dropped(t) then [] else Front(t), t[Taken(t)..], all)
  {
    hide Front;
    var rest := WriteUnits(t[Taken(t)..]);
    if Dropped(t) {
      assert WriteUnits(t) == [] + rest == rest && buffer + [] == buffer;
    } else {
      assert buffer + (Front(t) + rest) == (buffer + Front(t)) + rest;
    }
  }

  class BinaryEncoder {
    var buffer: seq<byte>

    constructor ()
      ensures buffer == []
    {
      buffer := [];
    }

    /** Hands the buffer over and starts a new one. */
    method End() returns (b: seq<byte>)
      modifies this
      ensures b == old(buffer) && buffer == []
    {
      b := buffer;
      buffer := [];
    }

    method WriteUnsignedVarint32(a: uint32)
      modifies this
      ensures buffer == old(buffer) + Encode(a)
    {
      var v := a;
      while 127 < v
        invariant buffer + Encode(v) == old(buffer) + Encode(a)
      {
        EncodeStep(buffer, v);
        buffer := buffer + [v % 128 + 128];
        v := v / 128;
      }
      buffer := buffer + [v];
    }

    method WriteSplitVarint64(lo: uint32, hi: uint32)
      modifies this
      ensures buffer == old(buffer) + Encode(UInt64(lo, hi).Value())
    {
      var a, b := lo, hi;
      ghost var all := buffer + Encode(UInt64(lo, hi).Value());
      hide Encode, UInt64.Value, SplitLeft;
      SplitLeftStart(buffer, lo, hi);
      while 0 < b || 127 < a
        invariant SplitLeft(buffer, a, b, all)
        decreases b, a
      {
        SplitLeftStep(buffer, a, b, all);
        buffer := buffer + [a % 128 + 128];
        a, b := a / 128 + b % 128 * 0x200_0000, b / 128;
      }
      SplitLeftEnd(buffer, a, all);
      buffer := buffer + [a];
    }

    /** A negative number takes ten bytes: nine shifts of its sign-extended bits, then 1. */
    method WriteSignedVarint32(a: int32)
      modifies this
      ensures buffer == old(buffer) + EncodeSigned(a)
    {
      if 0 <= a {
        WriteUnsignedVarint32(a);
      } else {
        var v := a;
        ghost var p: nat := 0x1_0000_0000_0000_0000;
        SignLeftStart(a);
        hide Encode, EncodeSigned, Pow2, SignLeft;
        for b := 0 to 9
          invariant SignLeft(b, v, p)
          invariant p + v >= 0 && buffer + Encode(p + v) == old(buffer) + EncodeSigned(a)
        {
          SignLeftStep(b, v, p);
          EncodeStep(buffer, p + v);
          buffer := buffer + [v % 128 + 128];
          v := v / 128;
          p := p / 128;
        }
        EncodeOne();
        SignLeftEnd(v, p);
        buffer := buffer + [1];
      }
    }

    method WriteUint32(a: uint32)
      modifies this
      ensures buffer == old(buffer) + Digits(a, 4)
    {
      FourDigits(a);
      buffer := buffer + [a % 256];
      buffer := buffer + [a / 0x100 % 256];
      buffer := buffer + [a / 0x1_0000 % 256];
      buffer := buffer + [a / 0x100_0000 % 256];
    }

    method WriteSplitFixed64(lo: uint32, hi: uint32)
      modifies this
      ensures buffer == old(buffer) + Digits(lo, 4) + Digits(hi, 4)
    {
      WriteUint32(lo);
      WriteUint32(hi);
    }

    method WriteBytes(b: seq<byte>)
      modifies this
      ensures buffer == old(buffer) + b
    {
      buffer := buffer + b;
    }

    /** Returns the number of bytes written. */
    method WriteString(a: seq<uint16>) returns (n: nat)
      modifies this
      ensures buffer == old(buffer) + WriteUnits(a)
      ensures n == |WriteUnits(a)|
    {
      var b := |buffer|;
      var c := 0;
      ghost var all := buffer + WriteUnits(a);
      assert a[0..] == a;
      while c < |a|
        invariant 0 <= c <= |a| && Coming(buffer, a[c..], all)
      {
        hide Coming, WriteUnits, Front;
        ghost var t := a[c..];
        WriteStep(t, buffer, all);
        var p;
        p, c := PushUnit(a, c);
        buffer := buffer + p;
        c := c + 1;
        assert t[Taken(t)..] == a[c..];
      }
      assert buffer + [] == buffer;
      n := |buffer| - b;
    }
  }
}
