/** `jspb.BinaryDecoder` and `jspb.BinaryReader`: a cursor over a byte array. */
module Reader {
  import opened JsNumbers
  import opened Outcomes
  import opened Varints
  import opened StringCodecs
  import opened UInt64s
  import opened Wire

  /** An element of a typed array; -1 stands for `undefined`, beyond the end. */
  function At(bytes: seq<byte>, i: nat): int {
    if i < |bytes| then bytes[i] else -1
  }

  /** Comparisons with `undefined` are false, and masking it gives 0. */
  predicate Below(b: int, bound: nat) {
    0 <= b < bound
  }

  function Low7(b: int): nat {
    if b < 0 then 0 else b % 128
  }

  // ---- facts the loops rest on ----

  /** `1 << 7*k` for the first four bytes. */
  function Shift7(k: nat): (m: nat)
    requires k < 4
    ensures m == Pow128(k)
  {
    Pow128Values();
    if k == 0 then 1 else if k == 1 then 0x80 else if k == 2 then 0x4000 else 0x20_0000
  }

  /** `1 << 7*(k-5)+3` for bytes six to ten. */
  function HighShift(k: nat): (m: nat)
    requires 5 <= k < 10
    ensures m * 0x1_0000_0000 == Pow128(k)
  {
    HighPow128();
    if k == 5 then 8 else if k == 6 then 0x400 else if k == 7 then 0x2_0000
    else if k == 8 then 0x100_0000 else 0x8000_0000
  }

  lemma HighPow128()
    ensures Pow128(5) == 8 * 0x1_0000_0000 && Pow128(6) == 0x400 * 0x1_0000_0000
    ensures Pow128(7) == 0x2_0000 * 0x1_0000_0000 && Pow128(8) == 0x100_0000 * 0x1_0000_0000
    ensures Pow128(9) == 0x8000_0000 * 0x1_0000_0000
  {
    Pow128Values();
    assert Pow128(6) == 128 * Pow128(5) && Pow128(7) == 128 * Pow128(6) && Pow128(8) == 128 * Pow128(7);
  }

  lemma ValueOfNothing()
    ensures forall s: seq<byte> :: Value(s[..0]) == 0
    ensures Pow128(0) == 1
  {
  }

  lemma NextGroup(s: seq<byte>, k: nat)
    requires k < |s|
    ensures Value(s[..k + 1]) == Value(s[..k]) + s[k] % 128 * Pow128(k)
    ensures Value(s[..k + 1]) < Pow128(k + 1)
  {
    assert s[..k + 1] == s[..k] + [s[k]];
    ValueAppend(s[..k], s[k]);
    ValueBound(s[..k + 1]);
  }

  lemma FifthByte(c: nat, b: byte)
    requires c < 0x1000_0000
    ensures c + b % 16 * 0x1000_0000 == ToUint32(c + b % 128 * 0x1000_0000)
    ensures (c + b % 128 * 0x1000_0000) / 0x1_0000_0000 == b % 128 / 16
  {
    SevenBits(b);
    FifthBits(c, b % 128 / 16, b % 16);
  }

  lemma SevenBits(b: byte)
    ensures b % 128 == 16 * (b % 128 / 16) + b % 16
  {
  }

  lemma FifthBits(c: nat, q: nat, r: nat)
    requires c < 0x1000_0000 && r < 16
    ensures ToUint32(c + (16 * q + r) * 0x1000_0000) == c + r * 0x1000_0000
    ensures (c + (16 * q + r) * 0x1000_0000) / 0x1_0000_0000 == q
  {
    DivModUnique(c + (16 * q + r) * 0x1000_0000, q, 0x1_0000_0000, c + r * 0x1000_0000);
  }

  lemma Unfinished(s: seq<byte>, k: nat)
    requires k >= |s| && forall i :: 0 <= i < |s| ==> s[i] >= 128
    ensures Width(s) == None
  {
  }

  lemma TooLong(s: seq<byte>, k: nat)
    requires k <= |s| && forall i :: 0 <= i < k ==> s[i] >= 128
    ensures Width(s).None? || Width(s).value > k
  {
  }

  lemma NotRead(s: seq<byte>)
    ensures Width(s).None? || Width(s).value > 10 ==> Read32(s) == Throws
  {
    hide Value;
  }

  lemma ShortRead(s: seq<byte>, k: nat, c: uint32)
    requires Width(s) == Some(k) && k <= 5 && k <= |s| && c == Value(s[..k]) % 0x1_0000_0000
    ensures Read32(s) == Ok((c, k))
  {
    hide Value;
  }

  lemma LongRead(s: seq<byte>, k: nat, c: uint32)
    requires Width(s) == Some(k) && 5 < k <= 10 && k <= |s| && c == Value(s[..5]) % 0x1_0000_0000
    ensures Read32(s) == Ok((ToInt32(c), k))
  {
    hide Value, ToInt32;
    LowWord(s[..k], 5);
    assert s[..k][..5] == s[..5];
    SameInt32(Value(s[..k]), c);
  }

  lemma SameInt32(x: int, c: uint32)
    requires x % 0x1_0000_0000 == c
    ensures ToInt32(x) == ToInt32(c)
  {
  }

  lemma HighDiv(v: nat, m: nat)
    requires v < m * 0x1_0000_0000
    ensures v / 0x1_0000_0000 < m
  {
  }

  /** Each further byte adds its bits to the high word; of the tenth only the lowest bit counts. */
  lemma HighGroup(s: seq<byte>, k: nat)
    requires 5 <= k < 10 && k < |s|
    ensures var v, w := Value(s[..k]) / 0x1_0000_0000, Value(s[..k + 1]) / 0x1_0000_0000;
            w == v + s[k] % 128 * HighShift(k) && (k < 9 ==> w < HighShift(k + 1) < 0x1_0000_0000)
  {
    hide Value, Pow128;
    NextGroup(s, k);
    var v, b := Value(s[..k]), s[k] % 128;
    assert b * Pow128(k) == b * HighShift(k) * 0x1_0000_0000;
    DivModUnique(v + b * Pow128(k), v / 0x1_0000_0000 + b * HighShift(k), 0x1_0000_0000, v % 0x1_0000_0000);
    if k < 9 {
      HighDiv(Value(s[..k + 1]), HighShift(k + 1));
    }
  }

  lemma NextHighWord(s: seq<byte>, k: nat, d: nat)
    requires 5 <= k < 10 && k < |s| && d == Value(s[..k]) / 0x1_0000_0000 && d < HighShift(k)
    ensures var d' := ToUint32(d + Low7(s[k]) * HighShift(k));
            && d' == Value(s[..k + 1]) / 0x1_0000_0000 % 0x1_0000_0000
            && (k < 9 ==> d' == Value(s[..k + 1]) / 0x1_0000_0000 && d' < HighShift(k + 1))
  {
    hide Value, HighShift;
    HighGroup(s, k);
  }

  lemma SplitValue(s: seq<byte>, k: nat, c: nat, d: nat)
    requires 1 <= k <= 10 && k <= |s|
    requires c < 0x1_0000_0000
    requires k <= 5 ==> c == Value(s[..k]) % 0x1_0000_0000 && d == Value(s[..k]) / 0x1_0000_0000 < 0x1_0000_0000
    requires k > 5 ==> c == Value(s[..5]) % 0x1_0000_0000 && d == Value(s[..k]) / 0x1_0000_0000 % 0x1_0000_0000
    ensures d < 0x1_0000_0000 && UInt64(c, d).Value() == Value(s[..k]) % 0x1_0000_0000_0000_0000
  {
    hide Value;
    var v := Value(s[..k]);
    if k > 5 {
      LowWord(s[..k], 5);
      assert s[..k][..5] == s[..5];
    }
    Carry(v / 0x1_0000_0000, v % 0x1_0000_0000);
    assert v == v / 0x1_0000_0000 * 0x1_0000_0000 + v % 0x1_0000_0000;
  }

  /** With `done` decoded from `used` bytes, what is left completes the whole result. */
  ghost predicate Decoded(s: seq<byte>, n: int, done: seq<uint16>, used: nat, all: (seq<uint16>, nat)) {
    done + ReadUnits(s, n).0 == all.0 && used + ReadUnits(s, n).1 == all.1
  }

  lemma DecodedStart(s: seq<byte>, n: int)
    ensures Decoded(s, n, [], 0, ReadUnits(s, n))
  {
    hide ReadUnits;
    assert [] + ReadUnits(s, n).0 == ReadUnits(s, n).0;
  }

  lemma DecodedEnd(s: seq<byte>, n: int, done: seq<uint16>, used: nat, all: (seq<uint16>, nat))
    requires n <= 0 && Decoded(s, n, done, used, all)
    ensures (done, used) == all
  {
    assert done + [] == done;
  }

  lemma DecodedStep(s: seq<byte>, n: int, done: seq<uint16>, used: nat, all: (seq<uint16>, nat))
    requires n > 0 && Decoded(s, n, done, used, all)
    ensures var (u, k) := ReadUnit(s);
            Decoded(Drop(s, k), n - k, done + u, used + k, all)
  {
    hide ReadUnit;
    var (u, k) := ReadUnit(s);
    var rest := ReadUnits(Drop(s, k), n - k);
    assert done + (u + rest.0) == (done + u) + rest.0;
  }

  lemma DropDrop(s: seq<byte>, c: nat, k: nat)
    ensures Drop(Drop(s, c), k) == Drop(s, c + k)
  {
  }

  class BinaryDecoder {
    const bytes: seq<byte>
    var cursor: nat

    constructor (b: seq<byte>)
      ensures bytes == b && cursor == 0
    {
      bytes, cursor := b, 0;
    }

    /** What is left to read. */
    ghost function Rest(): seq<byte>
      requires cursor <= |bytes|
      reads this
    {
      bytes[cursor..]
    }

    predicate AtEnd()
      reads this
    {
      cursor == |bytes|
    }

    /** `cursor += a` and the check that it stays inside; negative steps are not modelled further. */
    method Advance(a: int) returns (r: Outcome<()>)
      requires cursor <= |bytes|
      modifies this
      ensures r == if a < 0 then Backward else if a > |old(Rest())| then Throws else Ok(())
      ensures cursor == old(cursor) + if a < 0 then 0 else a
    {
      if a < 0 {
        return Backward;
      }
      cursor := cursor + a;
      if cursor > |bytes| {
        return Throws;
      }
      r := Ok(());
    }

    /** The first four bytes, whose bits all fit below bit 28; `b` is the last byte read. */
    method ReadLowGroups(ghost s: seq<byte>) returns (b: int, c: nat, ghost k: nat)
      requires cursor <= |bytes| && s == Rest()
      modifies this
      ensures cursor == old(cursor) + k || b < 0
      ensures b < 0 ==> Width(s).None?
      ensures 0 <= b < 128 ==> 1 <= k <= 4 && Width(s) == Some(k)
      ensures b >= 128 ==> k == 4 <= |s| && forall i :: 0 <= i < 4 ==> s[i] >= 128
      ensures b >= 0 ==> k <= |s| && c == Value(s[..k]) < 0x1000_0000
    {
      hide Value, Width, Pow128;
      Pow128Values();
      ValueOfNothing();
      b, c, k := 128, 0, 0;
      var e := 0;
      while e < 4 && 128 <= b
        invariant e == k <= 4 && k <= |s| && cursor == old(cursor) + k
        invariant b >= 128 ==> forall i :: 0 <= i < k ==> s[i] >= 128
        invariant 0 <= b < 128 ==> k >= 1 && Width(s) == Some(k)
        invariant 0 <= b && c == Value(s[..k]) < Pow128(k) && Pow128(k) <= 0x1000_0000
      {
        b := At(bytes, cursor);
        cursor := cursor + 1;
        if b < 0 {
          Unfinished(s, k);
          return;
        }
        NextGroup(s, k);
        c := c + Low7(b) * Shift7(e);
        e := e + 1;
        k := k + 1;
        if b < 128 {
          WidthAt(s, k);
        }
      }
    }

    /** The fifth byte: four bits complete the low word, the other three start the high word. */
    method ReadFifth(ghost s: seq<byte>, c0: nat) returns (b: int, c: uint32, d: nat)
      requires 4 <= cursor <= |bytes| && |s| >= 4 && bytes[cursor - 4..] == s
      requires c0 == Value(s[..4]) < 0x1000_0000 && forall i :: 0 <= i < 4 ==> s[i] >= 128
      modifies this
      ensures cursor == old(cursor) + 1
      ensures b < 0 ==> Width(s).None?
      ensures 0 <= b < 128 ==> Width(s) == Some(5)
      ensures b >= 128 ==> |s| >= 5 && forall i :: 0 <= i < 5 ==> s[i] >= 128
      ensures b >= 0 ==> cursor <= |bytes| && |s| >= 5 &&
                         c == Value(s[..5]) % 0x1_0000_0000 && d == Value(s[..5]) / 0x1_0000_0000 < 8
    {
      hide Value, Width, Pow128;
      Pow128Values();
      b, c, d := At(bytes, cursor), 0, 0;
      cursor := cursor + 1;
      if b < 0 {
        Unfinished(s, 4);
        return;
      }
      NextGroup(s, 4);
      FifthByte(c0, b);
      c, d := c0 + b % 16 * 0x1000_0000, b % 128 / 16;
      if b < 128 {
        WidthAt(s, 5);
      }
    }

    /**
     * The loop for the first four bytes is unrolled in the source. A fifth byte that
     * ends the varint gives an unsigned result, a later one a signed result.
     */
    method ReadUnsignedVarint32() returns (r: Outcome<int>)
      requires cursor <= |bytes|
      modifies this
      ensures match Read32(old(Rest()))
              case Ok((v, k)) => r == Ok(v) && cursor == old(cursor) + k <= |bytes|
              case _ => r == Throws
    {
      hide Value, Width, Read32;
      ghost var s := Rest();
      NotRead(s);
      var b, c, k := ReadLowGroups(s);
      if b < 0 {
        return Throws;
      }
      if Below(b, 128) {
        ShortRead(s, k, c);
        return Ok(c);
      }
      var d;
      b, c, d := ReadFifth(s, c);
      if b < 0 {
        return Throws;
      }
      if Below(b, 128) {
        ShortRead(s, 5, c);
        return Ok(c);
      }
      var n := SkipTail(s);
      if n.None? {
        return Throws;
      }
      LongRead(s, n.value, c);
      r := Ok(ToInt32(c));
    }

    /** Bytes six to ten are only checked: one of them must end the varint. */
    method SkipTail(ghost s: seq<byte>) returns (n: Option<nat>)
      requires 5 <= cursor <= |bytes| && |s| >= 5 && bytes[cursor - 5..] == s
      requires forall i :: 0 <= i < 5 ==> s[i] >= 128
      modifies this
      ensures n.Some? ==> Width(s) == Some(n.value) && 6 <= n.value <= 10
      ensures n.Some? ==> cursor == old(cursor) + n.value - 5 <= |bytes|
      ensures n.None? ==> Width(s).None? || Width(s).value > 10
    {
      hide Width;
      var k := 5;
      while k < 10
        invariant 5 <= k <= 10 && cursor == old(cursor) + k - 5
        invariant k <= |s| && forall i :: 0 <= i < k ==> s[i] >= 128
      {
        var b := At(bytes, cursor);
        cursor := cursor + 1;
        k := k + 1;
        if !(128 <= b) {
          if cursor > |bytes| {
            Unfinished(s, k - 1);
            return None;
          }
          WidthAt(s, k);
          return Some(k);
        }
      }
      TooLong(s, 10);
      n := None;
    }

    /** `readSplitVarint64`: the low and the high word of a varint of up to ten bytes. */
    method ReadSplitVarint64() returns (r: Outcome<UInt64>)
      requires cursor <= |bytes|
      modifies this
      ensures match Read64(old(Rest()))
              case Ok((v, k)) => r.Ok? && r.value.Value() == v && cursor == old(cursor) + k <= |bytes|
              case _ => r == Throws
    {
      hide Value, Width, UInt64.Value;
      ghost var s := Rest();
      var d := 0;
      var b, c, k := ReadLowGroups(s);
      if 128 <= b {
        b, c, d := ReadFifth(s, c);
        k := 5;
      }
      if 128 <= b {
        b, d, k := ReadHighWord(s, d);
      }
      if b < 0 {
        return Throws;
      }
      SplitValue(s, k, c, d);
      r := Ok(UInt64(c, d));
    }

    /** The second loop of `readSplitVarint64`: bytes six to ten go to the high word. */
    method ReadHighWord(ghost s: seq<byte>, d0: nat) returns (b: int, d: nat, ghost k: nat)
      requires 5 <= cursor <= |bytes| && |s| >= 5 && bytes[cursor - 5..] == s
      requires d0 == Value(s[..5]) / 0x1_0000_0000 < 8
      requires forall i :: 0 <= i < 5 ==> s[i] >= 128
      modifies this
      ensures b < 0 ==> Width(s).None? || Width(s).value > 10
      ensures 0 <= b ==> 6 <= k <= 10 && Width(s) == Some(k) && cursor == old(cursor) + k - 5 <= |bytes|
      ensures b >= 0 ==> d == Value(s[..k]) / 0x1_0000_0000 % 0x1_0000_0000
    {
      hide Width, Value, Pow128, ToUint32;
      b, d, k := 128, d0, 5;
      var e := 5;
      while e < 10 && 128 <= b
        invariant 5 <= e == k <= 10 && k <= |s| && cursor == old(cursor) + k - 5
        invariant b >= 128 ==> forall i :: 0 <= i < k ==> s[i] >= 128
        invariant 0 <= b < 128 ==> k >= 6 && Width(s) == Some(k)
        invariant 0 <= b && d == Value(s[..k]) / 0x1_0000_0000 % 0x1_0000_0000
        invariant b >= 128 ==> k < 10 ==> d == Value(s[..k]) / 0x1_0000_0000 && d < HighShift(k)
      {
        b := At(bytes, cursor);
        cursor := cursor + 1;
        if b < 0 {
          Unfinished(s, k);
          return;
        }
        NextHighWord(s, k, d);
        d := ToUint32(d + Low7(b) * HighShift(e));
        e := e + 1;
        k := k + 1;
        if b < 128 {
          WidthAt(s, k);
        }
      }
      if 128 <= b {
        TooLong(s, 10);
        b := -1;
      }
    }

    method SkipVarintBytes()
      requires cursor <= |bytes|
      modifies this
      ensures cursor == old(cursor) + SkipVarint(old(Rest()))
    {
      ghost var s := Rest();
      ghost var k := 0;
      while At(bytes, cursor) >= 128
        invariant cursor == old(cursor) + k && k <= |s|
        invariant forall i :: 0 <= i < k ==> s[i] >= 128
        decreases |bytes| - cursor
      {
        cursor := cursor + 1;
        k := k + 1;
      }
      if k < |s| {
        WidthAt(s, k + 1);
      } else {
        Unfinished(s, k);
      }
      cursor := cursor + 1;
    }

    /**
     * `readString`: decodes until `a` bytes are used up, joining what it has
     * whenever 8192 units have piled up.
     */
    method ReadString(a: int) returns (e: seq<uint16>)
      requires cursor <= |bytes|
      modifies this
      ensures (e, cursor - old(cursor)) == ReadUnits(old(Rest()), a)
    {
      hide Decoded, ReadUnits, ReadUnit;
      var c := cursor;
      var end := c + a;
      var d: seq<uint16> := [];
      e := [];
      ghost var s, n := Rest(), a;
      ghost var all := ReadUnits(s, n);
      DecodedStart(s, n);
      assert s == Drop(bytes, c) && e + d == [];
      while c < end
        invariant c >= cursor && cursor == old(cursor) && s == Drop(bytes, c) && n == end - c
        invariant Decoded(s, n, e + d, c - cursor, all)
        decreases end - c
      {
        DecodedStep(s, n, e + d, c - cursor, all);
        var f, k := DecodeUnit(c);
        DropDrop(bytes, c, k);
        var next := Push(e, d, f);
        e, d := next.0, next.1;
        c := c + k;
        s, n := Drop(s, k), n - k;
      }
      DecodedEnd(s, n, e + d, c - cursor, all);
      e := e + d;
      cursor := c;
    }

    /** Pushes units on `d`; 8192 of them are joined to the string and `d` is emptied. */
    function Push(e: seq<uint16>, d: seq<uint16>, f: seq<uint16>): (r: (seq<uint16>, seq<uint16>))
      ensures r.0 + r.1 == (e + d) + f
    {
      assert e + (d + f) == (e + d) + f;
      if 8192 <= |d + f| then (e + (d + f), []) else (e, d + f)
    }

    /** One turn of the `readString` loop: the units of the lead byte at `c`. */
    method DecodeUnit(c: nat) returns (units: seq<uint16>, k: nat)
      ensures (units, k) == ReadUnit(Drop(bytes, c))
    {
      ghost var s := Drop(bytes, c);
      var f := At(bytes, c);
      var g, h, j := Six(bytes, c + 1), Six(bytes, c + 2), Six(bytes, c + 3);
      assert g == Six(s, 1) && h == Six(s, 2) && j == Six(s, 3);
      units, k := [], 1;
      assert c < |bytes| ==> s != [] && f == s[0];
      assert c >= |bytes| ==> s == [];
      if Below(f, 128) {
        units := [f];
      } else if Below(f, 192) {
      } else if Below(f, 224) {
        units, k := [f % 32 * 64 + g], 2;
      } else if Below(f, 240) {
        units, k := [f % 16 * 4096 + g * 64 + h], 3;
      } else if Below(f, 248) {
        f := f % 8 * 262144 + g * 4096 + h * 64 + j;
        f := f - 65536;
        units, k := [f / 1024 % 1024 + 55296, f % 1024 + 56320], 4;
      }
    }

    method ReadBytes(a: int) returns (r: Outcome<seq<byte>>)
      requires cursor <= |bytes|
      modifies this
      ensures r == if 0 <= a <= |old(Rest())| then Ok(old(Rest())[..a]) else Throws
      ensures r.Ok? ==> cursor == old(cursor) + a
    {
      if 0 > a || cursor + a > |bytes| {
        return Throws;
      }
      var b := bytes[cursor..cursor + a];
      assert b == Rest()[..a];
      cursor := cursor + a;
      r := Ok(b);
    }
  }
}
