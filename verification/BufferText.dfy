/** The loops of Buffer's and Closure's string codecs, proved against StringCodecs. */
module BufferText {
  import opened JsNumbers
  import opened Outcomes
  import opened Unicode
  import opened StringCodecs

  const MAX_ARGUMENTS_LENGTH: nat := 0x1000

  /**
   * The code points `utf8ToBytes` encodes: U+FFFD for a lone surrogate, nothing for a pending
   * lead at the end; `lead` is the pending lead, or 0.
   */
  function UnitPoints(s: seq<uint16>, lead: uint16): seq<scalar>
    requires lead == 0 || IsLead(lead)
  {
    if s == [] then []
    else if IsLead(s[0]) || IsTrail(s[0]) then
      if lead == 0 then
        if IsTrail(s[0]) || |s| == 1 then [0xFFFD] + UnitPoints(s[1..], 0) else UnitPoints(s[1..], s[0])
      else if IsLead(s[0]) then [0xFFFD] + UnitPoints(s[1..], s[0])
      else [Pair(lead, s[0])] + UnitPoints(s[1..], 0)
    else (if lead != 0 then [0xFFFD] else []) + ([s[0] as scalar] + UnitPoints(s[1..], 0))
  }

  lemma {:induction false} UnitPointsBytes(s: seq<uint16>, lead: uint16)
    requires lead == 0 || IsLead(lead)
    ensures Utf8All(UnitPoints(s, lead)) == ToBytes(s, lead)
  {
    hide Utf8, Pair;
    ReplacementBytes();
    if s != [] {
      var rest := s[1..];
      if IsLead(s[0]) || IsTrail(s[0]) {
        if lead == 0 {
          if IsTrail(s[0]) || |s| == 1 {
            UnitPointsBytes(rest, 0);
            OnePoint(0xFFFD, UnitPoints(rest, 0));
          } else {
            UnitPointsBytes(rest, s[0]);
          }
        } else if IsLead(s[0]) {
          UnitPointsBytes(rest, s[0]);
          OnePoint(0xFFFD, UnitPoints(rest, s[0]));
        } else {
          UnitPointsBytes(rest, 0);
          OnePoint(Pair(lead, s[0]), UnitPoints(rest, 0));
        }
      } else {
        UnitPointsBytes(rest, 0);
        var tail := [s[0] as scalar] + UnitPoints(rest, 0);
        OnePoint(s[0], UnitPoints(rest, 0));
        OnePoint(0xFFFD, tail);
        assert [] + tail == tail;
        assert REPLACEMENT + (Utf8(s[0]) + ToBytes(rest, 0)) == (REPLACEMENT + Utf8(s[0])) + ToBytes(rest, 0);
        assert [] + Utf8(s[0]) == Utf8(s[0]);
      }
    }
  }

  lemma ReplacementBytes()
    ensures Utf8(0xFFFD) == REPLACEMENT
  {
  }

  lemma OnePoint(v: scalar, vs: seq<scalar>)
    ensures Utf8All([v] + vs) == Utf8(v) + Utf8All(vs)
  {
    assert ([v] + vs)[1..] == vs;
  }

  /** The code points that fit a limit in bytes, none standing for infinity. */
  function Fitting(vs: seq<scalar>, units: Option<int>): seq<scalar> {
    if vs == [] || (units.Some? && units.value < |Utf8(vs[0])|) then []
    else [vs[0]] + Fitting(vs[1..], Less(units, |Utf8(vs[0])|))
  }

  function Less(units: Option<int>, k: nat): Option<int> {
    if units.Some? then Some(units.value - k) else None
  }

  /** They are the longest prefix that fits, and without a limit everything. */
  lemma {:induction false} FittingIsLongest(vs: seq<scalar>, units: Option<int>)
    requires units.Some? ==> units.value >= 0
    ensures Fitting(vs, units) <= vs && (units.None? ==> Fitting(vs, units) == vs)
    ensures units.Some? ==>
              var k := |Fitting(vs, units)|;
              |Utf8All(vs[..k])| <= units.value && (k < |vs| ==> |Utf8All(vs[..k + 1])| > units.value)
  {
    hide Utf8;
    if vs != [] {
      if units.Some? && units.value < |Utf8(vs[0])| {
        assert vs[..1] == [vs[0]] + [];
        OnePoint(vs[0], []);
      } else {
        FittingIsLongest(vs[1..], Less(units, |Utf8(vs[0])|));
        var k := |Fitting(vs[1..], Less(units, |Utf8(vs[0])|))|;
        OnePoint(vs[0], vs[1..][..k]);
        assert vs[..k + 1] == [vs[0]] + vs[1..][..k];
        if k + 1 < |vs| {
          OnePoint(vs[0], vs[1..][..k + 1]);
          assert vs[..k + 2] == [vs[0]] + vs[1..][..k + 1];
        }
      }
    }
  }

  /** With the points `vs` still to come within the limit, `bytes` will become `all`. */
  predicate Coming(bytes: seq<byte>, vs: seq<scalar>, units: Option<int>, all: seq<byte>) {
    bytes + Utf8All(Fitting(vs, units)) == all
  }

  /** A point is pushed if it still fits; otherwise nothing more will be. */
  lemma ComingPoint(bytes: seq<byte>, v: scalar, vs: seq<scalar>, units: Option<int>, all: seq<byte>)
    requires Coming(bytes, [v] + vs, units, all)
    ensures var left := Less(units, |Utf8(v)|);
            if left.Some? && left.value < 0 then bytes == all && Coming(bytes, vs, left, all)
            else Coming(bytes + Utf8(v), vs, left, all)
  {
    hide Utf8;
    var left := Less(units, |Utf8(v)|);
    assert ([v] + vs)[1..] == vs;
    assert bytes + [] == bytes;
    if !(left.Some? && left.value < 0) {
      OnePoint(v, Fitting(vs, left));
      assert bytes + (Utf8(v) + Utf8All(Fitting(vs, left))) == (bytes + Utf8(v)) + Utf8All(Fitting(vs, left));
    }
  }

  lemma ComingEnds(bytes: seq<byte>, units: Option<int>, all: seq<byte>)
    requires Coming(bytes, [], units, all)
    ensures bytes == all
  {
    assert bytes + [] == bytes;
  }

  /** What is to come behind the next unit. */
  lemma UnitStep(t: seq<uint16>, lead: uint16)
    requires t != [] && (lead == 0 || IsLead(lead))
    ensures var rest := t[1..];
            UnitPoints(t, lead) ==
            if IsLead(t[0]) || IsTrail(t[0]) then
              if lead == 0 then
                if IsTrail(t[0]) || |t| == 1 then [0xFFFD] + UnitPoints(rest, 0) else UnitPoints(rest, t[0])
              else if IsLead(t[0]) then [0xFFFD] + UnitPoints(rest, t[0])
              else [Pair(lead, t[0])] + UnitPoints(rest, 0)
            else if lead != 0 then [0xFFFD] + ([t[0] as scalar] + UnitPoints(rest, 0))
            else [t[0] as scalar] + UnitPoints(rest, 0)
  {
    hide Pair;
    assert [] + ([t[0]] + UnitPoints(t[1..], 0)) == [t[0]] + UnitPoints(t[1..], 0);
  }

  lemma PairValue(lead: uint16, trail: uint16)
    requires IsLead(lead) && IsTrail(trail)
    ensures Pair(lead, trail) == (lead - 0xD800) * 1024 + (trail - 0xDC00) + 0x1_0000
    ensures lead % 1024 == lead - 0xD800 && trail % 1024 == trail - 0xDC00
  {
  }

  /** `if ((units -= 3) > -1) bytes.push(0xEF, 0xBF, 0xBD)`. */
  method PushReplacement(bytes: seq<byte>, units: Option<int>, ghost vs: seq<scalar>, ghost all: seq<byte>)
      returns (r: seq<byte>, left: Option<int>)
    requires Coming(bytes, [0xFFFD] + vs, units, all)
    ensures Coming(r, vs, left, all)
  {
    ReplacementBytes();
    ComingPoint(bytes, 0xFFFD, vs, units, all);
    left := Less(units, 3);
    r := if left.Some? && left.value <= -1 then bytes else bytes + REPLACEMENT;
  }

  /** `utf8ToBytes`: a limit of 0 is no limit; 0 stands for a null lead surrogate. */
  method Utf8ToBytes(s: seq<uint16>, units0: nat) returns (bytes: seq<byte>)
    ensures bytes == Utf8All(Fitting(UnitPoints(s, 0), if units0 == 0 then None else Some(units0)))
    ensures units0 == 0 ==> bytes == ToBytes(s, 0)
  {
    var units: Option<int> := if units0 == 0 then None else Some(units0);
    bytes := [];
    var leadSurrogate: uint16 := 0;
    ghost var all := Utf8All(Fitting(UnitPoints(s, 0), units));
    assert s[0..] == s && [] + all == all;
    FittingIsLongest(UnitPoints(s, 0), units);
    UnitPointsBytes(s, 0);
    hide UnitPoints, Coming, Fitting, ToBytes;
    for i := 0 to |s|
      invariant leadSurrogate == 0 || IsLead(leadSurrogate)
      invariant Coming(bytes, UnitPoints(s[i..], leadSurrogate), units, all)
    {
      var stop;
      bytes, leadSurrogate, units, stop := EncodeUnit(s, i, leadSurrogate, bytes, units, all);
      if stop {
        return;
      }
    }
    NothingToCome(leadSurrogate);
    ComingEnds(bytes, units, all);
  }

  /** The loop body: a unit waits as a lead, or points are pushed, or the limit stops the loop. */
  method EncodeUnit(s: seq<uint16>, i: nat, lead0: uint16, bytes0: seq<byte>, units0: Option<int>, ghost all: seq<byte>)
      returns (bytes: seq<byte>, leadSurrogate: uint16, units: Option<int>, stop: bool)
    requires i < |s| && (lead0 == 0 || IsLead(lead0)) && Coming(bytes0, UnitPoints(s[i..], lead0), units0, all)
    ensures leadSurrogate == 0 || IsLead(leadSurrogate)
    ensures if stop then bytes == all else Coming(bytes, UnitPoints(s[i + 1..], leadSurrogate), units, all)
  {
    hide UnitPoints, Utf8, Pair, Coming;
    bytes, leadSurrogate, units, stop := bytes0, lead0, units0, false;
    var codePoint: int := s[i];
    ghost var t, rest := s[i..], s[i + 1..];
    assert t[1..] == rest && t[0] == s[i];
    UnitStep(t, leadSurrogate);
    if codePoint > 0xD7FF && codePoint < 0xE000 {
      if leadSurrogate == 0 {
        if codePoint > 0xDBFF || i + 1 == |s| {
          bytes, units := PushReplacement(bytes, units, UnitPoints(rest, 0), all);
        } else {
          leadSurrogate := codePoint;
        }
        return;
      }
      if codePoint < 0xDC00 {
        bytes, units := PushReplacement(bytes, units, UnitPoints(rest, s[i]), all);
        leadSurrogate := codePoint;
        return;
      }
      PairValue(leadSurrogate, s[i]);
      codePoint := (leadSurrogate - 0xD800) * 1024 + (codePoint - 0xDC00) + 0x1_0000;
    } else if leadSurrogate != 0 {
      bytes, units := PushReplacement(bytes, units, [s[i] as scalar] + UnitPoints(rest, 0), all);
    }
    leadSurrogate := 0;
    ComingPoint(bytes, codePoint, UnitPoints(rest, 0), units, all);
    units := Less(units, Utf8Length(codePoint));
    if units.Some? && units.value < 0 {
      stop := true;
      return;
    }
    bytes := PushUtf8(bytes, codePoint);
  }

  lemma NothingToCome(lead: uint16)
    requires lead == 0 || IsLead(lead)
    ensures UnitPoints([], lead) == []
  {
  }

  /** What each branch takes off the limit. */
  function Utf8Length(codePoint: scalar): (k: nat)
    ensures k == |Utf8(codePoint)|
  {
    if codePoint < 0x80 then 1 else if codePoint < 0x800 then 2 else if codePoint < 0x1_0000 then 3 else 4
  }

  /** The points of a well-formed string are its scalar values. */
  lemma {:induction false} UnitPointsOfWellFormed(s: seq<uint16>)
    requires WellFormed(s)
    ensures UnitPoints(s, 0) == Scalars(s)
  {
    hide Pair;
    if s != [] {
      if IsLead(s[0]) {
        UnitPointsOfWellFormed(s[2..]);
        assert s[1..][1..] == s[2..];
      } else {
        UnitPointsOfWellFormed(s[1..]);
        assert [] + ([s[0] as scalar] + UnitPoints(s[1..], 0)) == [s[0] as scalar] + UnitPoints(s[1..], 0);
      }
    }
  }

  /** The tail of the loop body: one to four bytes for a code point. */
  method PushUtf8(bytes: seq<byte>, codePoint: scalar) returns (r: seq<byte>)
    ensures r == bytes + Utf8(codePoint)
  {
    if codePoint < 0x80 {
      r := bytes + [codePoint];
    } else if codePoint < 0x800 {
      r := bytes + [codePoint / 64 + 0xC0, codePoint % 64 + 0x80];
    } else if codePoint < 0x1_0000 {
      r := bytes + [codePoint / 4096 + 0xE0, codePoint / 64 % 64 + 0x80, codePoint % 64 + 0x80];
    } else {
      r := bytes + [codePoint / 262144 + 0xF0, codePoint / 4096 % 64 + 0x80,
                    codePoint / 64 % 64 + 0x80, codePoint % 64 + 0x80];
    }
  }

  /** The bytes from `start` to `end`, none if it comes first. */
  function Window(buf: seq<byte>, start: nat, end: nat): seq<byte>
    requires end <= |buf|
  {
    if start <= end then buf[start..end] else []
  }

  lemma WindowStep(buf: seq<byte>, i: nat, end: nat, k: nat)
    requires i + k <= end <= |buf|
    ensures k <= |Window(buf, i, end)| && Window(buf, i, end)[k..] == Window(buf, i + k, end)
  {
  }

  /** `utf8Slice`: an end beyond the buffer is the buffer's end. */
  method Utf8Slice(buf: seq<byte>, start: nat, end0: nat) returns (s: seq<uint16>)
    ensures s == Slice(Window(buf, start, if |buf| < end0 then |buf| else end0))
    ensures WellFormed(s)
  {
    hide NextPoint, Utf16, Slice, Sliced, WellFormed, Window;
    var end := if |buf| < end0 then |buf| else end0;
    var res: seq<uint16> := [];
    var i := start;
    ghost var all := Slice(Window(buf, start, end));
    SliceWellFormed(Window(buf, start, end));
    SliceStarts(Window(buf, start, end));
    while i < end
      invariant start <= i && (i <= end || i == start)
      invariant Sliced(res, Window(buf, i, end), all)
      decreases end - i
    {
      var codePoint, bytesPerSequence := TakePoint(buf, i, end);
      SliceStep(Window(buf, i, end), codePoint, bytesPerSequence, res, all);
      WindowLength(buf, i, end);
      WindowStep(buf, i, end, bytesPerSequence);
      res := PushUtf16(res, codePoint);
      i := i + bytesPerSequence;
    }
    WindowLength(buf, i, end);
    SliceEnds(res, all);
    s := DecodeCodePointsArray(res);
  }

  lemma WindowLength(buf: seq<byte>, i: nat, end: nat)
    requires end <= |buf|
    ensures i < end ==> |Window(buf, i, end)| == end - i
    ensures i >= end ==> Window(buf, i, end) == []
  {
  }

  /** How long a sequence starting with this byte should be. */
  function SequenceLength(firstByte: int): nat {
    if firstByte > 0xEF then 4 else if firstByte > 0xDF then 3 else if firstByte > 0xBF then 2 else 1
  }

  /** The first half of the loop body: a code point and its length, or U+FFFD and 1. */
  method TakePoint(buf: seq<byte>, i: nat, end: nat) returns (codePoint: int, bytesPerSequence: nat)
    requires i < end <= |buf|
    ensures Window(buf, i, end) != [] && (codePoint, bytesPerSequence) == NextPoint(Window(buf, i, end))
  {
    hide NextPoint;
    var firstByte: int := buf[i];
    codePoint := -1;
    bytesPerSequence := SequenceLength(firstByte);
    if i + bytesPerSequence <= end {
      codePoint := DecodeAt(buf, i, end, bytesPerSequence);
    } else {
      TruncatedPoint(buf[i..end], bytesPerSequence);
    }
    if codePoint == -1 {
      codePoint := 0xFFFD;
      bytesPerSequence := 1;
    }
  }

  /** With the bytes `b` still to come the units will become `all`. */
  predicate Sliced(res: seq<uint16>, b: seq<byte>, all: seq<uint16>) {
    res + Slice(b) == all
  }

  lemma SliceStarts(b: seq<byte>)
    ensures Sliced([], b, Slice(b))
  {
    assert [] + Slice(b) == Slice(b);
  }

  lemma SliceEnds(res: seq<uint16>, all: seq<uint16>)
    requires Sliced(res, [], all)
    ensures res == all
  {
    assert res + [] == res;
  }

  lemma SliceStep(b: seq<byte>, c: scalar, k: nat, res: seq<uint16>, all: seq<uint16>)
    requires b != [] && NextPoint(b) == (c, k) && Sliced(res, b, all)
    ensures k <= |b| && Sliced(res + Utf16(c), b[k..], all)
  {
    hide NextPoint, Utf16;
    assert res + (Utf16(c) + Slice(b[k..])) == (res + Utf16(c)) + Slice(b[k..]);
  }

  lemma TruncatedPoint(b: seq<byte>, n: nat)
    requires b != []
    requires |b| < n == (if b[0] > 0xEF then 4 else if b[0] > 0xDF then 3 else if b[0] > 0xBF then 2 else 1)
    ensures NextPoint(b) == (0xFFFD, 1)
  {
  }

  /** Code points above the BMP become a surrogate pair. */
  method PushUtf16(res: seq<uint16>, c: scalar) returns (r: seq<uint16>)
    ensures r == res + Utf16(c)
  {
    r := res;
    var codePoint: int := c;
    if codePoint > 0xFFFF {
      codePoint := codePoint - 0x1_0000;
      r := r + [codePoint / 1024 % 1024 + 0xD800];
      codePoint := 0xDC00 + codePoint % 1024;
    }
    r := r + [codePoint];
  }

  /** The switch of `utf8Slice`: -1 for a null code point. */
  method DecodeAt(buf: seq<byte>, i: nat, ghost end: nat, bytesPerSequence: nat) returns (codePoint: int)
    requires i < end <= |buf| && i + bytesPerSequence <= end
    requires bytesPerSequence == SequenceLength(buf[i])
    ensures var (c, k) := NextPoint(buf[i..end]);
            if codePoint == -1 then c == 0xFFFD && k == 1 else c == codePoint && k == bytesPerSequence
  {
    codePoint := -1;
    var firstByte: int := buf[i];
    ghost var b := buf[i..end];
    match bytesPerSequence {
      case 1 =>
        if firstByte < 0x80 {
          codePoint := firstByte;
        }
      case 2 =>
        assert Six(b, 1) == Six(buf, i + 1);
        if buf[i + 1] / 64 == 2 {
          var tempCodePoint := firstByte % 32 * 64 + Six(buf, i + 1);
          if tempCodePoint > 0x7F {
            codePoint := tempCodePoint;
          }
        }
      case 3 =>
        assert Six(b, 1) == Six(buf, i + 1) && Six(b, 2) == Six(buf, i + 2);
        if buf[i + 1] / 64 == 2 && buf[i + 2] / 64 == 2 {
          var tempCodePoint := firstByte % 16 * 4096 + Six(buf, i + 1) * 64 + Six(buf, i + 2);
          if tempCodePoint > 0x7FF && (tempCodePoint < 0xD800 || tempCodePoint > 0xDFFF) {
            codePoint := tempCodePoint;
          }
        }
      case _ =>
        assert Six(b, 1) == Six(buf, i + 1) && Six(b, 2) == Six(buf, i + 2) && Six(b, 3) == Six(buf, i + 3);
        if buf[i + 1] / 64 == 2 && buf[i + 2] / 64 == 2 && buf[i + 3] / 64 == 2 {
          var tempCodePoint := firstByte % 16 * 262144 + Six(buf, i + 1) * 4096
                               + Six(buf, i + 2) * 64 + Six(buf, i + 3);
          if tempCodePoint > 0xFFFF && tempCodePoint < 0x11_0000 {
            codePoint := tempCodePoint;
          }
        }
    }
  }

  /** Joining in slices of `MAX_ARGUMENTS_LENGTH` units loses nothing. */
  method DecodeCodePointsArray(codePoints: seq<uint16>) returns (res: seq<uint16>)
    ensures res == codePoints
  {
    var len := |codePoints|;
    if len <= MAX_ARGUMENTS_LENGTH {
      return codePoints;
    }
    res := [];
    var i := 0;
    while i < len
      invariant 0 <= i <= len
      invariant res == codePoints[..i]
    {
      var j := if i + MAX_ARGUMENTS_LENGTH < len then i + MAX_ARGUMENTS_LENGTH else len;
      res := res + codePoints[i..j];
      i := j;
    }
  }

  lemma FrontStep(t: seq<uint16>, b: seq<byte>, all: seq<byte>)
    requires t != [] && b + ClosureBytes(t) == all
    ensures (b + Front(t)) + ClosureBytes(t[Taken(t)..]) == all
  {
    hide Front;
    assert b + (Front(t) + ClosureBytes(t[Taken(t)..])) == (b + Front(t)) + ClosureBytes(t[Taken(t)..]);
  }

  /** The body of the Closure loop: pushes the bytes of the unit or pair at `d`. */
  method PushFront(s: seq<uint16>, d: nat) returns (c: seq<byte>, d': nat)
    requires d < |s|
    ensures c == Front(s[d..]) && d' == d + Taken(s[d..]) - 1
  {
    hide Utf8, Pair, Front;
    ghost var t := s[d..];
    FrontForms(t);
    d' := d;
    var e: int := s[d];
    if e < 128 {
      c := [e];
    } else {
      if e < 2048 {
        c := [e / 64 + 192];
      } else {
        if IsLead(e) && d + 1 < |s| && IsTrail(s[d + 1]) {
          assert t[1] == s[d + 1];
          PairValue(t[0], t[1]);
          d' := d + 1;
          e := 65536 + (e % 1024) * 1024 + s[d'] % 1024;
          c := [e / 262144 + 240, e / 4096 % 64 + 128];
        } else {
          c := [e / 4096 + 224];
        }
        c := c + [e / 64 % 64 + 128];
      }
      c := c + [e % 64 + 128];
    }
  }

  /** Closure's `stringToUtf8ByteArray`. */
  method StringToUtf8ByteArray(s: seq<uint16>) returns (b: seq<byte>)
    ensures b == ClosureBytes(s)
    ensures WellFormed(s) ==> b == Utf8All(Scalars(s))
  {
    b := [];
    var d := 0;
    while d < |s|
      invariant 0 <= d <= |s|
      invariant b + ClosureBytes(s[d..]) == ClosureBytes(s)
    {
      hide ClosureBytes, Front;
      ghost var t := s[d..];
      FrontStep(t, b, ClosureBytes(s));
      var c;
      c, d := PushFront(s, d);
      b := b + c;
      d := d + 1;
      assert t[Taken(t)..] == s[d..];
    }
    if WellFormed(s) {
      EncodersAgree(s);
    }
  }
}
