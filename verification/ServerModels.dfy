/**
 * The server's own class for the message: `MessageInfo.Model`, whose parse loop switches on
 * whole tags and insists on valid UTF-8, and whose strings encode lone surrogates as '?'.
 */
module ServerModels {
  import opened JsNumbers
  import opened Outcomes
  import opened Varints
  import opened Unicode
  import opened StringCodecs
  import opened Wire
  import opened Records

  const QUESTION: uint16 := 63

  /** The string with a question mark for every lone surrogate. */
  function Questioned(s: seq<uint16>): seq<uint16> {
    if s == [] then []
    else if Taken(s) == 2 then s[..2] + Questioned(s[2..])
    else [if IsLead(s[0]) || IsTrail(s[0]) then QUESTION else s[0]] + Questioned(s[1..])
  }

  /** Java's UTF-8. */
  function JavaUtf8(s: seq<uint16>): seq<byte> {
    if s == [] then []
    else if Taken(s) == 2 then Utf8(Pair(s[0], s[1])) + JavaUtf8(s[2..])
    else if IsLead(s[0]) || IsTrail(s[0]) then [QUESTION] + JavaUtf8(s[1..])
    else Utf8(s[0]) + JavaUtf8(s[1..])
  }

  /** What a string may be for the server to carry it: its bytes are counted by a Java int. */
  predicate JavaFits(v: Value, i: nat)
    requires i < 5
  {
    Fits(MODEL[i], v) && (v.Str? ==> |JavaUtf8(v.s)| < 0x8000_0000) && (v.Raw? ==> |v.b| < 0x8000_0000)
  }

  predicate IsServerMessage(m: seq<Value>): (b: bool)
    ensures b ==> |m| == 5
  {
    |m| == 5 && forall i :: 0 <= i < 5 ==> JavaFits(m[i], i)
  }

  // ---- writing ----

  /** One field of `writeTo`. */
  function JavaPart(i: nat, v: Value): seq<byte>
    requires i < 5 && JavaFits(v, i)
  {
    match v
    case Num(n) => if n == 0 then [] else Tag(i + 1, VARINT) + EncodeSigned(n)
    case Str(s) => if JavaUtf8(s) == [] then [] else Tag(i + 1, DELIMITED) + Prefixed(JavaUtf8(s))
    case Raw(b) => if b == [] then [] else Tag(i + 1, DELIMITED) + Prefixed(b)
  }

  function JavaBytes(m: seq<Value>): seq<byte>
    requires IsServerMessage(m)
  {
    JavaPart(0, m[0]) + JavaPart(1, m[1]) + JavaPart(2, m[2]) + JavaPart(3, m[3]) + JavaPart(4, m[4])
  }

  // ---- parsing ----

  /** `readRawVarint32`: the low word, signed, of a varint of at most ten bytes. */
  function Raw32(s: seq<byte>): (r: Option<(int32, nat)>)
    ensures r.Some? ==> 1 <= r.value.1 <= |s|
  {
    match Read64(s)
    case Ok((v, k)) => Some((ToInt32(v), k))
    case _ => None
  }

  /** A length and as many bytes. */
  function RawBytes(s: seq<byte>): (r: Option<(seq<byte>, nat)>)
    ensures r.Some? ==> 1 <= r.value.1 <= |s|
  {
    match Raw32(s)
    case None => None
    case Some((n, k)) => if n < 0 || k + n > |s| then None else Some((s[k..k + n], k + n))
  }

  /** `readStringRequireUtf8`: bytes that decoding and encoding again does not keep are no UTF-8. */
  function RawString(s: seq<byte>): (r: Option<(seq<uint16>, nat)>)
    ensures r.Some? ==> 1 <= r.value.1 <= |s|
  {
    match RawBytes(s)
    case None => None
    case Some((b, k)) => if ToBytes(Slice(b), 0) == b then Some((Slice(b), k)) else None
  }

  /** One turn of the loop: the message after it and the bytes used; unknown fields are the library's business. */
  function Turn(unknown: (int, seq<byte>) -> Option<nat>, s: seq<byte>, m: seq<Value>): (r: Option<(seq<Value>, nat)>)
    requires |m| == 5
    ensures r.Some? ==> |r.value.0| == 5 && 1 <= r.value.1 <= |s|
  {
    match Raw32(s)
    case None => None
    case Some((tag, k)) =>
      var rest := s[k..];
      if 0 <= tag < 8 then None
      else if tag == 8 then
        match Raw32(rest)
        case None => None
        case Some((n, j)) => Some((m[0 := Num(n)], k + j))
      else if tag == 18 || tag == 26 || tag == 34 then
        match RawString(rest)
        case None => None
        case Some((t, j)) => Some((m[tag / 8 - 1 := Str(t)], k + j))
      else if tag == 42 then
        match RawBytes(rest)
        case None => None
        case Some((b, j)) => Some((m[4 := Raw(b)], k + j))
      else if tag % 8 == END_GROUP then None
      else
        match unknown(tag, rest)
        case None => None
        case Some(j) => if j > |rest| then None else Some((m, k + j))
  }

  /** `parseFrom`: `None` for an exception. */
  function JavaParse(unknown: (int, seq<byte>) -> Option<nat>, s: seq<byte>, m: seq<Value>): (r: Option<seq<Value>>)
    requires |m| == 5
    ensures r.Some? ==> |r.value| == 5
    decreases |s|
  {
    if s == [] then Some(m)
    else
      match Turn(unknown, s, m)
      case None => None
      case Some((m', k)) => JavaParse(unknown, s[k..], m')
  }

  // ---- the class ----

  /** The fields of `writeTo`: the default value is not written. */
  method WriteEnum(output0: seq<byte>, value: int) returns (output: seq<byte>)
    requires JavaFits(Num(value), 0)
    ensures output == output0 + JavaPart(0, Num(value))
  {
    output := output0;
    if value != 0 {
      output := output + (Tag(1, VARINT) + EncodeSigned(value));
    }
  }

  method WriteString(output0: seq<byte>, i: nat, value: seq<uint16>) returns (output: seq<byte>)
    requires 1 <= i < 4 && JavaFits(Str(value), i)
    ensures output == output0 + JavaPart(i, Str(value))
  {
    output := output0;
    if |JavaUtf8(value)| != 0 {
      output := output + (Tag(i + 1, DELIMITED) + Prefixed(JavaUtf8(value)));
    }
  }

  method WriteBytes(output0: seq<byte>, value: seq<byte>) returns (output: seq<byte>)
    requires JavaFits(Raw(value), 4)
    ensures output == output0 + JavaPart(4, Raw(value))
  {
    output := output0;
    if |value| != 0 {
      output := output + (Tag(5, DELIMITED) + Prefixed(value));
    }
  }

  lemma Regroup(o: seq<byte>, a: seq<byte>, b: seq<byte>, c: seq<byte>, d: seq<byte>, e: seq<byte>)
    ensures o + a + b + c + d + e == o + (a + b + c + d + e)
  {
  }

  class ServerModel {
    var cmd: int
    var from: seq<uint16>
    var to: seq<uint16>
    var groupId: seq<uint16>
    var content: seq<byte>

    constructor ()
      ensures Values() == Defaults(MODEL)
    {
      cmd, from, to, groupId, content := 0, [], [], [], [];
      new;
      assert Values() == Defaults(MODEL);
    }

    ghost function Values(): (m: seq<Value>)
      reads this
      ensures |m| == 5
    {
      [Num(cmd), Str(from), Str(to), Str(groupId), Raw(content)]
    }

    method WriteTo(output0: seq<byte>) returns (output: seq<byte>)
      requires IsServerMessage(Values())
      ensures output == output0 + JavaBytes(Values())
    {
      ghost var m := Values();
      assert JavaFits(m[0], 0) && JavaFits(m[1], 1) && JavaFits(m[2], 2) && JavaFits(m[3], 3) && JavaFits(m[4], 4);
      hide JavaFits, IsServerMessage, JavaPart;
      output := WriteEnum(output0, cmd);
      output := WriteString(output, 1, from);
      output := WriteString(output, 2, to);
      output := WriteString(output, 3, groupId);
      output := WriteBytes(output, content);
      Regroup(output0, JavaPart(0, m[0]), JavaPart(1, m[1]), JavaPart(2, m[2]), JavaPart(3, m[3]), JavaPart(4, m[4]));
    }

    /** The constructor that parses: a `switch` on the tag in a loop. */
    method Parse(unknown: (int, seq<byte>) -> Option<nat>, input: seq<byte>) returns (ok: bool)
      modifies this
      ensures ok <==> JavaParse(unknown, input, old(Values())).Some?
      ensures ok ==> Values() == JavaParse(unknown, input, old(Values())).value
    {
      hide JavaParse, RawString, RawBytes, Raw32;
      var pos := 0;
      assert input[0..] == input;
      while pos < |input|
        invariant pos <= |input|
        invariant JavaParse(unknown, input[pos..], Values()) == JavaParse(unknown, input, old(Values()))
        decreases |input| - pos
      {
        ghost var m := Values();
        ParseStep(unknown, input, pos, m);
        var t := Raw32(input[pos..]);
        if t.None? {
          return false;
        }
        var (tag, k) := t.value;
        pos := pos + k;
        assert input[pos - k..][k..] == input[pos..];
        var used;
        if 0 <= tag < 8 {
          return false;
        } else if tag == 8 {
          var v := Raw32(input[pos..]);
          if v.None? {
            return false;
          }
          cmd, used := v.value.0, v.value.1;
          assert Values() == m[0 := Num(cmd)];
        } else if tag == 18 || tag == 26 || tag == 34 {
          var v := RawString(input[pos..]);
          if v.None? {
            return false;
          }
          used := v.value.1;
          if tag == 18 {
            from := v.value.0;
            assert Values() == m[1 := Str(from)];
          } else if tag == 26 {
            to := v.value.0;
            assert Values() == m[2 := Str(to)];
          } else {
            groupId := v.value.0;
            assert Values() == m[3 := Str(groupId)];
          }
        } else if tag == 42 {
          var v := RawBytes(input[pos..]);
          if v.None? {
            return false;
          }
          content, used := v.value.0, v.value.1;
          assert Values() == m[4 := Raw(content)];
        } else if tag % 8 == END_GROUP {
          return false;
        } else {
          var v := unknown(tag, input[pos..]);
          if v.None? || pos + v.value > |input| {
            return false;
          }
          used := v.value;
        }
        pos := pos + used;
      }
      ok := true;
      assert input[pos..] == [];
      ParseNothing(unknown, Values());
    }
  }

  lemma ParseNothing(unknown: (int, seq<byte>) -> Option<nat>, m: seq<Value>)
    requires |m| == 5
    ensures JavaParse(unknown, [], m) == Some(m)
  {
  }

  lemma ParseStep(unknown: (int, seq<byte>) -> Option<nat>, input: seq<byte>, pos: nat, m: seq<Value>)
    requires |m| == 5 && pos < |input|
    ensures match Turn(unknown, input[pos..], m)
            case None => JavaParse(unknown, input[pos..], m) == None
            case Some((m', k)) => JavaParse(unknown, input[pos..], m) == JavaParse(unknown, input[pos + k..], m')
  {
    hide Turn;
    match Turn(unknown, input[pos..], m)
    case None =>
    case Some((m', k)) => assert input[pos..][k..] == input[pos + k..];
  }

  // ---- round trips ----

  lemma ToBytesOfPair(lead: uint16, trail: uint16, t: seq<uint16>)
    requires IsLead(lead) && IsTrail(trail)
    ensures ToBytes([lead, trail] + t, 0) == Utf8(Pair(lead, trail)) + ToBytes(t, 0)
  {
    var s := [lead, trail] + t;
    assert s[1..] == [trail] + t && s[1..][1..] == t;
  }

  lemma ToBytesOfUnit(u: uint16, t: seq<uint16>)
    requires !IsLead(u) && !IsTrail(u)
    ensures ToBytes([u] + t, 0) == Utf8(u) + ToBytes(t, 0)
  {
    assert ([u] + t)[1..] == t;
  }

  lemma {:induction false} QuestionedUtf8(s: seq<uint16>)
    ensures JavaUtf8(s) == ToBytes(Questioned(s), 0)
  {
    hide ToBytes, Utf8;
    if s == [] {
      NoBytes();
    } else if Taken(s) == 2 {
      QuestionedUtf8(s[2..]);
      ToBytesOfPair(s[0], s[1], Questioned(s[2..]));
      assert s[..2] == [s[0], s[1]];
    } else {
      QuestionedUtf8(s[1..]);
      var u := if IsLead(s[0]) || IsTrail(s[0]) then QUESTION else s[0];
      ToBytesOfUnit(u, Questioned(s[1..]));
      QuestionByte();
    }
  }

  lemma NoBytes()
    ensures ToBytes([], 0) == []
  {
  }

  lemma QuestionByte()
    ensures Utf8(QUESTION) == [QUESTION]
  {
  }

  lemma {:induction false} QuestionedWellFormed(s: seq<uint16>)
    ensures WellFormed(Questioned(s)) && (Questioned(s) == s <==> WellFormed(s))
  {
    if s == [] {
    } else if Taken(s) == 2 {
      QuestionedWellFormed(s[2..]);
      assert s == s[..2] + s[2..] && Questioned(s)[2..] == Questioned(s[2..]);
    } else {
      QuestionedWellFormed(s[1..]);
      assert s == [s[0]] + s[1..] && Questioned(s)[1..] == Questioned(s[1..]);
    }
  }

  /** A Java string read back: lone surrogates have become question marks. */
  lemma StringReadsBack(s: seq<uint16>, rest: seq<byte>)
    requires |JavaUtf8(s)| < 0x8000_0000
    ensures RawString(Prefixed(JavaUtf8(s)) + rest) == Some((Questioned(s), |Prefixed(JavaUtf8(s))|))
  {
    hide JavaUtf8, Questioned, RawBytes, ToBytes, Slice;
    QuestionedUtf8(s);
    QuestionedWellFormed(s);
    SliceUndoesToBytes(Questioned(s));
    BytesReadBack(JavaUtf8(s), rest);
  }

  /** For instance: a lone surrogate. */
  lemma QuestionMark()
    ensures JavaUtf8([0xD800]) == [0x3F] && Questioned([0xD800]) == [0x3F]
  {
    assert JavaUtf8([]) == [] && [0xD800][1..] == [];
  }

  lemma BytesReadBack(b: seq<byte>, rest: seq<byte>)
    requires |b| < 0x8000_0000
    ensures RawBytes(Prefixed(b) + rest) == Some((b, |Prefixed(b)|))
  {
    hide Encode, Read64;
    assert Prefixed(b) + rest == Encode(|b|) + (b + rest);
    ReadsBack64(|b|, b + rest);
    var k := |Encode(|b|)|;
    assert (Encode(|b|) + (b + rest))[k..k + |b|] == b;
  }

  lemma EnumReadsBack(n: int32, rest: seq<byte>)
    ensures Raw32(EncodeSigned(n) + rest) == Some((n, |EncodeSigned(n)|))
  {
    hide Encode, EncodeSigned, Read64;
    SignedReadsBack(n, rest);
    if n < 0 {
      DivModUnique(n, -1, 0x1_0000_0000_0000_0000, n + 0x1_0000_0000_0000_0000);
      DivModUnique(n + 0x1_0000_0000_0000_0000, 0xFFFF_FFFF, 0x1_0000_0000, n + 0x1_0000_0000);
    }
  }

  lemma TagReadsBack(i: nat, wire: nat, rest: seq<byte>)
    requires i < 5 && wire < 8
    ensures Raw32(Tag(i + 1, wire) + rest) == Some(((i + 1) * 8 + wire, |Tag(i + 1, wire)|))
  {
    hide Encode, Read64;
    ReadsBack64((i + 1) * 8 + wire, rest);
  }

  /** What the server's round trip leaves of a value. */
  function JavaSurvivor(v: Value): Value {
    if v.Str? then Str(Questioned(v.s)) else v
  }

  lemma JavaDefault(i: nat, v: Value)
    requires i < 5 && JavaFits(v, i)
    ensures JavaPart(i, v) == [] <==> v == Default(MODEL[i])
    ensures JavaPart(i, v) == [] ==> JavaSurvivor(v) == v
  {
    hide Tag, EncodeSigned, Prefixed;
    if v.Str? {
      assert JavaUtf8(v.s) == [] <==> v.s == [];
    }
  }

  lemma TurnReadsEnum(unknown: (int, seq<byte>) -> Option<nat>, n: int32, rest: seq<byte>, m: seq<Value>)
    requires |m| == 5
    ensures var part := Tag(1, VARINT) + EncodeSigned(n);
            Turn(unknown, part + rest, m) == Some((m[0 := Num(n)], |part|))
  {
    hide Tag, EncodeSigned, Raw32, RawString, RawBytes;
    var tag, body := Tag(1, VARINT), EncodeSigned(n);
    assert (tag + body) + rest == tag + (body + rest) && (tag + (body + rest))[|tag|..] == body + rest;
    TagReadsBack(0, VARINT, body + rest);
    EnumReadsBack(n, rest);
  }

  lemma TurnReadsString(unknown: (int, seq<byte>) -> Option<nat>, i: nat, s: seq<uint16>, rest: seq<byte>,
                        m: seq<Value>)
    requires |m| == 5 && 1 <= i < 4 && |JavaUtf8(s)| < 0x8000_0000
    ensures var part := Tag(i + 1, DELIMITED) + Prefixed(JavaUtf8(s));
            Turn(unknown, part + rest, m) == Some((m[i := Str(Questioned(s))], |part|))
  {
    hide Tag, Prefixed, Raw32, RawString, RawBytes, JavaUtf8, Questioned;
    var tag, body := Tag(i + 1, DELIMITED), Prefixed(JavaUtf8(s));
    assert (tag + body) + rest == tag + (body + rest) && (tag + (body + rest))[|tag|..] == body + rest;
    TagReadsBack(i, DELIMITED, body + rest);
    StringReadsBack(s, rest);
  }

  lemma TurnReadsBytes(unknown: (int, seq<byte>) -> Option<nat>, b: seq<byte>, rest: seq<byte>, m: seq<Value>)
    requires |m| == 5 && |b| < 0x8000_0000
    ensures var part := Tag(5, DELIMITED) + Prefixed(b);
            Turn(unknown, part + rest, m) == Some((m[4 := Raw(b)], |part|))
  {
    hide Tag, Prefixed, Raw32, RawString, RawBytes;
    var tag, body := Tag(5, DELIMITED), Prefixed(b);
    assert (tag + body) + rest == tag + (body + rest) && (tag + (body + rest))[|tag|..] == body + rest;
    TagReadsBack(4, DELIMITED, body + rest);
    BytesReadBack(b, rest);
  }

  /** One field back through one turn of the loop. */
  lemma TurnReadsPart(unknown: (int, seq<byte>) -> Option<nat>, i: nat, v: Value, rest: seq<byte>, m: seq<Value>)
    requires i < 5 && JavaFits(v, i) && JavaPart(i, v) != [] && |m| == 5
    ensures Turn(unknown, JavaPart(i, v) + rest, m) == Some((m[i := JavaSurvivor(v)], |JavaPart(i, v)|))
  {
    hide Turn, Tag, EncodeSigned, Prefixed, JavaUtf8, Questioned;
    match v
    case Num(n) => TurnReadsEnum(unknown, n, rest, m);
    case Str(s) => TurnReadsString(unknown, i, s, rest, m);
    case Raw(b) => TurnReadsBytes(unknown, b, rest, m);
  }

  /** One field back through the parse loop; a default value leaves what was there. */
  lemma ParseReadsPart(unknown: (int, seq<byte>) -> Option<nat>, i: nat, v: Value, rest: seq<byte>, m: seq<Value>)
    requires i < 5 && JavaFits(v, i) && |m| == 5
    ensures JavaParse(unknown, JavaPart(i, v) + rest, m) ==
            JavaParse(unknown, rest, m[i := if v == Default(MODEL[i]) then m[i] else JavaSurvivor(v)])
  {
    hide JavaPart, JavaFits, JavaSurvivor, Turn;
    JavaDefault(i, v);
    var part := JavaPart(i, v);
    if part == [] {
      assert part + rest == rest && m[i := m[i]] == m;
    } else {
      TurnReadsPart(unknown, i, v, rest, m);
      assert (part + rest)[|part|..] == rest;
    }
  }

  function JavaSurvivors(m: seq<Value>): (r: seq<Value>)
    requires |m| == 5
    ensures |r| == 5
  {
    [JavaSurvivor(m[0]), JavaSurvivor(m[1]), JavaSurvivor(m[2]), JavaSurvivor(m[3]), JavaSurvivor(m[4])]
  }

  /** A whole written message is parsed into any message by merging what survives of it. */
  lemma ParseReadsMessage(unknown: (int, seq<byte>) -> Option<nat>, m: seq<Value>, rest: seq<byte>, m0: seq<Value>)
    requires IsServerMessage(m) && |m0| == 5
    ensures JavaParse(unknown, JavaBytes(m) + rest, m0) == JavaParse(unknown, rest, Merge(MODEL, m0, JavaSurvivors(m)))
  {
    hide JavaPart, JavaFits, JavaParse, JavaSurvivor;
    var p0, p1, p2 := JavaPart(0, m[0]), JavaPart(1, m[1]), JavaPart(2, m[2]);
    var p3, p4 := JavaPart(3, m[3]), JavaPart(4, m[4]);
    assert JavaBytes(m) + rest == p0 + (p1 + (p2 + (p3 + (p4 + rest))));
    var m1 := m0[0 := if m[0] == Default(MODEL[0]) then m0[0] else JavaSurvivor(m[0])];
    ParseReadsPart(unknown, 0, m[0], p1 + (p2 + (p3 + (p4 + rest))), m0);
    var m2 := m1[1 := if m[1] == Default(MODEL[1]) then m1[1] else JavaSurvivor(m[1])];
    ParseReadsPart(unknown, 1, m[1], p2 + (p3 + (p4 + rest)), m1);
    var m3 := m2[2 := if m[2] == Default(MODEL[2]) then m2[2] else JavaSurvivor(m[2])];
    ParseReadsPart(unknown, 2, m[2], p3 + (p4 + rest), m2);
    var m4 := m3[3 := if m[3] == Default(MODEL[3]) then m3[3] else JavaSurvivor(m[3])];
    ParseReadsPart(unknown, 3, m[3], p4 + rest, m3);
    var m5 := m4[4 := if m[4] == Default(MODEL[4]) then m4[4] else JavaSurvivor(m[4])];
    ParseReadsPart(unknown, 4, m[4], rest, m4);
    forall i | 0 <= i < 5
      ensures m5[i] == Merge(MODEL, m0, JavaSurvivors(m))[i]
    {
      SurvivorDefault(i, m[i]);
    }
    assert m5 == Merge(MODEL, m0, JavaSurvivors(m));
  }

  lemma SurvivorDefault(i: nat, v: Value)
    requires i < 5 && JavaFits(v, i)
    ensures JavaSurvivor(v) == Default(MODEL[i]) <==> v == Default(MODEL[i])
  {
    if v.Str? {
      assert Questioned(v.s) == [] <==> v.s == [];
    }
  }

  /**
   * The server reads back what it writes, with a question mark for every lone surrogate: the
   * same message exactly if all its strings are well-formed.
   */
  lemma {:induction false} ServerRoundTrip(unknown: (int, seq<byte>) -> Option<nat>, m: seq<Value>)
    requires IsServerMessage(m)
    ensures JavaParse(unknown, JavaBytes(m), Defaults(MODEL)) == Some(JavaSurvivors(m))
    ensures JavaParse(unknown, JavaBytes(m), Defaults(MODEL)) == Some(m) <==> AllWellFormed(m)
  {
    hide JavaBytes, JavaParse, IsServerMessage, WellFormed, Questioned;
    var d, r := Defaults(MODEL), JavaSurvivors(m);
    ParseReadsMessage(unknown, m, [], d);
    ParseNothing(unknown, Merge(MODEL, d, r));
    assert JavaBytes(m) + [] == JavaBytes(m);
    assert Merge(MODEL, d, r) == r;
    forall i | 0 <= i < 5
      ensures r[i] == m[i] <==> (m[i].Str? ==> WellFormed(m[i].s))
    {
      if m[i].Str? {
        QuestionedWellFormed(m[i].s);
      }
    }
    assert r == m <==> forall i :: 0 <= i < 5 ==> r[i] == m[i];
  }

  /** Two messages written one after the other are parsed as their merge. */
  lemma {:induction false} ServerConcatenationIsMerge(unknown: (int, seq<byte>) -> Option<nat>,
                                                      m1: seq<Value>, m2: seq<Value>)
    requires IsServerMessage(m1) && IsServerMessage(m2)
    ensures JavaParse(unknown, JavaBytes(m1) + JavaBytes(m2), Defaults(MODEL)) ==
            Some(Merge(MODEL, JavaSurvivors(m1), JavaSurvivors(m2)))
  {
    hide JavaBytes, JavaParse, IsServerMessage, JavaSurvivors;
    var d, r := Defaults(MODEL), JavaSurvivors(m1);
    ParseReadsMessage(unknown, m1, JavaBytes(m2), d);
    assert Merge(MODEL, d, r) == r;
    ParseReadsMessage(unknown, m2, [], r);
    assert JavaBytes(m2) + [] == JavaBytes(m2);
    ParseNothing(unknown, Merge(MODEL, r, JavaSurvivors(m2)));
  }

  lemma MergeModel(m1: seq<Value>, m2: seq<Value>)
    requires |m1| == |m2| == |MODEL|
    ensures Merge(MODEL, m1, m2) ==
            [if m2[0] == Num(0) then m1[0] else m2[0], if m2[1] == Str([]) then m1[1] else m2[1],
             if m2[2] == Str([]) then m1[2] else m2[2], if m2[3] == Str([]) then m1[3] else m2[3],
             if m2[4] == Raw([]) then m1[4] else m2[4]]
  {
  }

  /** `Builder.mergeFrom`: fields of `other` that are set replace one's own. */
  method MergeFrom(builder: ServerModel, other: ServerModel)
    requires builder != other
    modifies builder
    ensures builder.Values() == Merge(MODEL, old(builder.Values()), other.Values())
  {
    hide Merge;
    MergeModel(builder.Values(), other.Values());
    if other.cmd != 0 {
      builder.cmd := other.cmd;
    }
    if other.from != [] {
      builder.from := other.from;
    }
    if other.to != [] {
      builder.to := other.to;
    }
    if other.groupId != [] {
      builder.groupId := other.groupId;
    }
    if other.content != [] {
      builder.content := other.content;
    }
  }

  predicate AllWellFormed(m: seq<Value>) {
    forall i :: 0 <= i < |m| && m[i].Str? ==> WellFormed(m[i].s)
  }
}
