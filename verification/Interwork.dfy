/**
 * Client and server on the same bytes: the JavaScript client writes lone surrogates as
 * three bytes or drops them, the Java server insists on valid UTF-8.
 */
module Interwork {
  import opened JsNumbers
  import opened Outcomes
  import opened Varints
  import opened Unicode
  import opened StringCodecs
  import opened Wire
  import opened Records
  import opened Messages
  import opened ServerModels

  /** On well-formed strings the client and the server write the same bytes. */
  lemma {:induction false} ClientAndServerAgree(m: seq<Value>)
    requires IsServerMessage(m) && AllWellFormed(m)
    ensures IsMessage(MODEL, m) && JavaBytes(m) == MessageBytes(MODEL, m)
  {
    hide MessageBytes, WellFormed, Fits, JavaPart, Part;
    forall i | 0 <= i < 5
      ensures JavaFits(m[i], i) && JavaPart(i, m[i]) == Part(MODEL[i], i + 1, m[i])
    {
      PartsAgree(i, m[i]);
    }
    assert IsMessage(MODEL, m);
    FiveParts(MODEL, m);
    assert [] + JavaPart(0, m[0]) == JavaPart(0, m[0]);
  }

  lemma PartsAgree(i: nat, v: Value)
    requires i < 5 && JavaFits(v, i) && (v.Str? ==> WellFormed(v.s))
    ensures JavaPart(i, v) == Part(MODEL[i], i + 1, v)
  {
    hide Tag, EncodeSigned, Prefixed;
    JavaDefault(i, v);
    if v.Str? {
      QuestionedUtf8(v.s);
      QuestionedWellFormed(v.s);
      EncodersAgree(v.s);
    }
  }

  /** So each side reads what the other wrote. */
  lemma {:induction false} ClientAndServerInterwork(unknown: (int, seq<byte>) -> Option<nat>, m: seq<Value>)
    requires IsServerMessage(m) && AllWellFormed(m)
    ensures IsMessage(MODEL, m)
    ensures JavaParse(unknown, MessageBytes(MODEL, m), Defaults(MODEL)) == Some(m)
    ensures ParseFrom(MODEL, JavaBytes(m), Defaults(MODEL)) == Ok((m, []))
  {
    hide MessageBytes, JavaBytes, JavaParse, ParseFrom, WellFormed, JavaFits, Fits;
    ClientAndServerAgree(m);
    ServerRoundTrip(unknown, m);
    RoundTripIff(MODEL, m);
    forall i | 0 <= i < 5 && m[i].Str?
      ensures NoLeadDropped(m[i].s)
    {
      WellFormedDropsNothing(m[i].s);
    }
  }

  // ---- whatever the strings ----

  /** Dropped leads leave no trace: the string without them is written the same. */
  lemma {:induction false} KeptIsWrittenTheSame(s: seq<uint16>)
    ensures WriteUnits(Kept(s)) == WriteUnits(s)
  {
    if s != [] {
      var t := s[Taken(s)..];
      KeptIsWrittenTheSame(t);
      if !Dropped(s) {
        KeptFront(s);
      } else {
        assert [] + WriteUnits(t) == WriteUnits(t) && [] + Kept(t) == Kept(t);
      }
    }
  }

  /** A kept lead is paired or last, so what follows a kept unit does not matter to it. */
  lemma KeptFront(s: seq<uint16>)
    requires s != [] && !Dropped(s)
    ensures var k := Kept(s);
            k != [] && !Dropped(k) && Front(k) == Front(s) && k[Taken(k)..] == Kept(s[Taken(s)..])
  {
    hide Utf8, Pair, ThreeBytes;
    var n, t := Taken(s), Kept(s[Taken(s)..]);
    assert Kept(s) == s[..n] + t;
    if n == 1 && |s| > 1 {
      assert !IsLead(s[0]);
    }
  }

  /** The last unit is no lead, and every trail stands right behind a lead. */
  predicate Acceptable(s: seq<uint16>) {
    && (s != [] ==> !IsLead(s[|s| - 1]))
    && forall i :: 0 <= i < |s| && IsTrail(s[i]) ==> i > 0 && IsLead(s[i - 1])
  }

  /** Exactly then is what the client keeps of the string well-formed: only leads before non-trails are lost. */
  lemma {:induction false} KeptWellFormedIff(s: seq<uint16>)
    ensures WellFormed(Kept(s)) <==> Acceptable(s)
  {
    hide Acceptable;
    if s == [] {
      NothingAcceptable();
    } else {
      var k := Taken(s);
      KeptWellFormedIff(s[k..]);
      if Dropped(s) {
        AcceptableTail(s, 1);
        assert [] + Kept(s[k..]) == Kept(s[k..]);
      } else {
        assert Kept(s) == s[..k] + Kept(s[k..]);
        assert Kept(s)[k..] == Kept(s[k..]);
        if k == 2 || !(IsLead(s[0]) || IsTrail(s[0])) {
          AcceptableTail(s, k);
        } else {
          LoneSurrogate(s);
        }
      }
    }
  }

  lemma NothingAcceptable()
    ensures Acceptable([])
  {
  }

  /** A unit or pair at the front that is no lone surrogate, or is dropped, does not matter. */
  lemma AcceptableTail(s: seq<uint16>, k: nat)
    requires s != [] && 1 <= k <= |s|
    requires k == 1 ==> (!IsLead(s[0]) && !IsTrail(s[0])) || (|s| >= 2 && IsLead(s[0]) && !IsTrail(s[1]))
    requires k == 2 ==> IsLead(s[0]) && IsTrail(s[1])
    requires k <= 2
    ensures Acceptable(s) <==> Acceptable(s[k..])
  {
    var t := s[k..];
    assert forall i :: 0 <= i < |t| ==> t[i] == s[i + k];
    if Acceptable(t) {
      forall i | 0 <= i < |s| && IsTrail(s[i])
        ensures i > 0 && IsLead(s[i - 1])
      {
        if i >= k {
          assert t[i - k] == s[i];
        }
      }
      assert t != [] ==> s[|s| - 1] == t[|t| - 1];
    }
    if Acceptable(s) {
      forall i | 0 <= i < |t| && IsTrail(t[i])
        ensures i > 0 && IsLead(t[i - 1])
      {
        assert IsTrail(s[i + k]);
      }
    }
  }

  lemma LoneSurrogate(s: seq<uint16>)
    requires s != [] && Taken(s) == 1 && !Dropped(s) && (IsLead(s[0]) || IsTrail(s[0]))
    ensures !Acceptable(s) && !WellFormed(Kept(s))
  {
    assert Kept(s)[0] == s[0];
    assert IsLead(s[0]) ==> |s| == 1 && Kept(s[1..]) == [];
  }

  /**
   * The server accepts a string the client wrote exactly if its last unit is no lead and every
   * trail stands behind a lead, and then it reads what the client kept.
   */
  lemma {:induction false} ClientStringAccepted(s: seq<uint16>, rest: seq<byte>)
    requires |WriteUnits(s)| < 0x8000_0000
    ensures RawString(Prefixed(WriteUnits(s)) + rest) ==
            if Acceptable(s) then Some((Kept(s), |Prefixed(WriteUnits(s))|)) else None
  {
    hide WriteUnits, Kept, RawBytes, ToBytes, Slice, WellFormed, ReadUnits, Acceptable;
    var b := WriteUnits(s);
    BytesReadBack(b, rest);
    ToBytesUndoesSlice(b);
    KeptIsWrittenTheSame(s);
    KeptWellFormedIff(s);
    if WellFormed(Kept(s)) {
      EncodersAgree(Kept(s));
      SliceUndoesToBytes(Kept(s));
    } else if IsUtf8(b) {
      var vs: seq<scalar> :| Utf8All(vs) == b;
      ReadersAgree(vs, []);
      ReadUndoesWrite(s, []);
      SliceWellFormed(b);
    }
  }

  predicate AllAcceptable(m: seq<Value>) {
    forall i :: 0 <= i < |m| && m[i].Str? ==> Acceptable(m[i].s)
  }

  /** One string field of the client in the server's loop. */
  lemma ClientFieldAccepted(unknown: (int, seq<byte>) -> Option<nat>, i: nat, s: seq<uint16>, rest: seq<byte>,
                            m: seq<Value>)
    requires 1 <= i < 4 && |m| == 5 && Fits(StringKind, Str(s)) && |WriteUnits(s)| < 0x8000_0000
    requires m[i] == Str([])
    ensures JavaParse(unknown, Part(StringKind, i + 1, Str(s)) + rest, m) ==
            if Acceptable(s) then JavaParse(unknown, rest, m[i := Str(Kept(s))]) else None
  {
    hide WriteUnits, Kept, Acceptable, Prefixed, Raw32, RawString, RawBytes, JavaParse, Tag;
    var part := Part(StringKind, i + 1, Str(s));
    KeptNonEmpty(s);
    if s == [] {
      assert part + rest == rest && m[i := Str([])] == m;
      NothingAcceptable();
    } else {
      var tag, body := Tag(i + 1, DELIMITED), Prefixed(WriteUnits(s));
      assert (tag + body) + rest == tag + (body + rest) && (tag + (body + rest))[|tag|..] == body + rest;
      assert (part + rest)[|part|..] == rest;
      TagReadsBack(i, DELIMITED, body + rest);
      ClientStringAccepted(s, rest);
      assert Turn(unknown, part + rest, m) ==
             if Acceptable(s) then Some((m[i := Str(Kept(s))], |part|)) else None;
      ParseStep(unknown, part + rest, 0, m);
      assert (part + rest)[0..] == part + rest;
    }
  }

  lemma ClientStringsAccepted(unknown: (int, seq<byte>) -> Option<nat>, s1: seq<uint16>, s2: seq<uint16>,
                              s3: seq<uint16>, rest: seq<byte>, m: seq<Value>)
    requires |WriteUnits(s1)| < 0x8000_0000 && |WriteUnits(s2)| < 0x8000_0000 && |WriteUnits(s3)| < 0x8000_0000
    requires |m| == 5 && m[1] == m[2] == m[3] == Str([])
    ensures JavaParse(unknown, Part(StringKind, 2, Str(s1)) +
                               (Part(StringKind, 3, Str(s2)) + (Part(StringKind, 4, Str(s3)) + rest)), m) ==
            if Acceptable(s1) && Acceptable(s2) && Acceptable(s3)
            then JavaParse(unknown, rest, [m[0], Str(Kept(s1)), Str(Kept(s2)), Str(Kept(s3)), m[4]]) else None
  {
    hide Part, WriteUnits, Kept, Acceptable, JavaParse;
    var p2, p3 := Part(StringKind, 3, Str(s2)), Part(StringKind, 4, Str(s3));
    ClientFieldAccepted(unknown, 1, s1, p2 + (p3 + rest), m);
    var m2 := m[1 := Str(Kept(s1))];
    ClientFieldAccepted(unknown, 2, s2, p3 + rest, m2);
    var m3 := m2[2 := Str(Kept(s2))];
    ClientFieldAccepted(unknown, 3, s3, rest, m3);
    assert m3[3 := Str(Kept(s3))] == [m[0], Str(Kept(s1)), Str(Kept(s2)), Str(Kept(s3)), m[4]];
  }

  /** The lengths of all fields fit Java's int. */
  predicate ServerSized(m: seq<Value>)
    requires IsMessage(MODEL, m)
  {
    assert Fits(MODEL[1], m[1]) && Fits(MODEL[2], m[2]) && Fits(MODEL[3], m[3]) && Fits(MODEL[4], m[4]);
    |WriteUnits(m[1].s)| < 0x8000_0000 && |WriteUnits(m[2].s)| < 0x8000_0000 && |WriteUnits(m[3].s)| < 0x8000_0000 &&
    |m[4].b| < 0x8000_0000
  }

  /**
   * The server accepts what the client serialized exactly if all its strings are acceptable,
   * and then has the message the client itself would read back.
   */
  lemma {:induction false} ServerAcceptsClient(unknown: (int, seq<byte>) -> Option<nat>, m: seq<Value>)
    requires IsMessage(MODEL, m) && ServerSized(m)
    ensures JavaParse(unknown, MessageBytes(MODEL, m), Defaults(MODEL)) ==
            if AllAcceptable(m) then Some(Survivors(m)) else None
  {
    ModelShape(m);
    hide MessageBytes, IsMessage, Part, Kept, Acceptable, JavaParse, AllAcceptable, Defaults, Fits;
    FieldsAccepted(unknown, m[0].n, m[1].s, m[2].s, m[3].s, m[4].b);
    ModelBytes(m);
    AllAcceptableIs(m);
    SurvivorsOfModel(m);
  }

  /** For instance: a message whose sender's name ends in a lead. */
  const LEAD_MESSAGE: seq<Value> := [Num(0), Str([0xD800]), Str([]), Str([]), Raw([])]

  lemma LeadMessageShape()
    ensures var m := LEAD_MESSAGE;
            IsMessage(MODEL, m) && ServerSized(m) && !Acceptable(m[1].s) && NothingDropped(m)
  {
    var m := LEAD_MESSAGE;
    LoneLead();
    hide WriteUnits, Acceptable;
    assert Fits(MODEL[0], m[0]) && Fits(MODEL[1], m[1]) && Fits(MODEL[2], m[2]);
    assert Fits(MODEL[3], m[3]) && Fits(MODEL[4], m[4]);
  }

  lemma LoneLead()
    ensures |WriteUnits([0xD800])| == 3 && WriteUnits([]) == [] && !Acceptable([0xD800])
  {
    assert [0xD800][1..] == [];
    assert IsLead(0xD800);
  }

  /** The client reads it back unchanged, the server refuses it. */
  lemma MessageRefused(unknown: (int, seq<byte>) -> Option<nat>)
    ensures var m := LEAD_MESSAGE;
            && IsMessage(MODEL, m)
            && ParseFrom(MODEL, MessageBytes(MODEL, m), Defaults(MODEL)) == Ok((m, []))
            && JavaParse(unknown, MessageBytes(MODEL, m), Defaults(MODEL)) == None
  {
    LeadMessageShape();
    hide MessageBytes, JavaParse, ParseFrom, IsMessage, ServerSized, Acceptable, NothingDropped;
    ServerAcceptsClient(unknown, LEAD_MESSAGE);
    RoundTripIff(MODEL, LEAD_MESSAGE);
    assert LEAD_MESSAGE[1].Str?;
  }

  lemma ModelShape(m: seq<Value>)
    requires IsMessage(MODEL, m)
    ensures |m| == 5 && m[0].Num? && m[1].Str? && m[2].Str? && m[3].Str? && m[4].Raw?
    ensures Fits(EnumKind, m[0]) && Fits(StringKind, m[1]) && Fits(StringKind, m[2]) && Fits(StringKind, m[3])
    ensures Fits(BytesKind, m[4]) && -0x8000_0000 <= m[0].n < 0x8000_0000
  {
    assert Fits(MODEL[0], m[0]) && Fits(MODEL[1], m[1]) && Fits(MODEL[2], m[2]);
    assert Fits(MODEL[3], m[3]) && Fits(MODEL[4], m[4]);
  }

  lemma ModelBytes(m: seq<Value>)
    requires IsMessage(MODEL, m)
    requires |m| == 5 && Fits(EnumKind, m[0]) && Fits(StringKind, m[1])
    requires Fits(StringKind, m[2]) && Fits(StringKind, m[3])
    requires Fits(BytesKind, m[4])
    ensures MessageBytes(MODEL, m) ==
            [] + Part(EnumKind, 1, m[0]) + Part(StringKind, 2, m[1]) + Part(StringKind, 3, m[2])
               + Part(StringKind, 4, m[3]) + Part(BytesKind, 5, m[4])
  {
    hide MessageBytes, Part, Fits;
    FiveParts(MODEL, m);
  }

  lemma SurvivorsOfModel(m: seq<Value>)
    requires |m| == 5 && m[0].Num? && m[1].Str? && m[2].Str? && m[3].Str? && m[4].Raw?
    ensures Survivors(m) == [m[0], Str(Kept(m[1].s)), Str(Kept(m[2].s)), Str(Kept(m[3].s)), m[4]]
  {
    hide Kept;
  }

  lemma FieldsAccepted(unknown: (int, seq<byte>) -> Option<nat>, n: int32, s1: seq<uint16>, s2: seq<uint16>,
                       s3: seq<uint16>, b: seq<byte>)
    requires |WriteUnits(s1)| < 0x8000_0000 && |WriteUnits(s2)| < 0x8000_0000 && |WriteUnits(s3)| < 0x8000_0000
    requires |b| < 0x8000_0000
    ensures JavaParse(unknown, [] + Part(EnumKind, 1, Num(n)) + Part(StringKind, 2, Str(s1))
                                  + Part(StringKind, 3, Str(s2)) + Part(StringKind, 4, Str(s3))
                                  + Part(BytesKind, 5, Raw(b)), Defaults(MODEL)) ==
            if Acceptable(s1) && Acceptable(s2) && Acceptable(s3)
            then Some([Num(n), Str(Kept(s1)), Str(Kept(s2)), Str(Kept(s3)), Raw(b)]) else None
  {
    hide Part, WriteUnits, Kept, Acceptable, JavaParse, Defaults;
    var p0, p1, p2, p3, p4 := Part(EnumKind, 1, Num(n)), Part(StringKind, 2, Str(s1)), Part(StringKind, 3, Str(s2)),
                              Part(StringKind, 4, Str(s3)), Part(BytesKind, 5, Raw(b));
    RightToLeft(p0, p1, p2, p3, p4);
    FirstFieldAccepted(unknown, Num(n), p1 + (p2 + (p3 + p4)));
    ClientStringsAccepted(unknown, s1, s2, s3, p4, [Num(n), Str([]), Str([]), Str([]), Raw([])]);
    LastFieldAccepted(unknown, Raw(b), Num(n), Str(Kept(s1)), Str(Kept(s2)), Str(Kept(s3)));
  }

  lemma FirstFieldAccepted(unknown: (int, seq<byte>) -> Option<nat>, v: Value, rest: seq<byte>)
    requires Fits(EnumKind, v)
    ensures JavaParse(unknown, Part(EnumKind, 1, v) + rest, Defaults(MODEL)) ==
            JavaParse(unknown, rest, [v, Str([]), Str([]), Str([]), Raw([])])
  {
    var d := Defaults(MODEL);
    EnumPartAgrees(v);
    hide Part, JavaPart, JavaParse, JavaFits;
    ParseReadsPart(unknown, 0, v, rest, d);
    assert d[0 := v] == [v, Str([]), Str([]), Str([]), Raw([])];
  }

  lemma LastFieldAccepted(unknown: (int, seq<byte>) -> Option<nat>, v: Value,
                          v0: Value, v1: Value, v2: Value, v3: Value)
    requires Fits(BytesKind, v) && |v.b| < 0x8000_0000
    ensures JavaParse(unknown, Part(BytesKind, 5, v), [v0, v1, v2, v3, Raw([])]) == Some([v0, v1, v2, v3, v])
  {
    var m := [v0, v1, v2, v3, Raw([])];
    BytesPartAgrees(v);
    hide Part, JavaPart, JavaParse, JavaFits;
    ParseReadsPart(unknown, 4, v, [], m);
    assert Part(BytesKind, 5, v) + [] == Part(BytesKind, 5, v);
    assert m[4 := v] == [v0, v1, v2, v3, v];
    ParseNothing(unknown, [v0, v1, v2, v3, v]);
  }

  lemma RightToLeft(a: seq<byte>, b: seq<byte>, c: seq<byte>, d: seq<byte>, e: seq<byte>)
    ensures [] + a + b + c + d + e == a + (b + (c + (d + e)))
  {
  }

  lemma EnumPartAgrees(v: Value)
    requires Fits(EnumKind, v)
    ensures JavaFits(v, 0) && JavaPart(0, v) == Part(EnumKind, 1, v)
  {
  }

  lemma BytesPartAgrees(v: Value)
    requires Fits(BytesKind, v) && |v.b| < 0x8000_0000
    ensures JavaFits(v, 4) && JavaPart(4, v) == Part(BytesKind, 5, v)
  {
  }

  lemma AllAcceptableIs(m: seq<Value>)
    requires |m| == 5 && m[0].Num? && m[1].Str? && m[2].Str? && m[3].Str? && m[4].Raw?
    ensures AllAcceptable(m) <==> Acceptable(m[1].s) && Acceptable(m[2].s) && Acceptable(m[3].s)
  {
    hide Acceptable;
  }
}
