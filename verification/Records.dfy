/**
 * Messages as lists of records: what the generated parse loops compute from any
 * input, and what they make of serialized records.
 */
module Records {
  import opened JsNumbers
  import opened Outcomes
  import opened Varints
  import opened StringCodecs
  import opened UInt64s
  import opened Wire

  datatype Kind = EnumKind | Uint32Kind | StringKind | BytesKind

  datatype Value = Num(n: int) | Str(s: seq<uint16>) | Raw(b: seq<byte>)

  /** Field number i + 1 has kind schema[i]. */
  type Schema = seq<Kind>

  /** `Model`: cmd, from, to, groupid, content. */
  const MODEL: Schema := [EnumKind, StringKind, StringKind, StringKind, BytesKind]

  /** `MessageBody`: title, content, time, type, extend. */
  const BODY: Schema := [StringKind, StringKind, StringKind, Uint32Kind, StringKind]

  function Default(kind: Kind): Value {
    match kind
    case EnumKind => Num(0)
    case Uint32Kind => Num(0)
    case StringKind => Str([])
    case BytesKind => Raw([])
  }

  function Defaults(schema: Schema): (m: seq<Value>)
    ensures |m| == |schema|
  {
    seq(|schema|, i requires 0 <= i < |schema| => Default(schema[i]))
  }

  /** Values a setter of the kind accepts and the writer does not refuse. */
  predicate Fits(kind: Kind, v: Value) {
    match kind
    case EnumKind => v.Num? && -0x8000_0000 <= v.n < 0x8000_0000
    case Uint32Kind => v.Num? && 0 <= v.n < 0x1_0000_0000
    case StringKind => v.Str? && |WriteUnits(v.s)| < 0x1_0000_0000
    case BytesKind => v.Raw? && |v.b| < 0x1_0000_0000
  }

  predicate IsMessage(schema: Schema, m: seq<Value>) {
    |m| == |schema| && forall i :: 0 <= i < |m| ==> Fits(schema[i], m[i])
  }

  // ---- the parse loop ----

  function ReadValue(kind: Kind, wire: nat, s: seq<byte>): (r: Outcome<(Value, nat)>)
    ensures !r.Backward?
  {
    match kind
    case EnumKind =>
      if wire != VARINT then Throws
      else var (v, k) :- Read64(s); Ok((Num(Of(v).Signed()), k))
    case Uint32Kind =>
      if wire != VARINT then Throws
      else var (v, k) :- Read32(s); Ok((Num(v), k))
    case StringKind =>
      if wire != DELIMITED then Throws
      else var (n, k) :- Read32(s); var (u, m) := ReadUnits(s[k..], n); Ok((Str(u), k + m))
    case BytesKind =>
      if wire != DELIMITED then Throws
      else
        var (n, k) :- Read32(s);
        if n < 0 || k + n > |s| then Throws else Ok((Raw(s[k..k + n]), k + n))
  }

  /**
   * The loop of `deserializeBinaryFromReader` from the rest `s` of the input with the
   * message as it stands: the final message, and what is left when the loop ends.
   */
  function ParseFrom(schema: Schema, s: seq<byte>, m: seq<Value>): Outcome<(seq<Value>, seq<byte>)>
    requires |m| == |schema|
    decreases |s|
  {
    if s == [] then Ok((m, []))
    else
      var h :- NextField(s);
      var rest := s[h.size..];
      if h.wire == END_GROUP then Ok((m, rest))
      else if 1 <= h.no <= |schema| then
        var (v, k) :- ReadValue(schema[h.no - 1], h.wire, rest);
        if k > |rest| then Throws else ParseFrom(schema, rest[k..], m[h.no - 1 := v])
      else
        var k :- SkipField(rest, h.no, h.wire);
        if k > |rest| then Throws else ParseFrom(schema, rest[k..], m)
  }

  // ---- records ----

  /** A known field as the generated code writes it, or the bytes of any other field. */
  datatype Record = Known(no: nat, v: Value) | Unknown(u: seq<byte>)

  /**
   * One complete field of a number the schema does not know: a header and what skipping it
   * consumes, in whatever encoding the reader accepts.
   */
  predicate IsUnknownField(schema: Schema, u: seq<byte>) {
    NextField(u).Ok? &&
    var h := NextField(u).value;
    && h.wire != END_GROUP && !(1 <= h.no <= |schema|)
    && SkipField(u[h.size..], h.no, h.wire) == Ok(|u| - h.size)
  }

  predicate ValidRecord(schema: Schema, r: Record) {
    match r
    case Known(no, v) => 1 <= no <= |schema| < 0x2000_0000 && Fits(schema[no - 1], v)
    case Unknown(u) => IsUnknownField(schema, u)
  }

  predicate ValidRecords(schema: Schema, rs: seq<Record>) {
    forall r :: r in rs ==> ValidRecord(schema, r)
  }

  function WireOf(kind: Kind): nat {
    if kind.EnumKind? || kind.Uint32Kind? then VARINT else DELIMITED
  }

  function ValueBytes(kind: Kind, v: Value): seq<byte>
    requires Fits(kind, v)
  {
    match kind
    case EnumKind => EncodeSigned(v.n)
    case Uint32Kind => Encode(v.n)
    case StringKind => Prefixed(WriteUnits(v.s))
    case BytesKind => Prefixed(v.b)
  }

  function RecordBytes(schema: Schema, r: Record): seq<byte>
    requires ValidRecord(schema, r)
  {
    match r
    case Known(no, v) => Tag(no, WireOf(schema[no - 1])) + ValueBytes(schema[no - 1], v)
    case Unknown(u) => u
  }

  function AllBytes(schema: Schema, rs: seq<Record>): seq<byte>
    requires ValidRecords(schema, rs)
  {
    if rs == [] then [] else RecordBytes(schema, rs[0]) + AllBytes(schema, rs[1..])
  }

  /** What is left of a value after writing and reading: strings lose their dropped leads. */
  function Survivor(v: Value): Value {
    if v.Str? then Str(Kept(v.s)) else v
  }

  /** The message after a list of records: the last known record of each field wins. */
  function Fold(schema: Schema, rs: seq<Record>, m: seq<Value>): (r: seq<Value>)
    requires ValidRecords(schema, rs) && |m| == |schema|
    ensures |r| == |schema|
  {
    if rs == [] then m
    else match rs[0]
      case Known(no, v) => assert ValidRecord(schema, rs[0]); Fold(schema, rs[1..], m[no - 1 := Survivor(v)])
      case Unknown(_) => Fold(schema, rs[1..], m)
  }

  /** A value is read back from its bytes, whatever follows, using all of them. */
  lemma ReadsValue(kind: Kind, v: Value, rest: seq<byte>)
    requires Fits(kind, v)
    ensures ReadValue(kind, WireOf(kind), ValueBytes(kind, v) + rest) == Ok((Survivor(v), |ValueBytes(kind, v)|))
  {
    match kind
    case EnumKind =>
      SignedReadsBack(v.n, rest);
      SignedOfResidue(v.n);
    case Uint32Kind => ReadsBack32(v.n, rest);
    case StringKind => ReadsString(v.s, rest);
    case BytesKind => ReadsRaw(v.b, rest);
  }

  lemma SignedOfResidue(v: int32)
    ensures Of(v % 0x1_0000_0000_0000_0000).Signed() == v
  {
    if v < 0 {
      DivModUnique(v, -1, 0x1_0000_0000_0000_0000, v + 0x1_0000_0000_0000_0000);
    }
  }

  lemma ReadsString(s: seq<uint16>, rest: seq<byte>)
    requires |WriteUnits(s)| < 0x1_0000_0000
    ensures ReadValue(StringKind, DELIMITED, Prefixed(WriteUnits(s)) + rest) ==
            Ok((Str(Kept(s)), |Prefixed(WriteUnits(s))|))
  {
    hide WriteUnits, ReadUnits, Kept, Encode, Read32;
    var w := WriteUnits(s);
    assert Prefixed(w) + rest == Encode(|w|) + (w + rest);
    ReadsBack32(|w|, w + rest);
    assert (Encode(|w|) + (w + rest))[|Encode(|w|)|..] == w + rest;
    ReadUndoesWrite(s, rest);
  }

  lemma ReadsRaw(b: seq<byte>, rest: seq<byte>)
    requires |b| < 0x1_0000_0000
    ensures ReadValue(BytesKind, DELIMITED, Prefixed(b) + rest) == Ok((Raw(b), |Prefixed(b)|))
  {
    hide Encode, Read32;
    assert Prefixed(b) + rest == Encode(|b|) + (b + rest);
    ReadsBack32(|b|, b + rest);
    var k := |Encode(|b|)|;
    assert (Encode(|b|) + (b + rest))[k..k + |b|] == b;
  }

  /**
   * Parsing serialized records, known and unknown in any order, ends at the end of the
   * input with the fold of the known ones: unknown fields have no effect.
   */
  lemma {:induction false} ParsesRecords(schema: Schema, rs: seq<Record>, m: seq<Value>)
    requires ValidRecords(schema, rs) && |m| == |schema|
    ensures ParseFrom(schema, AllBytes(schema, rs), m) == Ok((Fold(schema, rs, m), []))
  {
    hide ParseFrom, RecordBytes, ValidRecord, Survivor;
    if rs == [] {
      ParsesNothing(schema, m);
    } else {
      var r, rest := rs[0], AllBytes(schema, rs[1..]);
      assert ValidRecord(schema, r);
      assert AllBytes(schema, rs) == RecordBytes(schema, r) + rest;
      match r
      case Known(no, v) =>
        KnownFits(schema, no, v);
        var m' := m[no - 1 := Survivor(v)];
        assert Fold(schema, rs, m) == Fold(schema, rs[1..], m');
        ParsesRecords(schema, rs[1..], m');
        ParsesKnown(schema, no, v, rest, m);
      case Unknown(u) =>
        assert Fold(schema, rs, m) == Fold(schema, rs[1..], m);
        ParsesRecords(schema, rs[1..], m);
        UnknownBytes(schema, u);
        ParsesUnknown(schema, u, rest, m);
    }
  }

  lemma ParsesNothing(schema: Schema, m: seq<Value>)
    requires |m| == |schema|
    ensures ParseFrom(schema, [], m) == Ok((m, []))
  {
  }

  lemma KnownFits(schema: Schema, no: nat, v: Value)
    requires ValidRecord(schema, Known(no, v))
    ensures 1 <= no <= |schema| && Fits(schema[no - 1], v)
  {
  }

  lemma ParsesKnown(schema: Schema, no: nat, v: Value, rest: seq<byte>, m: seq<Value>)
    requires ValidRecord(schema, Known(no, v)) && |m| == |schema|
    ensures ParseFrom(schema, RecordBytes(schema, Known(no, v)) + rest, m) ==
            ParseFrom(schema, rest, m[no - 1 := Survivor(v)])
  {
    hide Tag, ValueBytes, ReadValue, NextField, Fits, Survivor;
    var kind := schema[no - 1];
    var tag, b := Tag(no, WireOf(kind)), ValueBytes(kind, v);
    var s := RecordBytes(schema, Known(no, v)) + rest;
    assert s == tag + (b + rest);
    assert s[|tag|..] == b + rest && (b + rest)[|b|..] == rest;
    ReadsTag(no, WireOf(kind), b + rest);
    ReadsValue(kind, v, rest);
  }

  lemma UnknownBytes(schema: Schema, u: seq<byte>)
    requires ValidRecord(schema, Unknown(u))
    ensures IsUnknownField(schema, u) && RecordBytes(schema, Unknown(u)) == u
  {
  }

  /** An unknown field at the front of the input has no effect on the parse, however it is encoded. */
  lemma ParsesUnknown(schema: Schema, u: seq<byte>, rest: seq<byte>, m: seq<Value>)
    requires IsUnknownField(schema, u) && |m| == |schema|
    ensures ParseFrom(schema, u + rest, m) == ParseFrom(schema, rest, m)
  {
    hide SkipField, NextField, ReadValue;
    var h := NextField(u).value;
    var s := u + rest;
    NextFieldTheSame(u, rest);
    assert s[h.size..] == u[h.size..] + rest;
    SkipFieldTheSame(u[h.size..], rest, h.no, h.wire);
    assert s[h.size..][|u| - h.size..] == rest;
  }

  /** Serialized field trees are such fields. */
  lemma TreeIsUnknownField(schema: Schema, f: Field)
    requires Valid(f) && !(1 <= f.no <= |schema|)
    ensures IsUnknownField(schema, Serialize(f))
  {
    hide Tag, Payload, SkipField, NextField;
    var tag, b := Tag(f.no, WireType(f)), Payload(f);
    ReadsTag(f.no, WireType(f), b);
    SkipsField(f, []);
    assert b + [] == b && (tag + b)[|tag|..] == b;
  }

  // ---- messages ----

  /** The records the generated serializer writes: the fields that are not default, in order. */
  function RecordsFrom(schema: Schema, m: seq<Value>, i: nat): (rs: seq<Record>)
    requires IsMessage(schema, m) && i <= |schema| < 0x2000_0000
    ensures ValidRecords(schema, rs)
    decreases |schema| - i
  {
    if i == |schema| then []
    else (if m[i] == Default(schema[i]) then [] else [Known(i + 1, m[i])]) + RecordsFrom(schema, m, i + 1)
  }

  function MessageBytes(schema: Schema, m: seq<Value>): seq<byte>
    requires IsMessage(schema, m) && |schema| < 0x2000_0000
  {
    AllBytes(schema, RecordsFrom(schema, m, 0))
  }

  function Survivors(m: seq<Value>): (r: seq<Value>)
    ensures |r| == |m|
  {
    seq(|m|, i requires 0 <= i < |m| => Survivor(m[i]))
  }

  /** Field by field the second message's value, unless that is the default. */
  function Merge(schema: Schema, m1: seq<Value>, m2: seq<Value>): (r: seq<Value>)
    requires |m1| == |m2| == |schema|
    ensures |r| == |schema|
  {
    seq(|schema|, i requires 0 <= i < |schema| => if m2[i] == Default(schema[i]) then m1[i] else m2[i])
  }

  lemma {:induction false} FoldConcat(schema: Schema, rs: seq<Record>, qs: seq<Record>, m: seq<Value>)
    requires ValidRecords(schema, rs) && ValidRecords(schema, qs) && |m| == |schema|
    ensures ValidRecords(schema, rs + qs)
    ensures Fold(schema, rs + qs, m) == Fold(schema, qs, Fold(schema, rs, m))
  {
    hide ValidRecord;
    if rs == [] {
      assert rs + qs == qs;
    } else {
      var m' := if rs[0].Known? then (KnownIndex(schema, rs[0]); m[rs[0].no - 1 := Survivor(rs[0].v)]) else m;
      FoldConcat(schema, rs[1..], qs, m');
      assert (rs + qs)[1..] == rs[1..] + qs;
    }
  }

  lemma KnownIndex(schema: Schema, r: Record)
    requires ValidRecord(schema, r) && r.Known?
    ensures 1 <= r.no <= |schema|
  {
  }

  lemma {:induction false} BytesConcat(schema: Schema, rs: seq<Record>, qs: seq<Record>)
    requires ValidRecords(schema, rs) && ValidRecords(schema, qs)
    ensures ValidRecords(schema, rs + qs)
    ensures AllBytes(schema, rs + qs) == AllBytes(schema, rs) + AllBytes(schema, qs)
  {
    hide ValidRecord, RecordBytes;
    if rs == [] {
      assert rs + qs == qs;
    } else {
      BytesConcat(schema, rs[1..], qs);
      assert (rs + qs)[1..] == rs[1..] + qs;
    }
  }

  /** Folding the records of m2 into any message is merging what survives of m2 into it. */
  lemma FoldKnown(schema: Schema, no: nat, v: Value, rs: seq<Record>, m: seq<Value>)
    requires ValidRecords(schema, [Known(no, v)] + rs) && ValidRecords(schema, rs)
    requires 1 <= no <= |schema| == |m|
    ensures Fold(schema, [Known(no, v)] + rs, m) == Fold(schema, rs, m[no - 1 := Survivor(v)])
  {
    hide Survivor, ValidRecord;
    assert ([Known(no, v)] + rs)[1..] == rs;
  }

  lemma {:induction false} FoldOfRecordsAt(schema: Schema, m1: seq<Value>, m2: seq<Value>, i: nat, j: nat)
    requires IsMessage(schema, m2) && |m1| == |schema| < 0x2000_0000 && i <= |schema| && j < |schema|
    ensures Fold(schema, RecordsFrom(schema, m2, i), m1)[j] ==
            if j < i || m2[j] == Default(schema[j]) then m1[j] else Survivor(m2[j])
    decreases |schema| - i
  {
    if i < |schema| {
      hide Fits, ValidRecords, Survivor, Default, Fold, RecordsFrom;
      var rs := RecordsFrom(schema, m2, i + 1);
      FirstRecord(schema, m2, i);
      if m2[i] == Default(schema[i]) {
        FoldOfRecordsAt(schema, m1, m2, i + 1, j);
      } else {
        FoldOfRecordsAt(schema, m1[i := Survivor(m2[i])], m2, i + 1, j);
        FoldKnown(schema, i + 1, m2[i], rs, m1);
      }
    }
  }

  lemma FirstRecord(schema: Schema, m: seq<Value>, i: nat)
    requires IsMessage(schema, m) && i < |schema| < 0x2000_0000
    ensures RecordsFrom(schema, m, i) ==
            (if m[i] == Default(schema[i]) then [] else [Known(i + 1, m[i])]) + RecordsFrom(schema, m, i + 1)
    ensures [] + RecordsFrom(schema, m, i + 1) == RecordsFrom(schema, m, i + 1)
  {
    hide Default, Fits;
  }

  lemma FoldOfRecords(schema: Schema, m1: seq<Value>, m2: seq<Value>, i: nat)
    requires IsMessage(schema, m2) && |m1| == |schema| < 0x2000_0000 && i <= |schema|
    ensures var r := Fold(schema, RecordsFrom(schema, m2, i), m1);
            forall j :: 0 <= j < |schema| ==>
              r[j] == if j < i || m2[j] == Default(schema[j]) then m1[j] else Survivor(m2[j])
  {
    hide Fits, Fold, RecordsFrom, Default, Survivor;
    forall j | 0 <= j < |schema|
      ensures Fold(schema, RecordsFrom(schema, m2, i), m1)[j] ==
              if j < i || m2[j] == Default(schema[j]) then m1[j] else Survivor(m2[j])
    {
      FoldOfRecordsAt(schema, m1, m2, i, j);
    }
  }

  lemma KeptDefault(kind: Kind, v: Value)
    requires Fits(kind, v)
    ensures Survivor(v) == Default(kind) <==> v == Default(kind)
  {
    if v.Str? {
      KeptNonEmpty(v.s);
    }
  }

  lemma {:induction false} KeptNonEmpty(s: seq<uint16>)
    ensures Kept(s) == [] <==> s == []
  {
    if s != [] && Dropped(s) {
      KeptNonEmpty(s[1..]);
    }
  }

  /** Parsing a serialized message gives what survives of it, and uses up the input. */
  lemma {:induction false} ParsesMessage(schema: Schema, m: seq<Value>)
    requires IsMessage(schema, m) && |schema| < 0x2000_0000
    ensures ParseFrom(schema, MessageBytes(schema, m), Defaults(schema)) == Ok((Survivors(m), []))
  {
    hide ParseFrom, Survivor, Fits;
    ParsesRecords(schema, RecordsFrom(schema, m, 0), Defaults(schema));
    FoldOfRecords(schema, Defaults(schema), m, 0);
    forall j | 0 <= j < |m| ensures Fold(schema, RecordsFrom(schema, m, 0), Defaults(schema))[j] == Survivors(m)[j] {
      KeptDefault(schema[j], m[j]);
    }
    assert Fold(schema, RecordsFrom(schema, m, 0), Defaults(schema)) == Survivors(m);
  }

  predicate NothingDropped(m: seq<Value>) {
    forall i :: 0 <= i < |m| && m[i].Str? ==> NoLeadDropped(m[i].s)
  }

  /** The round trip holds exactly for messages whose strings drop no lead surrogate. */
  lemma {:induction false} RoundTripIff(schema: Schema, m: seq<Value>)
    requires IsMessage(schema, m) && |schema| < 0x2000_0000
    ensures ParseFrom(schema, MessageBytes(schema, m), Defaults(schema)) == Ok((m, [])) <==> NothingDropped(m)
  {
    hide ParseFrom, MessageBytes, Defaults, Kept, NoLeadDropped;
    ParsesMessage(schema, m);
    forall i | 0 <= i < |m| && m[i].Str? ensures Survivor(m[i]) == m[i] <==> NoLeadDropped(m[i].s) {
      KeptAll(m[i].s);
    }
    assert Survivors(m) == m <==> forall i :: 0 <= i < |m| ==> Survivor(m[i]) == m[i];
  }

  /** The known records among others. */
  function KnownOnly(rs: seq<Record>): (qs: seq<Record>)
    ensures forall r :: r in qs ==> r in rs
  {
    if rs == [] then [] else (if rs[0].Known? then [rs[0]] else []) + KnownOnly(rs[1..])
  }

  lemma {:induction false} FoldIgnoresUnknown(schema: Schema, rs: seq<Record>, m: seq<Value>)
    requires ValidRecords(schema, rs) && |m| == |schema|
    ensures Fold(schema, rs, m) == Fold(schema, KnownOnly(rs), m)
  {
    if rs != [] {
      hide ValidRecord;
      if rs[0].Known? {
        KnownIndex(schema, rs[0]);
        FoldIgnoresUnknown(schema, rs[1..], m[rs[0].no - 1 := Survivor(rs[0].v)]);
        assert KnownOnly(rs)[0] == rs[0] && KnownOnly(rs)[1..] == KnownOnly(rs[1..]);
      } else {
        FoldIgnoresUnknown(schema, rs[1..], m);
        assert KnownOnly(rs) == KnownOnly(rs[1..]);
      }
    }
  }

  /**
   * Unknown fields put anywhere between the fields of a serialized message, nested groups
   * included and in any encoding the reader accepts, do not change the parsed message.
   */
  lemma {:induction false} UnknownFieldsIgnored(schema: Schema, m: seq<Value>, rs: seq<Record>)
    requires IsMessage(schema, m) && |schema| < 0x2000_0000
    requires ValidRecords(schema, rs) && KnownOnly(rs) == RecordsFrom(schema, m, 0)
    ensures ParseFrom(schema, AllBytes(schema, rs), Defaults(schema)) ==
            ParseFrom(schema, MessageBytes(schema, m), Defaults(schema))
  {
    hide ParseFrom, ValidRecord;
    ParsesRecords(schema, rs, Defaults(schema));
    ParsesRecords(schema, RecordsFrom(schema, m, 0), Defaults(schema));
    FoldIgnoresUnknown(schema, rs, Defaults(schema));
  }

  /** Parsing two serialized messages one after the other merges the second into the first. */
  lemma {:induction false} ConcatenationIsMerge(schema: Schema, m1: seq<Value>, m2: seq<Value>)
    requires IsMessage(schema, m1) && IsMessage(schema, m2) && |schema| < 0x2000_0000
    ensures ParseFrom(schema, MessageBytes(schema, m1) + MessageBytes(schema, m2), Defaults(schema)) ==
            Ok((Merge(schema, Survivors(m1), Survivors(m2)), []))
  {
    hide ParseFrom, ValidRecord, Survivor, Fits;
    var r1, r2 := RecordsFrom(schema, m1, 0), RecordsFrom(schema, m2, 0);
    BytesConcat(schema, r1, r2);
    ParsesRecords(schema, r1 + r2, Defaults(schema));
    FoldConcat(schema, r1, r2, Defaults(schema));
    ParsesMessage(schema, m1);
    ParsesRecords(schema, r1, Defaults(schema));
    FoldOfRecords(schema, Survivors(m1), m2, 0);
    forall j | 0 <= j < |schema|
      ensures Fold(schema, r2, Survivors(m1))[j] == Merge(schema, Survivors(m1), Survivors(m2))[j]
    {
      KeptDefault(schema[j], m2[j]);
    }
    assert Fold(schema, r1, Defaults(schema)) == Survivors(m1);
    assert Fold(schema, r2, Survivors(m1)) == Merge(schema, Survivors(m1), Survivors(m2));
  }
}
