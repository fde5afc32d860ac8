/**
 * The wire format by its numbers: what is written and read, stated with literal header values
 * and byte positions instead of the names the codec uses (sections "Base 128 Varints" and
 * "Message Structure" of the Protocol Buffers "Encoding" specification).
 */
module WireFormat {
  import opened JsNumbers
  import opened Outcomes
  import opened Varints
  import opened Unicode
  import opened StringCodecs
  import opened LittleEndians
  import opened UInt64s
  import opened Encoder
  import opened Wire
  import opened Records
  import opened Messages
  import opened ServerModels

  // ---- varints ----

  lemma DivTwice(n: nat, p: nat)
    requires p > 0
    ensures n / 128 / p == n / (128 * p)
  {
    var m := n / 128;
    var q, r := m / p, m % p;
    assert n == 128 * (q * p + r) + n % 128;
    assert 128 * (q * p + r) == q * (128 * p) + 128 * r;
    DivModUnique(n, q, 128 * p, 128 * r + n % 128);
  }

  /**
   * The k-th byte of a varint carries the k-th seven bits of the number, the lowest first; all
   * bytes but the last have 128 added, and the last is zero for the number zero alone.
   */
  lemma {:induction false} VarintLayout(n: nat, k: nat)
    requires k < |Encode(n)|
    ensures Encode(n)[k] % 128 == n / Pow128(k) % 128
    ensures Encode(n)[k] >= 128 <==> k < |Encode(n)| - 1
    ensures k == |Encode(n)| - 1 && Encode(n)[k] == 0 ==> n == 0
    decreases k
  {
    if k > 0 {
      VarintLayout(n / 128, k - 1);
      DivTwice(n, Pow128(k - 1));
    } else {
      assert Pow128(0) == 1;
    }
  }

  /** What the first k bytes add up to, seven bits a byte. */
  function SevenBits(s: seq<byte>, k: nat): nat
    requires k <= |s|
  {
    if k == 0 then 0 else SevenBits(s, k - 1) + s[k - 1] % 128 * Pow128(k - 1)
  }

  lemma {:induction false} ValueIsSevenBits(s: seq<byte>, k: nat)
    requires k <= |s|
    ensures Varints.Value(s[..k]) == SevenBits(s, k)
  {
    if k > 0 {
      hide Varints.Value;
      ValueIsSevenBits(s, k - 1);
      assert s[..k] == s[..k - 1] + [s[k - 1]];
      ValueAppend(s[..k - 1], s[k - 1]);
    } else {
      assert s[..0] == [];
    }
  }

  /** Where the first byte below 128 is the k-th. */
  predicate EndsAt(s: seq<byte>, k: nat) {
    1 <= k <= |s| && s[k - 1] < 128 && forall i :: 0 <= i < k - 1 ==> s[i] >= 128
  }

  lemma WidthIs(s: seq<byte>, k: nat)
    requires EndsAt(s, k)
    ensures Width(s) == Some(k)
  {
    hide Width;
  }

  /** The 32-bit reader on any input: unsigned up to five bytes, signed up to ten, else an exception. */
  lemma ReadLayout(s: seq<byte>, k: nat)
    requires EndsAt(s, k)
    ensures Read32(s) == if k > 10 then Throws
                         else if k <= 5 then Ok((SevenBits(s, k) % 0x1_0000_0000, k))
                         else
                           var u := SevenBits(s, k) % 0x1_0000_0000;
                           Ok((if u < 0x8000_0000 then u else u - 0x1_0000_0000, k))
    ensures Read64(s) == if k > 10 then Throws else Ok((SevenBits(s, k) % 0x1_0000_0000_0000_0000, k))
  {
    WidthIs(s, k);
    ValueIsSevenBits(s, k);
    hide Width, Varints.Value, SevenBits;
  }

  /** Negative numbers take ten bytes, those of their 64-bit two's complement. */
  lemma SignedLayout(v: int32)
    ensures EncodeSigned(v) == Encode(if v < 0 then v + 0x1_0000_0000_0000_0000 else v)
    ensures v < 0 ==> |EncodeSigned(v)| == 10
  {
    hide Encode, Pow128;
    if v < 0 {
      Pow128Values();
      EncodeLength(v + 0x1_0000_0000_0000_0000, 9);
      EncodeLength(v + 0x1_0000_0000_0000_0000, 10);
    }
  }

  lemma EndlessVarint(s: seq<byte>)
    requires forall i :: 0 <= i < |s| ==> s[i] >= 128
    ensures Read32(s) == Throws && Read64(s) == Throws
  {
  }

  // ---- headers ----

  lemma HeaderBits(u: uint32, a: int)
    requires a == u || a == u - 0x1_0000_0000
    ensures a % 8 == u % 8 && ToUint32(a) == u
  {
    if a != u {
      DivModUnique(a, u / 8 - 0x2000_0000, 8, u % 8);
      DivModUnique(a, -1, 0x1_0000_0000, u);
    }
  }

  /** Whatever the length of its encoding: the low three bits are the wire type, the rest the number. */
  lemma AnyHeader(s: seq<byte>, k: nat)
    requires EndsAt(s, k)
    ensures var u := SevenBits(s, k) % 0x1_0000_0000;
            NextField(s) == if k > 10 || u % 8 >= 6 then Throws else Ok(Header(u / 8, u % 8, k))
  {
    ReadLayout(s, k);
    hide Read32, SevenBits, ToUint32;
    if k <= 10 {
      HeaderBits(SevenBits(s, k) % 0x1_0000_0000, Read32(s).value.0);
    }
  }

  lemma HeaderParts(no: nat, wire: nat)
    requires no < 0x2000_0000 && wire < 8
    ensures (8 * no + wire) % 8 == wire && ToUint32(8 * no + wire) == 8 * no + wire && (8 * no + wire) / 8 == no
  {
  }

  /** A header is the varint of eight times the number plus the wire type; types 6 and 7 throw. */
  lemma HeaderLayout(no: nat, wire: nat, rest: seq<byte>)
    requires no < 0x2000_0000 && wire < 8
    ensures NextField(Encode(8 * no + wire) + rest) ==
            if wire < 6 then Ok(Header(no, wire, |Encode(8 * no + wire)|)) else Throws
  {
    hide Read32, Encode, ToUint32;
    ReadsBack32(8 * no + wire, rest);
    HeaderParts(no, wire);
  }

  // ---- serialized fields ----

  /** Each kind of field, by its header value. */
  lemma FieldLayout(f: Field)
    ensures match f
            case Varint(no, v) => Serialize(f) == Encode(8 * no) + Encode(v)
            case Fixed64(no, v) => Serialize(f) == Encode(8 * no + 1) + Digits(v, 8)
            case Text(no, s) => Serialize(f) == Encode(8 * no + 2) + (Encode(|WriteUnits(s)|) + WriteUnits(s))
            case Bytes(no, b) => Serialize(f) == Encode(8 * no + 2) + (Encode(|b|) + b)
            case Message(no, kids) =>
              Serialize(f) == Encode(8 * no + 2) + (Encode(|SerializeAll(kids)|) + SerializeAll(kids))
            case Group(no, kids) =>
              Serialize(f) == Encode(8 * no + 3) + (SerializeAll(kids) + Encode(8 * no + 4))
            case Fixed32(no, w) => Serialize(f) == Encode(8 * no + 5) + Digits(w, 4)
  {
    hide Encode, Digits, WriteUnits;
  }

  lemma Powers()
    ensures Pow256(0) == 1 && Pow256(1) == 0x100 && Pow256(2) == 0x1_0000 && Pow256(3) == 0x100_0000
    ensures Pow256(4) == 0x1_0000_0000 && Pow256(5) == 0x100_0000_0000
    ensures Pow256(6) == 0x1_0000_0000_0000 && Pow256(7) == 0x100_0000_0000_0000
  {
    assert Pow256(2) == 256 * Pow256(1) && Pow256(3) == 256 * Pow256(2) && Pow256(4) == 256 * Pow256(3);
    assert Pow256(5) == 256 * Pow256(4) && Pow256(6) == 256 * Pow256(5) && Pow256(7) == 256 * Pow256(6);
  }

  /** Fixed-width numbers, the lowest byte first. */
  lemma FixedLayout(w: uint32, v: uint64)
    ensures Digits(w, 4) == [w % 256, w / 0x100 % 256, w / 0x1_0000 % 256, w / 0x100_0000]
    ensures Digits(v, 8) == [v % 256, v / 0x100 % 256, v / 0x1_0000 % 256, v / 0x100_0000 % 256,
                             v / 0x1_0000_0000 % 256, v / 0x100_0000_0000 % 256,
                             v / 0x1_0000_0000_0000 % 256, v / 0x100_0000_0000_0000]
  {
    FourDigits(w);
    Powers();
    hide Pow256;
    assert w / 0x100_0000 < 256 && v / 0x100_0000_0000_0000 < 256;
  }

  // ---- skipping ----

  /** How far each wire type is skipped; groups and lengths below. */
  lemma SkipLayout(s: seq<byte>, no: nat, k: nat)
    ensures EndsAt(s, k) ==> SkipField(s, no, 0) == Ok(k)
    ensures (forall i :: 0 <= i < |s| ==> s[i] >= 128) ==> SkipField(s, no, 0) == Ok(|s| + 1)
    ensures SkipField(s, no, 1) == if |s| >= 8 then Ok(8) else Throws
    ensures SkipField(s, no, 4) == Throws
    ensures SkipField(s, no, 5) == if |s| >= 4 then Ok(4) else Throws
    ensures SkipField(s, no, 3) == SkipGroup(s, no)
  {
    hide SkipGroup;
    if EndsAt(s, k) {
      WidthIs(s, k);
    }
  }

  /** A length, however it is encoded: negative, too long for the input, or the bytes behind it. */
  lemma SkipsAnyLength(s: seq<byte>, no: nat, k: nat)
    requires EndsAt(s, k) && k <= 10
    ensures var n := Read32(s).value.0;
            SkipField(s, no, 2) == if n < 0 then Backward else if k + n > |s| then Throws else Ok(k + n)
  {
    ReadLayout(s, k);
    hide Read32, SevenBits;
  }

  lemma SkipsLength(b: seq<byte>, no: nat, rest: seq<byte>)
    requires |b| < 0x1_0000_0000
    ensures SkipField(Encode(|b|) + b + rest, no, 2) == Ok(|Encode(|b|)| + |b|)
  {
    hide Encode, SkipField;
    SkipsPrefixed(b, no, rest);
    assert Encode(|b|) + b + rest == Prefixed(b) + rest;
  }

  /** A group ends at the header 8 * no + 4; another end tag or the end of the input throws. */
  lemma SkipGroupEnds(no: nat, other: nat, rest: seq<byte>)
    requires no < 0x2000_0000 && other < 0x2000_0000
    ensures SkipGroup(Encode(8 * other + 4) + rest, no) == if other == no then Ok(|Encode(8 * no + 4)|) else Throws
    ensures SkipGroup([], no) == Throws
  {
    hide Encode, NextField, SkipField;
    HeaderLayout(other, 4, rest);
  }

  // ---- the parse ----

  lemma ParseThrows(schema: Schema, s: seq<byte>, m: seq<Value>)
    requires |m| == |schema| && s != [] && NextField(s) == Throws
    ensures ParseFrom(schema, s, m) == Throws
  {
    hide NextField;
  }

  lemma ParseEnds(schema: Schema, s: seq<byte>, h: Header, m: seq<Value>)
    requires |m| == |schema| && NextField(s) == Ok(h) && h.wire == 4
    ensures ParseFrom(schema, s, m) == Ok((m, s[h.size..]))
  {
    hide NextField, SkipField, ReadValue;
  }

  lemma ParseReads(schema: Schema, s: seq<byte>, h: Header, m: seq<Value>)
    requires |m| == |schema| && NextField(s) == Ok(h) && h.wire != 4 && 1 <= h.no <= |schema|
    ensures var rest := s[h.size..];
            ParseFrom(schema, s, m) ==
            match ReadValue(schema[h.no - 1], h.wire, rest)
            case Ok((v, k)) => if k > |rest| then Throws else ParseFrom(schema, rest[k..], m[h.no - 1 := v])
            case _ => Throws
  {
    hide NextField, SkipField, ReadValue;
  }

  lemma ParseSkips(schema: Schema, s: seq<byte>, h: Header, m: seq<Value>)
    requires |m| == |schema| && NextField(s) == Ok(h) && h.wire != 4 && !(1 <= h.no <= |schema|)
    ensures var rest := s[h.size..];
            ParseFrom(schema, s, m) ==
            match SkipField(rest, h.no, h.wire)
            case Ok(k) => if k > |rest| then Throws else ParseFrom(schema, rest[k..], m)
            case Throws => Throws
            case Backward => Backward
  {
    hide NextField, SkipField, ReadValue;
  }

  /** One turn of the message loop, by the header's low three bits and the field number. */
  lemma ParseTurn(schema: Schema, no: nat, wire: nat, rest: seq<byte>, m: seq<Value>)
    requires |m| == |schema| && no < 0x2000_0000 && wire < 8
    ensures ParseFrom(schema, Encode(8 * no + wire) + rest, m) ==
            if wire >= 6 then Throws
            else if wire == 4 then Ok((m, rest))
            else if 1 <= no <= |schema| then
              match ReadValue(schema[no - 1], wire, rest)
              case Ok((v, k)) => if k > |rest| then Throws else ParseFrom(schema, rest[k..], m[no - 1 := v])
              case _ => Throws
            else
              match SkipField(rest, no, wire)
              case Ok(k) => if k > |rest| then Throws else ParseFrom(schema, rest[k..], m)
              case Throws => Throws
              case Backward => Backward
  {
    hide Encode, NextField, SkipField, ReadValue, ParseFrom;
    HeaderLayout(no, wire, rest);
    var tag := Encode(8 * no + wire);
    var s := tag + rest;
    assert s[|tag|..] == rest;
    if wire >= 6 {
      ParseThrows(schema, s, m);
    } else if wire == 4 {
      ParseEnds(schema, s, Header(no, wire, |tag|), m);
    } else if 1 <= no <= |schema| {
      ParseReads(schema, s, Header(no, wire, |tag|), m);
    } else {
      ParseSkips(schema, s, Header(no, wire, |tag|), m);
    }
  }

  /** A field is read only under its own wire type. */
  lemma WireTypeOfKind(kind: Kind, wire: nat, s: seq<byte>)
    ensures wire != (if kind.EnumKind? || kind.Uint32Kind? then 0 else 2) ==> ReadValue(kind, wire, s) == Throws
  {
  }

  lemma SignedOf64(u: uint64)
    ensures Of(u).Signed() == if u < 0x8000_0000_0000_0000 then u else u - 0x1_0000_0000_0000_0000
  {
  }

  /** A 64-bit number is read as an enum in two's complement. */
  lemma EnumLayout(s: seq<byte>, k: nat)
    requires EndsAt(s, k) && k <= 10
    ensures var u := SevenBits(s, k) % 0x1_0000_0000_0000_0000;
            ReadValue(EnumKind, 0, s) ==
            Ok((Num(if u < 0x8000_0000_0000_0000 then u else u - 0x1_0000_0000_0000_0000), k))
  {
    ReadLayout(s, k);
    hide Read64, SevenBits;
    var u := SevenBits(s, k) % 0x1_0000_0000_0000_0000;
    SignedOf64(u);
    assert Read64(s) == Ok((u, k));
  }

  /** What the other kinds make of the number in front and of the bytes behind it. */
  lemma LengthLayout(s: seq<byte>)
    ensures ReadValue(Uint32Kind, 0, s) ==
            if Read32(s).Ok? then Ok((Num(Read32(s).value.0), Read32(s).value.1)) else Throws
    ensures Read32(s).Throws? ==> ReadValue(StringKind, 2, s) == ReadValue(BytesKind, 2, s) == Throws
    ensures Read32(s).Ok? ==>
              var (n, k) := Read32(s).value;
              var (units, used) := ReadUnits(s[k..], n);
              && ReadValue(StringKind, 2, s) == Ok((Str(units), k + used))
              && ReadValue(BytesKind, 2, s) == if n < 0 || k + n > |s| then Throws else Ok((Raw(s[k..k + n]), k + n))
  {
    hide Read32, ReadUnits;
  }

  /** An unknown field that is skipped to its end changes nothing. */
  lemma PassesOver(schema: Schema, no: nat, wire: nat, b: seq<byte>, rest: seq<byte>, m: seq<Value>)
    requires |m| == |schema| && no < 0x2000_0000 && !(1 <= no <= |schema|) && wire in [0, 1, 2, 3, 5]
    requires SkipField(b + rest, no, wire) == Ok(|b|)
    ensures ParseFrom(schema, Encode(8 * no + wire) + (b + rest), m) == ParseFrom(schema, rest, m)
  {
    hide Encode, SkipField, ReadValue, ParseFrom;
    assert (b + rest)[|b|..] == rest;
    ParseTurn(schema, no, wire, b + rest, m);
  }

  lemma SkipsVarint(b: seq<byte>, no: nat, rest: seq<byte>)
    requires EndsAt(b, |b|)
    ensures SkipField(b + rest, no, 0) == Ok(|b|)
  {
    assert EndsAt(b + rest, |b|);
    SkipLayout(b + rest, no, |b|);
  }

  lemma UnknownVarint(schema: Schema, no: nat, b: seq<byte>, rest: seq<byte>, m: seq<Value>)
    requires |m| == |schema| && no < 0x2000_0000 && !(1 <= no <= |schema|) && EndsAt(b, |b|)
    ensures ParseFrom(schema, Encode(8 * no) + (b + rest), m) == ParseFrom(schema, rest, m)
  {
    hide Encode, SkipField, ParseFrom, EndsAt;
    SkipsVarint(b, no, rest);
    PassesOver(schema, no, 0, b, rest, m);
  }

  lemma UnknownFixed(schema: Schema, no: nat, b: seq<byte>, rest: seq<byte>, m: seq<Value>)
    requires |m| == |schema| && no < 0x2000_0000 && !(1 <= no <= |schema|) && (|b| == 8 || |b| == 4)
    ensures ParseFrom(schema, Encode(8 * no + if |b| == 8 then 1 else 5) + (b + rest), m) == ParseFrom(schema, rest, m)
  {
    hide Encode, SkipField, ParseFrom, EndsAt;
    SkipLayout(b + rest, no, 1);
    PassesOver(schema, no, if |b| == 8 then 1 else 5, b, rest, m);
  }

  lemma UnknownDelimited(schema: Schema, no: nat, b: seq<byte>, rest: seq<byte>, m: seq<Value>)
    requires |m| == |schema| && no < 0x2000_0000 && !(1 <= no <= |schema|) && |b| < 0x1_0000_0000
    ensures ParseFrom(schema, Encode(8 * no + 2) + (Encode(|b|) + b + rest), m) == ParseFrom(schema, rest, m)
  {
    hide Encode, SkipField, ParseFrom;
    SkipsLength(b, no, rest);
    PassesOver(schema, no, 2, Encode(|b|) + b, rest, m);
  }

  /** Unknown fields of each simple wire type, with any bytes inside. */
  lemma UnknownLayout(schema: Schema, no: nat, b: seq<byte>, rest: seq<byte>, m: seq<Value>)
    requires |m| == |schema| && no < 0x2000_0000 && !(1 <= no <= |schema|)
    ensures EndsAt(b, |b|) ==> ParseFrom(schema, Encode(8 * no) + (b + rest), m) == ParseFrom(schema, rest, m)
    ensures |b| == 8 ==> ParseFrom(schema, Encode(8 * no + 1) + (b + rest), m) == ParseFrom(schema, rest, m)
    ensures |b| < 0x1_0000_0000 ==>
              ParseFrom(schema, Encode(8 * no + 2) + (Encode(|b|) + b + rest), m) == ParseFrom(schema, rest, m)
    ensures |b| == 4 ==> ParseFrom(schema, Encode(8 * no + 5) + (b + rest), m) == ParseFrom(schema, rest, m)
  {
    hide Encode, ParseFrom, EndsAt;
    if EndsAt(b, |b|) {
      UnknownVarint(schema, no, b, rest, m);
    }
    if |b| == 8 || |b| == 4 {
      UnknownFixed(schema, no, b, rest, m);
    }
    if |b| < 0x1_0000_0000 {
      UnknownDelimited(schema, no, b, rest, m);
    }
  }

  /** An unknown varint that the input cuts off ends the parse with an exception. */
  lemma CutOffVarint(schema: Schema, no: nat, b: seq<byte>, m: seq<Value>)
    requires |m| == |schema| && no < 0x2000_0000 && !(1 <= no <= |schema|)
    requires forall i :: 0 <= i < |b| ==> b[i] >= 128
    ensures ParseFrom(schema, Encode(8 * no) + b, m) == Throws
  {
    hide Encode, SkipField, ReadValue, ParseFrom;
    SkipLayout(b, no, 1);
    ParseTurn(schema, no, 0, b, m);
  }

  /** An unknown group, whatever fields it holds. */
  lemma UnknownGroupLayout(schema: Schema, no: nat, kids: seq<Field>, rest: seq<byte>, m: seq<Value>)
    requires |m| == |schema| && |schema| < no < 0x2000_0000 && AllValid(kids)
    ensures ParseFrom(schema, Encode(8 * no + 3) + (SerializeAll(kids) + (Encode(8 * no + 4) + rest)), m) ==
            ParseFrom(schema, rest, m)
  {
    hide Encode, SkipField, SkipGroup, ParseFrom, AllValid;
    var s, end := SerializeAll(kids), Encode(8 * no + 4);
    SkipsGroup(kids, no, rest);
    assert s + (end + rest) == s + end + rest;
    SkipLayout(s + end + rest, no, 1);
    PassesOver(schema, no, 3, s + end, rest, m);
  }

  // ---- the two messages ----

  /** A length and as many bytes behind a header byte. */
  function Block(header: byte, b: seq<byte>): seq<byte> {
    [header] + (Encode(|b|) + b)
  }

  /** A string that is not empty, as its UTF-8 bytes. */
  function TextBlock(header: byte, s: seq<uint16>): seq<byte> {
    if s == [] then [] else Block(header, WriteUnits(s))
  }

  /** A message: `cmd` under 08, `from` 12, `to` 1A, `groupid` 22 and `content` 2A; empty ones are left out. */
  function ModelLayout(cmd: int32, from: seq<uint16>, to: seq<uint16>, groupid: seq<uint16>, content: seq<byte>)
      : seq<byte>
  {
    (if cmd == 0 then [] else [0x08] + EncodeSigned(cmd))
    + TextBlock(0x12, from)
    + TextBlock(0x1A, to)
    + TextBlock(0x22, groupid)
    + (if content == [] then [] else Block(0x2A, content))
  }

  /** A body: `title` under 0A, `content` 12, `time` 1A, `kind` 20 and `extend` 2A. */
  function BodyLayout(title: seq<uint16>, content: seq<uint16>, time: seq<uint16>, kind: uint32, extend: seq<uint16>)
      : seq<byte>
  {
    TextBlock(0x0A, title)
    + TextBlock(0x12, content)
    + TextBlock(0x1A, time)
    + (if kind == 0 then [] else [0x20] + Encode(kind))
    + TextBlock(0x2A, extend)
  }

  lemma OneByteHeader(n: nat)
    requires n < 128
    ensures Encode(n) == [n]
  {
  }

  lemma BlockPart(kind: Kind, no: nat, v: Value)
    requires Fits(kind, v) && (kind.StringKind? || kind.BytesKind?) && no < 16
    ensures Part(kind, no, v) ==
            if v == Str([]) || v == Raw([]) then [] else Block(8 * no + 2, if v.Str? then WriteUnits(v.s) else v.b)
  {
    hide Encode, WriteUnits;
    OneByteHeader(8 * no + 2);
  }

  lemma NumberPart(kind: Kind, no: nat, v: Value)
    requires Fits(kind, v) && (kind.EnumKind? || kind.Uint32Kind?) && no < 16
    ensures Part(kind, no, v) ==
            if v.n == 0 then [] else [8 * no] + if kind.EnumKind? then EncodeSigned(v.n) else Encode(v.n)
  {
    hide Encode, EncodeSigned;
    OneByteHeader(8 * no);
  }

  lemma NothingBefore(s: seq<byte>)
    ensures [] + s == s
  {
  }

  lemma TextPart(no: nat, s: seq<uint16>)
    requires Fits(StringKind, Str(s)) && no < 16
    ensures Part(StringKind, no, Str(s)) == TextBlock(8 * no + 2, s)
  {
    hide Part, Block, WriteUnits;
    BlockPart(StringKind, no, Str(s));
  }

  lemma ModelBytesLayout(cmd: int32, from: seq<uint16>, to: seq<uint16>, groupid: seq<uint16>, content: seq<byte>)
    requires IsMessage(MODEL, [Num(cmd), Str(from), Str(to), Str(groupid), Raw(content)])
    ensures MessageBytes(MODEL, [Num(cmd), Str(from), Str(to), Str(groupid), Raw(content)]) ==
            ModelLayout(cmd, from, to, groupid, content)
  {
    var m := [Num(cmd), Str(from), Str(to), Str(groupid), Raw(content)];
    assert Fits(MODEL[0], m[0]) && Fits(MODEL[1], m[1]) && Fits(MODEL[2], m[2]);
    assert Fits(MODEL[3], m[3]) && Fits(MODEL[4], m[4]);
    FiveParts(MODEL, m);
    hide MessageBytes, Fits, Part, Block, TextBlock, WriteUnits, EncodeSigned, IsMessage;
    NumberPart(EnumKind, 1, Num(cmd));
    TextPart(2, from);
    TextPart(3, to);
    TextPart(4, groupid);
    BlockPart(BytesKind, 5, Raw(content));
    NothingBefore(Part(EnumKind, 1, Num(cmd)));
  }

  lemma BodyBytesLayout(title: seq<uint16>, content: seq<uint16>, time: seq<uint16>, kind: uint32, extend: seq<uint16>)
    requires IsMessage(BODY, [Str(title), Str(content), Str(time), Num(kind), Str(extend)])
    ensures MessageBytes(BODY, [Str(title), Str(content), Str(time), Num(kind), Str(extend)]) ==
            BodyLayout(title, content, time, kind, extend)
  {
    var m := [Str(title), Str(content), Str(time), Num(kind), Str(extend)];
    assert Fits(BODY[0], m[0]) && Fits(BODY[1], m[1]) && Fits(BODY[2], m[2]);
    assert Fits(BODY[3], m[3]) && Fits(BODY[4], m[4]);
    FiveParts(BODY, m);
    hide MessageBytes, Fits, Part, Block, TextBlock, WriteUnits, Encode, IsMessage;
    TextPart(1, title);
    TextPart(2, content);
    TextPart(3, time);
    NumberPart(Uint32Kind, 4, Num(kind));
    TextPart(5, extend);
    NothingBefore(Part(StringKind, 1, Str(title)));
  }

  /** The class writes its own fields, each under its number. */
  lemma ModelWrites(x: Model)
    requires IsMessage(MODEL, x.Values())
    ensures -0x8000_0000 <= x.cmd < 0x8000_0000
    ensures MessageBytes(MODEL, x.Values()) == ModelLayout(x.cmd, x.from, x.to, x.groupid, x.content)
  {
    hide MessageBytes, ModelLayout;
    var m := x.Values();
    assert Fits(MODEL[0], m[0]);
    ModelBytesLayout(x.cmd, x.from, x.to, x.groupid, x.content);
  }

  lemma BodyWrites(x: MessageBody)
    requires IsMessage(BODY, x.Values())
    ensures 0 <= x.kind < 0x1_0000_0000
    ensures MessageBytes(BODY, x.Values()) == BodyLayout(x.title, x.content, x.time, x.kind, x.extend)
  {
    hide MessageBytes, BodyLayout;
    var m := x.Values();
    assert Fits(BODY[3], m[3]);
    BodyBytesLayout(x.title, x.content, x.time, x.kind, x.extend);
  }

  /** Each field of a parsed message is the value of its number. */
  lemma FieldsByNumber(x: Model, y: MessageBody)
    ensures Num(x.cmd) == x.Values()[0] && Str(x.from) == x.Values()[1] && Str(x.to) == x.Values()[2]
    ensures Str(x.groupid) == x.Values()[3] && Raw(x.content) == x.Values()[4]
    ensures Str(y.title) == y.Values()[0] && Str(y.content) == y.Values()[1] && Str(y.time) == y.Values()[2]
    ensures Num(y.kind) == y.Values()[3] && Str(y.extend) == y.Values()[4]
  {
  }

  const TO_B: seq<Value> := [Num(0), Str([]), Str([0x62]), Str([]), Raw([])]

  lemma OneLetter()
    ensures WriteUnits([0x62]) == [0x62] && WriteUnits([]) == []
  {
    assert [0x62][1..] == [];
  }

  lemma MessageToB()
    ensures IsMessage(MODEL, TO_B)
  {
    OneLetter();
    hide WriteUnits;
  }

  lemma MessageToBIsWellFormed()
    ensures NothingDropped(TO_B)
  {
  }

  lemma BytesToB()
    requires IsMessage(MODEL, TO_B)
    ensures MessageBytes(MODEL, TO_B) == [0x1A, 1, 0x62]
  {
    assert Encode(1) == [1];
    OneLetter();
    hide Encode, WriteUnits, MessageBytes, IsMessage;
    ModelBytesLayout(0, [], [0x62], [], []);
  }

  lemma ParsesToB()
    ensures ParseFrom(MODEL, [0x1A, 1, 0x62], Defaults(MODEL)) == Ok((TO_B, []))
  {
    MessageToB();
    MessageToBIsWellFormed();
    BytesToB();
    hide ParseFrom, Defaults, MessageBytes, IsMessage, NothingDropped;
    RoundTripIff(MODEL, TO_B);
  }

  lemma SkipsField6(rest: seq<byte>, m: seq<Value>)
    requires |m| == |MODEL|
    ensures ParseFrom(MODEL, [0x35, 1, 2, 3, 4] + rest, m) == ParseFrom(MODEL, rest, m)
  {
    OneByteHeader(53);
    assert [0x35, 1, 2, 3, 4] + rest == [53] + ([1, 2, 3, 4] + rest);
    hide Encode, ParseFrom;
    UnknownLayout(MODEL, 6, [1, 2, 3, 4], rest, m);
  }

  /** For instance: an unknown fixed32 field 6 before the recipient "b". */
  lemma Fixed32BeforeRecipient()
    ensures ParseFrom(MODEL, [0x35, 1, 2, 3, 4, 0x1A, 1, 0x62], Defaults(MODEL)) == Ok((TO_B, []))
  {
    hide ParseFrom, Defaults;
    SkipsField6([0x1A, 1, 0x62], Defaults(MODEL));
    ParsesToB();
    assert [0x35, 1, 2, 3, 4] + [0x1A, 1, 0x62] == [0x35, 1, 2, 3, 4, 0x1A, 1, 0x62];
  }

  // ---- the server ----

  /** The server's message, with Java's UTF-8 under the same headers. */
  function ServerLayout(cmd: int32, from: seq<byte>, to: seq<byte>, groupId: seq<byte>, content: seq<byte>): seq<byte> {
    (if cmd == 0 then [] else [0x08] + EncodeSigned(cmd))
    + (if from == [] then [] else Block(0x12, from))
    + (if to == [] then [] else Block(0x1A, to))
    + (if groupId == [] then [] else Block(0x22, groupId))
    + (if content == [] then [] else Block(0x2A, content))
  }

  lemma JavaBlock(i: nat, v: Value)
    requires 1 <= i < 5 && JavaFits(v, i)
    ensures var b := if v.Str? then JavaUtf8(v.s) else v.b;
            JavaPart(i, v) == if b == [] then [] else Block(8 * i + 10, b)
  {
    hide Encode, JavaUtf8;
    OneByteHeader(8 * i + 10);
  }

  lemma ServerWrites(x: ServerModel)
    requires IsServerMessage(x.Values())
    ensures -0x8000_0000 <= x.cmd < 0x8000_0000
    ensures JavaBytes(x.Values()) ==
            ServerLayout(x.cmd, JavaUtf8(x.from), JavaUtf8(x.to), JavaUtf8(x.groupId), x.content)
  {
    var m := x.Values();
    assert JavaFits(m[0], 0) && JavaFits(m[1], 1) && JavaFits(m[2], 2) && JavaFits(m[3], 3) && JavaFits(m[4], 4);
    OneByteHeader(8);
    assert JavaPart(0, m[0]) == if x.cmd == 0 then [] else [0x08] + EncodeSigned(x.cmd);
    hide JavaFits, JavaPart, JavaUtf8, Block, EncodeSigned, IsServerMessage;
    JavaBlock(1, m[1]);
    JavaBlock(2, m[2]);
    JavaBlock(3, m[3]);
    JavaBlock(4, m[4]);
  }

  lemma LowOf64(n: nat)
    ensures n % 0x1_0000_0000_0000_0000 % 0x1_0000_0000 == n % 0x1_0000_0000
  {
    var q := n / 0x1_0000_0000_0000_0000;
    var r := n % 0x1_0000_0000_0000_0000;
    DivModUnique(n, q * 0x1_0000_0000 + r / 0x1_0000_0000, 0x1_0000_0000, r % 0x1_0000_0000);
  }

  /** Java's reading of a varint: ten bytes at most, the low 32 bits as a signed number. */
  lemma ServerReads(s: seq<byte>, k: nat)
    requires EndsAt(s, k)
    ensures var u := SevenBits(s, k) % 0x1_0000_0000;
            Raw32(s) == if k > 10 then None else Some((if u < 0x8000_0000 then u else u - 0x1_0000_0000, k))
  {
    ReadLayout(s, k);
    hide Read64, SevenBits;
    if k <= 10 {
      LowOf64(SevenBits(s, k));
    }
  }

  /**
   * One turn of the server's loop by the tag in front: 08, 12, 1A, 22 and 2A set their fields,
   * field number 0 and the end of a group are exceptions, and the rest is unknown.
   */
  lemma ServerTurn(unknown: (int, seq<byte>) -> Option<nat>, s: seq<byte>, tag: int, k: nat, m: seq<Value>)
    requires Raw32(s) == Some((tag, k)) && |m| == 5
    ensures var rest, turn := s[k..], Turn(unknown, s, m);
            && (tag == 0x08 && Raw32(rest).None? ==> turn == None)
            && (tag == 0x08 && Raw32(rest).Some? ==>
                  turn == Some((m[0 := Num(Raw32(rest).value.0)], k + Raw32(rest).value.1)))
            && (tag in [0x12, 0x1A, 0x22] && RawString(rest).None? ==> turn == None)
            && (tag in [0x12, 0x1A, 0x22] && RawString(rest).Some? ==>
                  turn == Some((m[tag / 8 - 1 := Str(RawString(rest).value.0)], k + RawString(rest).value.1)))
            && (tag == 0x2A && RawBytes(rest).None? ==> turn == None)
            && (tag == 0x2A && RawBytes(rest).Some? ==>
                  turn == Some((m[4 := Raw(RawBytes(rest).value.0)], k + RawBytes(rest).value.1)))
            && (0 <= tag < 8 || tag % 8 == 4 ==> turn == None)
            && (!(0 <= tag < 8) && tag % 8 != 4 && tag !in [0x08, 0x12, 0x1A, 0x22, 0x2A] ==>
                  match unknown(tag, rest)
                  case None => turn == None
                  case Some(j) => turn == if j > |rest| then None else Some((m, k + j)))
  {
    hide Raw32, RawString, RawBytes;
  }

  /** A string is taken if and only if its length fits and its bytes are valid UTF-8. */
  lemma ServerReadsString(s: seq<byte>, n: int, k: nat)
    requires Raw32(s) == Some((n, k))
    ensures RawBytes(s) == if n < 0 || k + n > |s| then None else Some((s[k..k + n], k + n))
    ensures RawString(s) ==
            if n < 0 || k + n > |s| || !IsUtf8(s[k..k + n]) then None else Some((Slice(s[k..k + n]), k + n))
  {
    hide Raw32, Slice, ToBytes, IsUtf8;
    if 0 <= n <= |s| - k {
      ToBytesUndoesSlice(s[k..k + n]);
    }
  }
}
