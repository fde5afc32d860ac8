/**
 * The wire format of "Message Structure" in the Protocol Buffers encoding: trees
 * of fields, their bytes, and what `nextField`, `skipField` and `skipGroup` make
 * of any input.
 */
module Wire {
  import opened JsNumbers
  import opened Outcomes
  import opened Varints
  import opened StringCodecs
  import opened LittleEndians

  const VARINT: nat := 0
  const FIXED64: nat := 1
  const DELIMITED: nat := 2
  const START_GROUP: nat := 3
  const END_GROUP: nat := 4
  const FIXED32: nat := 5

  datatype Field =
    | Varint(no: nat, v: uint64)
    | Fixed64(no: nat, v: uint64)
    | Fixed32(no: nat, w: uint32)
    | Text(no: nat, s: seq<uint16>)
    | Bytes(no: nat, b: seq<byte>)
    | Message(no: nat, kids: seq<Field>)
    | Group(no: nat, kids: seq<Field>)

  function Tag(no: nat, wire: nat): (s: seq<byte>)
    ensures |s| >= 1
  {
    Encode(8 * no + wire)
  }

  /** A length prefix and what it counts. */
  function Prefixed(b: seq<byte>): seq<byte> {
    Encode(|b|) + b
  }

  function WireType(f: Field): nat {
    match f
    case Varint(_, _) => VARINT
    case Fixed64(_, _) => FIXED64
    case Fixed32(_, _) => FIXED32
    case Text(_, _) => DELIMITED
    case Bytes(_, _) => DELIMITED
    case Message(_, _) => DELIMITED
    case Group(_, _) => START_GROUP
  }

  /** The bytes of a field after its tag. */
  function Payload(f: Field): seq<byte>
    decreases f, 0
  {
    match f
    case Varint(_, v) => Encode(v)
    case Fixed64(_, v) => Digits(v, 8)
    case Fixed32(_, w) => Digits(w, 4)
    case Text(_, s) => Prefixed(WriteUnits(s))
    case Bytes(_, b) => Prefixed(b)
    case Message(_, kids) => Prefixed(SerializeAll(kids))
    case Group(no, kids) => SerializeAll(kids) + Tag(no, END_GROUP)
  }

  /** The recursive serializer. */
  function Serialize(f: Field): seq<byte>
    decreases f, 1
  {
    Tag(f.no, WireType(f)) + Payload(f)
  }

  function SerializeAll(fs: seq<Field>): seq<byte>
    decreases fs
  {
    if fs == [] then [] else Serialize(fs[0]) + SerializeAll(fs[1..])
  }

  /** Field numbers and lengths that fit the format: tags and lengths below 2^32. */
  predicate Valid(f: Field)
    decreases f, 0
  {
    1 <= f.no < 0x2000_0000 &&
    match f
    case Text(_, s) => |WriteUnits(s)| < 0x1_0000_0000
    case Bytes(_, b) => |b| < 0x1_0000_0000
    case Message(_, kids) => |SerializeAll(kids)| < 0x1_0000_0000 && AllValid(kids)
    case Group(_, kids) => AllValid(kids)
    case _ => true
  }

  predicate AllValid(fs: seq<Field>)
    decreases fs
  {
    fs == [] || (Valid(fs[0]) && AllValid(fs[1..]))
  }

  // ---- reading ----

  datatype Header = Header(no: nat, wire: nat, size: nat)

  /** `nextField` on a non-empty rest: the tag, or an exception on a bad wire type. */
  function NextField(s: seq<byte>): (r: Outcome<Header>)
    ensures !r.Backward?
    ensures r.Ok? ==> 1 <= r.value.size <= |s| && r.value.wire < 6
  {
    var (a, k) :- Read32(s);
    var wire := a % 8;
    if wire >= 6 then Throws else Ok(Header(ToUint32(a) / 8, wire, k))
  }

  /** `skipVarint` runs one byte past the end when the varint is cut off. */
  function SkipVarint(s: seq<byte>): nat {
    match Width(s)
    case None => |s| + 1
    case Some(w) => w
  }

  /** How far `skipField` moves the cursor after a tag. */
  function SkipField(s: seq<byte>, no: nat, wire: nat): Outcome<nat>
    decreases |s|, 1
  {
    if wire == VARINT then Ok(SkipVarint(s))
    else if wire == FIXED64 then if |s| < 8 then Throws else Ok(8)
    else if wire == FIXED32 then if |s| < 4 then Throws else Ok(4)
    else if wire == DELIMITED then
      var (n, k) :- Read32(s);
      if n < 0 then Backward else if k + n > |s| then Throws else Ok(k + n)
    else if wire == START_GROUP then SkipGroup(s, no)
    else Throws
  }

  function SkipGroup(s: seq<byte>, no: nat): Outcome<nat>
    decreases |s|, 0
  {
    if s == [] then Throws
    else
      var h :- NextField(s);
      if h.wire == END_GROUP then if h.no != no then Throws else Ok(h.size)
      else
        var k :- SkipField(s[h.size..], h.no, h.wire);
        if h.size + k > |s| then Throws
        else var m :- SkipGroup(s[h.size + k..], no); Ok(h.size + k + m)
  }

  /** A count of bytes after `k` bytes already consumed. */
  function Later(k: nat, r: Outcome<nat>): Outcome<nat> {
    if r.Ok? then Ok(k + r.value) else r
  }

  lemma ReadsTag(no: nat, wire: nat, rest: seq<byte>)
    requires no < 0x2000_0000 && wire < 6
    ensures NextField(Tag(no, wire) + rest) == Ok(Header(no, wire, |Tag(no, wire)|))
  {
    hide Read32, Encode, ToUint32;
    ReadsBack32(8 * no + wire, rest);
    TagParts(no, wire);
  }

  lemma TagParts(no: nat, wire: nat)
    requires no < 0x2000_0000 && wire < 6
    ensures (8 * no + wire) % 8 == wire && ToUint32(8 * no + wire) / 8 == no
  {
  }

  /** `skipField` consumes exactly the payload of a well-formed field, however nested. */
  lemma {:induction false} SkipsField(f: Field, rest: seq<byte>)
    requires Valid(f)
    ensures SkipField(Payload(f) + rest, f.no, WireType(f)) == Ok(|Payload(f)|)
    decreases f, 1
  {
    hide SkipField, SkipGroup;
    match f
    case Varint(_, v) => SkipsVarint(v, f.no, rest);
    case Fixed64(_, v) => SkipsFixed(Digits(v, 8) + rest, f.no);
    case Fixed32(_, w) => SkipsFixed(Digits(w, 4) + rest, f.no);
    case Text(_, s) => SkipsPrefixed(WriteUnits(s), f.no, rest);
    case Bytes(_, b) => SkipsPrefixed(b, f.no, rest);
    case Message(_, kids) => SkipsPrefixed(SerializeAll(kids), f.no, rest);
    case Group(no, kids) =>
      SkipsGroup(kids, no, rest);
      assert Payload(f) + rest == SerializeAll(kids) + (Tag(no, END_GROUP) + rest);
      GroupIsSkipped(Payload(f) + rest, no);
  }

  lemma SkipsVarint(v: nat, no: nat, rest: seq<byte>)
    ensures SkipField(Encode(v) + rest, no, VARINT) == Ok(|Encode(v)|)
  {
    WidthOfEncode(v, rest);
  }

  lemma SkipsFixed(s: seq<byte>, no: nat)
    ensures |s| >= 8 ==> SkipField(s, no, FIXED64) == Ok(8)
    ensures |s| >= 4 ==> SkipField(s, no, FIXED32) == Ok(4)
  {
  }

  lemma SkipsPrefixed(b: seq<byte>, no: nat, rest: seq<byte>)
    requires |b| < 0x1_0000_0000
    ensures SkipField(Prefixed(b) + rest, no, DELIMITED) == Ok(|Prefixed(b)|)
  {
    ReadsBack32(|b|, b + rest);
    assert Prefixed(b) + rest == Encode(|b|) + (b + rest);
  }

  lemma GroupIsSkipped(s: seq<byte>, no: nat)
    ensures SkipField(s, no, START_GROUP) == SkipGroup(s, no)
  {
    hide SkipGroup;
  }

  /** `skipGroup` runs to the matching end tag and no further. */
  lemma {:induction false} SkipsGroup(fs: seq<Field>, no: nat, rest: seq<byte>)
    requires AllValid(fs) && no < 0x2000_0000
    ensures SkipGroup(SerializeAll(fs) + (Tag(no, END_GROUP) + rest), no) ==
            Ok(|SerializeAll(fs)| + |Tag(no, END_GROUP)|)
    decreases fs
  {
    hide NextField, Tag, SkipField, SkipGroup, Payload;
    var tail := Tag(no, END_GROUP) + rest;
    var s := SerializeAll(fs) + tail;
    if fs == [] {
      assert s == tail;
      ReadsTag(no, END_GROUP, rest);
      GroupEnds(s, no);
    } else {
      var f, more := fs[0], SerializeAll(fs[1..]) + tail;
      var tag, payload := Tag(f.no, WireType(f)), Payload(f);
      SkipsField(f, more);
      SkipsGroup(fs[1..], no, rest);
      ReadsTag(f.no, WireType(f), payload + more);
      assert SerializeAll(fs) == (tag + payload) + SerializeAll(fs[1..]);
      assert s == tag + (payload + more);
      assert s[|tag|..] == payload + more && s[|tag| + |payload|..] == more;
      GroupStep(s, no);
    }
  }

  lemma GroupEnds(s: seq<byte>, no: nat)
    requires s != [] && NextField(s).Ok? && NextField(s).value.wire == END_GROUP && NextField(s).value.no == no
    ensures SkipGroup(s, no) == Ok(NextField(s).value.size)
  {
    hide NextField, SkipField;
  }

  lemma GroupStep(s: seq<byte>, no: nat)
    requires s != [] && NextField(s).Ok? && NextField(s).value.wire != END_GROUP
    requires var h := NextField(s).value;
             var skip := SkipField(s[h.size..], h.no, h.wire);
             skip.Ok? && h.size + skip.value <= |s| && SkipGroup(s[h.size + skip.value..], no).Ok?
    ensures var h := NextField(s).value;
            var k := h.size + SkipField(s[h.size..], h.no, h.wire).value;
            SkipGroup(s, no) == Ok(k + SkipGroup(s[k..], no).value)
  {
    hide NextField, SkipField;
  }

  // ---- what follows does not matter ----

  lemma NextFieldTheSame(s: seq<byte>, t: seq<byte>)
    requires NextField(s).Ok?
    ensures NextField(s + t) == NextField(s)
  {
    hide Read32;
    ReadsTheSame32(s, t);
  }

  /** Skipping a complete field of any encoding moves the same distance whatever follows it. */
  lemma {:induction false} SkipFieldTheSame(s: seq<byte>, t: seq<byte>, no: nat, wire: nat)
    requires SkipField(s, no, wire).Ok? && SkipField(s, no, wire).value <= |s|
    ensures SkipField(s + t, no, wire) == SkipField(s, no, wire)
    decreases |s|, 1
  {
    hide Read32, SkipGroup;
    if wire == VARINT {
      WidthTheSame(s, t);
    } else if wire == DELIMITED {
      ReadsTheSame32(s, t);
    } else if wire == START_GROUP {
      SkipGroupTheSame(s, t, no);
    }
  }

  lemma {:induction false} SkipGroupTheSame(s: seq<byte>, t: seq<byte>, no: nat)
    requires SkipGroup(s, no).Ok?
    ensures SkipGroup(s + t, no) == SkipGroup(s, no) && SkipGroup(s, no).value <= |s|
    decreases |s|, 0
  {
    hide NextField, SkipField;
    var h := NextField(s).value;
    NextFieldTheSame(s, t);
    if h.wire != END_GROUP {
      var rest := s[h.size..];
      var k := SkipField(rest, h.no, h.wire).value;
      assert (s + t)[h.size..] == rest + t;
      SkipFieldTheSame(rest, t, h.no, h.wire);
      assert (s + t)[h.size + k..] == s[h.size + k..] + t;
      SkipGroupTheSame(s[h.size + k..], t, no);
    }
  }
}
