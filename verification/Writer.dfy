/**
 * `jspb.BinaryWriter`: a list of byte blocks plus the encoder's current buffer.
 * The length of a delimited field is not known when its header is written, so the
 * block that ends with the header is kept as a bookmark: a placeholder is pushed on
 * it, and when the field is closed the placeholder is replaced, in that block, by
 * the length.
 */
module Writer {
  import opened JsNumbers
  import opened Outcomes
  import opened Varints
  import opened StringCodecs
  import opened LittleEndians
  import opened UInt64s
  import opened Encoder
  import opened Wire

  /** A JavaScript array of numbers: bytes, and at most one placeholder at the end. */
  class Block {
    var data: seq<nat>

    constructor (b: seq<nat>)
      ensures data == b
    {
      data := b;
    }
  }

  ghost function Flat(bs: seq<Block>): seq<nat>
    reads bs
  {
    if bs == [] then [] else bs[0].data + Flat(bs[1..])
  }

  lemma {:induction false} FlatConcat(a: seq<Block>, b: seq<Block>)
    ensures Flat(a + b) == Flat(a) + Flat(b)
  {
    if a == [] {
      assert a + b == b;
    } else {
      FlatConcat(a[1..], b);
      assert (a + b)[1..] == a[1..] + b && (a + b)[0] == a[0];
      assert Flat(a) == a[0].data + Flat(a[1..]);
      assert a[0].data + (Flat(a[1..]) + Flat(b)) == (a[0].data + Flat(a[1..])) + Flat(b);
    }
  }

  lemma FlatOne(b: Block)
    ensures Flat([b]) == b.data
  {
    assert [b][1..] == [];
  }

  /** `Uint8Array.set`: numbers are stored modulo 256. */
  function Uint8s(s: seq<nat>): (r: seq<byte>)
    ensures |r| == |s|
  {
    seq(|s|, i requires 0 <= i < |s| => s[i] % 256)
  }

  lemma Uint8sConcat(s: seq<nat>, t: seq<nat>)
    ensures Uint8s(s + t) == Uint8s(s) + Uint8s(t)
  {
  }

  lemma Uint8sOfBytes(b: seq<byte>)
    ensures Uint8s(b) == b
  {
  }

  lemma {:induction false} FlatPrefix(bs: seq<Block>, e: nat)
    requires e < |bs|
    ensures Flat(bs[..e + 1]) == Flat(bs[..e]) + bs[e].data
    ensures |Flat(bs[..e + 1])| <= |Flat(bs)|
  {
    assert bs[..e + 1] == bs[..e] + [bs[e]];
    FlatConcat(bs[..e], [bs[e]]);
    FlatOne(bs[e]);
    assert bs == bs[..e + 1] + bs[e + 1..];
    FlatConcat(bs[..e + 1], bs[e + 1..]);
  }

  method CopyBytes(a: array<byte>, f: seq<nat>, d: nat)
    requires d + |f| <= a.Length
    modifies a
    ensures a[..d + |f|] == old(a[..d]) + Uint8s(f)
  {
    for i := 0 to |f|
      invariant a[..d + i] == old(a[..d]) + Uint8s(f[..i])
    {
      a[d + i] := f[i] % 256;
      assert a[..d + i + 1] == a[..d + i] + [a[d + i]];
      assert Uint8s(f[..i + 1]) == Uint8s(f[..i]) + [a[d + i]];
    }
    assert f[..|f|] == f;
  }

  /** The blocks one after the other; setting behind the end of the array throws. */
  method CopyBlocks(blocks: seq<Block>, a: array<byte>) returns (r: Outcome<nat>)
    modifies a
    ensures r.Ok? <==> |Flat(blocks)| <= a.Length
    ensures r.Ok? ==> r.value == |Flat(blocks)| && a[..r.value] == Uint8s(Flat(blocks))
  {
    var d := 0;
    assert blocks[..0] == [] && Flat([]) == [];
    for e := 0 to |blocks|
      invariant d == |Flat(blocks[..e])| <= a.Length
      invariant a[..d] == Uint8s(Flat(blocks[..e]))
    {
      var f := blocks[e];
      FlatPrefix(blocks, e);
      if d + |f.data| > a.Length {
        return Throws;
      }
      CopyBytes(a, f.data, d);
      Uint8sConcat(Flat(blocks[..e]), f.data);
      d := d + |f.data|;
    }
    assert blocks[..|blocks|] == blocks;
    r := Ok(d);
  }

  lemma LowDigits(lo: uint32, hi: uint32)
    ensures var v := hi * 0x1_0000_0000 + lo;
            v % 256 == lo % 256 && v / 0x100 % 256 == lo / 0x100 % 256 &&
            v / 0x1_0000 % 256 == lo / 0x1_0000 % 256 && v / 0x100_0000 % 256 == lo / 0x100_0000 % 256
  {
    var v := hi * 0x1_0000_0000 + lo;
    DivModUnique(v, hi * 0x100_0000 + lo / 0x100, 0x100, lo % 0x100);
    DivModUnique(v, hi * 0x1_0000 + lo / 0x1_0000, 0x1_0000, lo % 0x1_0000);
    DivModUnique(v, hi * 0x100 + lo / 0x100_0000, 0x100_0000, lo % 0x100_0000);
    DivModUnique(v / 0x100, hi * 0x1_0000 + lo / 0x100 / 256, 256, lo / 0x100 % 256);
    DivModUnique(v / 0x1_0000, hi * 0x100 + lo / 0x1_0000 / 256, 256, lo / 0x1_0000 % 256);
    DivModUnique(v / 0x100_0000, hi + lo / 0x100_0000 / 256, 256, lo / 0x100_0000 % 256);
  }

  lemma HighDigits(lo: uint32, hi: uint32)
    ensures var v := hi * 0x1_0000_0000 + lo;
            v / 0x1_0000_0000 == hi && v / 0x100_0000_0000 == hi / 0x100 &&
            v / 0x1_0000_0000_0000 == hi / 0x1_0000 && v / 0x100_0000_0000_0000 == hi / 0x100_0000
  {
  }

  lemma EightDigits(lo: uint32, hi: uint32)
    ensures Digits(UInt64(lo, hi).Value(), 8) == Digits(lo, 4) + Digits(hi, 4)
  {
    FourDigits(lo);
    FourDigits(hi);
    var v: int := UInt64(lo, hi).Value();
    assert Pow256(1) == 0x100 && Pow256(2) == 0x1_0000 && Pow256(3) == 0x100_0000;
    assert Pow256(4) == 0x1_0000_0000 && Pow256(5) == 0x100_0000_0000;
    assert Pow256(6) == 256 * Pow256(5) && Pow256(7) == 256 * Pow256(6);
    LowDigits(lo, hi);
    HighDigits(lo, hi);
  }

  lemma PrefixOfBytes(flat: seq<nat>, buffer: seq<byte>, s: seq<byte>)
    requires flat + buffer == s
    ensures Uint8s(flat) + buffer == s
  {
    assert forall i :: 0 <= i < |flat| ==> flat[i] == s[i];
    assert Uint8s(flat) == s[..|flat|];
    assert buffer == s[|flat|..];
  }

  class BinaryWriter {
    var blocks: seq<Block>
    var totalLength: nat
    const encoder: BinaryEncoder
    var bookmarks: seq<Block>

    constructor ()
      ensures fresh(encoder) && encoder.buffer == []
      ensures blocks == [] && totalLength == 0 && bookmarks == []
    {
      blocks, totalLength, bookmarks := [], 0, [];
      encoder := new BinaryEncoder();
    }

    /**
     * Since the given blocks, buffer and total length, exactly the bytes `s` were
     * written: the blocks before are the same objects, and the new blocks with the
     * buffer hold the old buffer followed by `s`.
     */
    ghost predicate Wrote(blocks0: seq<Block>, buffer0: seq<byte>, total0: nat, s: seq<byte>)
      reads this, encoder, blocks
    {
      blocks0 <= blocks &&
      Flat(blocks[|blocks0|..]) + encoder.buffer == buffer0 + s &&
      totalLength + |encoder.buffer| == total0 + |buffer0| + |s|
    }

    /** Two writes in a row; the second left the first one's blocks alone. */
    lemma WroteBoth(blocks0: seq<Block>, buffer0: seq<byte>, total0: nat, s: seq<byte>,
                    blocks1: seq<Block>, buffer1: seq<byte>, total1: nat, t: seq<byte>)
      requires blocks0 <= blocks1
      requires Flat(blocks1[|blocks0|..]) + buffer1 == buffer0 + s
      requires total1 + |buffer1| == total0 + |buffer0| + |s|
      requires Wrote(blocks1, buffer1, total1, t)
      ensures Wrote(blocks0, buffer0, total0, s + t)
    {
      var first, second := blocks1[|blocks0|..], blocks[|blocks1|..];
      assert blocks[|blocks0|..] == first + second;
      FlatConcat(first, second);
      TwoPieces(Flat(first), Flat(second), encoder.buffer, buffer0, buffer1, s, t);
    }

    lemma TwoPieces(first: seq<nat>, second: seq<nat>, buffer: seq<nat>, buffer0: seq<nat>, buffer1: seq<nat>,
                    s: seq<nat>, t: seq<nat>)
      requires first + buffer1 == buffer0 + s && second + buffer == buffer1 + t
      ensures (first + second) + buffer == buffer0 + (s + t)
      ensures |first| + |second| + |buffer| == |buffer0| + |s| + |t|
    {
      assert (first + second) + buffer == first + (second + buffer);
      assert first + (buffer1 + t) == (first + buffer1) + t;
      assert (buffer0 + s) + t == buffer0 + (s + t);
    }

    method WriteFieldHeader(no: nat, wire: nat)
      requires 1 <= no < 0x2000_0000 && wire < 8
      modifies encoder
      ensures encoder.buffer == old(encoder.buffer) + Tag(no, wire)
    {
      encoder.WriteUnsignedVarint32(8 * no + wire);
    }

    method AppendUint8Array(a: seq<byte>)
      modifies this`blocks, this`totalLength, encoder
      ensures Wrote(old(blocks), old(encoder.buffer), old(totalLength), a)
      ensures forall b :: b in blocks[|old(blocks)|..] ==> fresh(b)
    {
      var b := encoder.End();
      var block := new Block(b);
      var given := new Block(a);
      blocks := blocks + [block];
      blocks := blocks + [given];
      totalLength := totalLength + |b| + |a|;
      assert blocks[|old(blocks)|..] == [block] + [given];
      FlatConcat([block], [given]);
      FlatOne(block);
      FlatOne(given);
    }

    /** The header ends a block; the total so far is pushed on that block as a placeholder. */
    method BeginDelimited(no: nat) returns (a: Block)
      requires 1 <= no < 0x2000_0000
      modifies this`blocks, this`totalLength, encoder
      ensures fresh(a) && blocks == old(blocks) + [a] && encoder.buffer == []
      ensures totalLength == old(totalLength) + |old(encoder.buffer) + Tag(no, DELIMITED)|
      ensures a.data == old(encoder.buffer) + Tag(no, DELIMITED) + [totalLength]
    {
      WriteFieldHeader(no, DELIMITED);
      var b := encoder.End();
      a := new Block(b);
      blocks := blocks + [a];
      totalLength := totalLength + |a.data|;
      a.data := a.data + [totalLength];
    }

    /** The placeholder gives way to the varint of what was written since. */
    method EndDelimited(a: Block)
      requires a.data != []
      requires 0 <= totalLength + |encoder.buffer| - a.data[|a.data| - 1] < 0x1_0000_0000
      modifies this`totalLength, a
      ensures var n := totalLength + |encoder.buffer| - old(a.data[|a.data| - 1]);
              var length := old(totalLength + |encoder.buffer| - a.data[|a.data| - 1]);
              a.data == old(a.data[..|a.data| - 1]) + Encode(length) &&
              totalLength == old(totalLength) + |Encode(length)|
    {
      var b := a.data[|a.data| - 1];
      a.data := a.data[..|a.data| - 1];
      b := totalLength + |encoder.buffer| - b;
      ghost var length := b;
      while 127 < b
        invariant 0 <= b
        invariant a.data + Encode(b) == old(a.data[..|a.data| - 1]) + Encode(length)
        invariant totalLength + |Encode(b)| == old(totalLength) + |Encode(length)|
      {
        EncodeNats(a.data, b);
        a.data := a.data + [b % 128 + 128];
        b := b / 128;
        totalLength := totalLength + 1;
      }
      a.data := a.data + [b];
      totalLength := totalLength + 1;
    }

    lemma EncodeNats(s: seq<nat>, b: nat)
      requires b >= 128
      ensures s + Encode(b) == (s + [b % 128 + 128]) + Encode(b / 128)
      ensures |Encode(b)| == |Encode(b / 128)| + 1
    {
    }

    /** What closing a bookmark makes of the blocks written since it was opened. */
    lemma ClosedDelimited(blocks0: seq<Block>, buffer0: seq<byte>, total0: nat, no: nat, a: Block,
                          total1: nat, body: seq<byte>)
      requires blocks0 + [a] <= blocks
      requires a.data == buffer0 + Tag(no, DELIMITED) + Encode(|body|)
      requires Flat(blocks[|blocks0| + 1..]) + encoder.buffer == body
      requires total1 == total0 + |buffer0| + |Tag(no, DELIMITED)|
      requires totalLength + |encoder.buffer| == total1 + |body| + |Encode(|body|)|
      ensures Wrote(blocks0, buffer0, total0, Tag(no, DELIMITED) + Prefixed(body))
    {
      hide Tag, Encode;
      var rest := blocks[|blocks0| + 1..];
      assert blocks[|blocks0|..] == [a] + rest;
      FlatConcat([a], rest);
      FlatOne(a);
      assert (a.data + Flat(rest)) + encoder.buffer == a.data + body;
      assert a.data + body == buffer0 + (Tag(no, DELIMITED) + (Encode(|body|) + body));
    }

    /** `endDelimited` on the bookmark of field `no`, behind which `body` was written. */
    method EndField(a: Block, ghost blocks0: seq<Block>, ghost buffer0: seq<byte>, ghost total0: nat,
                    ghost no: nat, ghost total1: nat, ghost body: seq<byte>)
      requires blocks0 + [a] <= blocks && a !in blocks[|blocks0| + 1..]
      requires a.data == buffer0 + Tag(no, DELIMITED) + [total1]
      requires Flat(blocks[|blocks0| + 1..]) + encoder.buffer == body && |body| < 0x1_0000_0000
      requires total1 == total0 + |buffer0| + |Tag(no, DELIMITED)| && totalLength + |encoder.buffer| == total1 + |body|
      modifies this`totalLength, a
      ensures Wrote(blocks0, buffer0, total0, Tag(no, DELIMITED) + Prefixed(body))
    {
      hide Tag, Encode, Wrote;
      ghost var rest := blocks[|blocks0| + 1..];
      ghost var flat := Flat(rest);
      EndDelimited(a);
      assert Flat(rest) == flat;
      ClosedDelimited(blocks0, buffer0, total0, no, a, total1, body);
    }

    method WriteEnum(no: nat, v: int32)
      requires 1 <= no < 0x2000_0000
      modifies encoder
      ensures Wrote(old(blocks), old(encoder.buffer), old(totalLength), Tag(no, VARINT) + EncodeSigned(v))
      ensures blocks == old(blocks)
    {
      WriteFieldHeader(no, VARINT);
      encoder.WriteSignedVarint32(v);
      BufferOnly(old(encoder.buffer), Tag(no, VARINT), EncodeSigned(v));
    }

    method WriteUint32(no: nat, v: uint32)
      requires 1 <= no < 0x2000_0000
      modifies encoder
      ensures Wrote(old(blocks), old(encoder.buffer), old(totalLength), Tag(no, VARINT) + Encode(v))
      ensures blocks == old(blocks)
    {
      WriteFieldHeader(no, VARINT);
      encoder.WriteUnsignedVarint32(v);
      BufferOnly(old(encoder.buffer), Tag(no, VARINT), Encode(v));
    }

    method WriteSplitVarint64(no: nat, lo: uint32, hi: uint32)
      requires 1 <= no < 0x2000_0000
      modifies encoder
      ensures Wrote(old(blocks), old(encoder.buffer), old(totalLength), Serialize(Varint(no, UInt64(lo, hi).Value())))
      ensures blocks == old(blocks)
    {
      WriteFieldHeader(no, VARINT);
      encoder.WriteSplitVarint64(lo, hi);
      BufferOnly(old(encoder.buffer), Tag(no, VARINT), Encode(UInt64(lo, hi).Value()));
    }

    method WriteFixed32(no: nat, w: uint32)
      requires 1 <= no < 0x2000_0000
      modifies encoder
      ensures Wrote(old(blocks), old(encoder.buffer), old(totalLength), Serialize(Fixed32(no, w)))
      ensures blocks == old(blocks)
    {
      WriteFieldHeader(no, FIXED32);
      encoder.WriteUint32(w);
      BufferOnly(old(encoder.buffer), Tag(no, FIXED32), Digits(w, 4));
    }

    method WriteSplitFixed64(no: nat, lo: uint32, hi: uint32)
      requires 1 <= no < 0x2000_0000
      modifies encoder
      ensures Wrote(old(blocks), old(encoder.buffer), old(totalLength), Serialize(Fixed64(no, UInt64(lo, hi).Value())))
      ensures blocks == old(blocks)
    {
      WriteFieldHeader(no, FIXED64);
      encoder.WriteSplitFixed64(lo, hi);
      EightDigits(lo, hi);
      BufferOnly(old(encoder.buffer), Tag(no, FIXED64), Digits(lo, 4) + Digits(hi, 4));
    }

    lemma BufferOnly(buffer0: seq<byte>, tag: seq<byte>, payload: seq<byte>)
      requires encoder.buffer == buffer0 + tag + payload
      ensures Wrote(blocks, buffer0, totalLength, tag + payload)
    {
      assert blocks[|blocks|..] == [];
      assert [] + encoder.buffer == buffer0 + (tag + payload);
    }

    method WriteString(no: nat, s: seq<uint16>)
      requires 1 <= no < 0x2000_0000 && |WriteUnits(s)| < 0x1_0000_0000
      modifies this`blocks, this`totalLength, encoder
      ensures Wrote(old(blocks), old(encoder.buffer), old(totalLength), Serialize(Text(no, s)))
      ensures forall b :: b in blocks[|old(blocks)|..] ==> fresh(b)
    {
      hide Tag, Encode, WriteUnits;
      var a := BeginDelimited(no);
      ghost var total1 := totalLength;
      var n := encoder.WriteString(s);
      assert [] + WriteUnits(s) == WriteUnits(s);
      assert blocks[|old(blocks)| + 1..] == [];
      assert Flat([]) + encoder.buffer == encoder.buffer;
      EndField(a, old(blocks), old(encoder.buffer), old(totalLength), no, total1, WriteUnits(s));
    }

    method WriteBytes(no: nat, b: seq<byte>)
      requires 1 <= no < 0x2000_0000 && |b| < 0x1_0000_0000
      modifies this`blocks, this`totalLength, encoder
      ensures Wrote(old(blocks), old(encoder.buffer), old(totalLength), Serialize(Bytes(no, b)))
      ensures forall b :: b in blocks[|old(blocks)|..] ==> fresh(b)
    {
      WriteFieldHeader(no, DELIMITED);
      encoder.WriteUnsignedVarint32(|b|);
      BufferOnly(old(encoder.buffer), Tag(no, DELIMITED), Encode(|b|));
      ghost var buffer1 := encoder.buffer;
      AppendUint8Array(b);
      assert old(blocks)[|old(blocks)|..] == [];
      WroteBoth(old(blocks), old(encoder.buffer), old(totalLength), Tag(no, DELIMITED) + Encode(|b|),
                old(blocks), buffer1, old(totalLength), b);
      assert (Tag(no, DELIMITED) + Encode(|b|)) + b == Serialize(Bytes(no, b));
    }

    /** Writes one field of a tree: submessages through a bookmark, groups between two tags. */
    method WriteField(f: Field)
      requires Valid(f)
      modifies this`blocks, this`totalLength, encoder
      ensures Wrote(old(blocks), old(encoder.buffer), old(totalLength), Serialize(f))
      ensures forall b :: b in blocks[|old(blocks)|..] ==> fresh(b)
      decreases f, 3
    {
      match f
      case Varint(no, v) => WriteSplitVarint64(no, Of(v).lo, Of(v).hi);
      case Fixed64(no, v) => WriteSplitFixed64(no, Of(v).lo, Of(v).hi);
      case Fixed32(no, w) => WriteFixed32(no, w);
      case Text(no, s) => WriteString(no, s);
      case Bytes(no, b) => WriteBytes(no, b);
      case Message(no, kids) => WriteMessage(no, kids);
      case Group(no, kids) => WriteGroup(no, kids);
    }

    method WriteFields(fs: seq<Field>)
      requires AllValid(fs)
      modifies this`blocks, this`totalLength, encoder
      ensures Wrote(old(blocks), old(encoder.buffer), old(totalLength), SerializeAll(fs))
      ensures forall b :: b in blocks[|old(blocks)|..] ==> fresh(b)
      decreases fs, 0
    {
      if fs == [] {
        assert blocks[|blocks|..] == [];
        assert [] + encoder.buffer == old(encoder.buffer) + [];
      } else {
        WriteField(fs[0]);
        ghost var blocks1, buffer1, total1 := blocks, encoder.buffer, totalLength;
        ghost var first := Flat(blocks1[|old(blocks)|..]);
        WriteFields(fs[1..]);
        assert Flat(blocks1[|old(blocks)|..]) == first;
        WroteBoth(old(blocks), old(encoder.buffer), old(totalLength), Serialize(fs[0]),
                  blocks1, buffer1, total1, SerializeAll(fs[1..]));
        forall b | b in blocks[|old(blocks)|..] ensures fresh(b) {
          assert b in blocks1[|old(blocks)|..] || b in blocks[|blocks1|..];
        }
      }
    }

    method WriteMessage(no: nat, kids: seq<Field>)
      requires Valid(Message(no, kids))
      modifies this`blocks, this`totalLength, encoder
      ensures Wrote(old(blocks), old(encoder.buffer), old(totalLength), Serialize(Message(no, kids)))
      ensures forall b :: b in blocks[|old(blocks)|..] ==> fresh(b)
      decreases kids, 1
    {
      ghost var body := SerializeAll(kids);
      assert AllValid(kids);
      hide SerializeAll, Tag, Encode, Valid, AllValid;
      var a := BeginDelimited(no);
      ghost var blocks1, total1 := blocks, totalLength;
      WriteFields(kids);
      assert [] + body == body;
      ghost var rest := blocks[|blocks1|..];
      assert a !in rest;
      EndField(a, old(blocks), old(encoder.buffer), old(totalLength), no, total1, body);
      forall b | b in blocks[|old(blocks)|..] ensures fresh(b) {
        assert b == a || b in rest;
      }
    }

    method WriteGroup(no: nat, kids: seq<Field>)
      requires Valid(Group(no, kids))
      modifies this`blocks, this`totalLength, encoder
      ensures Wrote(old(blocks), old(encoder.buffer), old(totalLength), Serialize(Group(no, kids)))
      ensures forall b :: b in blocks[|old(blocks)|..] ==> fresh(b)
      decreases kids, 2
    {
      ghost var start, body, end := Tag(no, START_GROUP), SerializeAll(kids), Tag(no, END_GROUP);
      GroupBytes(no, kids);
      hide Tag, SerializeAll, Serialize;
      WriteGroupStart(no, kids);
      ghost var blocks2, buffer2, total2 := blocks, encoder.buffer, totalLength;
      WriteFieldHeader(no, END_GROUP);
      BufferOnly(buffer2, end, []);
      assert end + [] == end;
      WroteBoth(old(blocks), old(encoder.buffer), old(totalLength), start + body,
                blocks2, buffer2, total2, end);
    }

    lemma GroupBytes(no: nat, kids: seq<Field>)
      requires Valid(Group(no, kids))
      ensures Serialize(Group(no, kids)) == (Tag(no, START_GROUP) + SerializeAll(kids)) + Tag(no, END_GROUP)
    {
      hide Tag, SerializeAll;
    }

    method WriteGroupStart(no: nat, kids: seq<Field>)
      requires Valid(Group(no, kids))
      modifies this`blocks, this`totalLength, encoder
      ensures Wrote(old(blocks), old(encoder.buffer), old(totalLength), Tag(no, START_GROUP) + SerializeAll(kids))
      ensures forall b :: b in blocks[|old(blocks)|..] ==> fresh(b)
      decreases kids, 1
    {
      hide Tag, SerializeAll;
      WriteFieldHeader(no, START_GROUP);
      ghost var buffer1 := encoder.buffer;
      assert blocks[|blocks|..] == [];
      WriteFields(kids);
      WroteBoth(old(blocks), old(encoder.buffer), old(totalLength), Tag(no, START_GROUP),
                old(blocks), buffer1, old(totalLength), SerializeAll(kids));
    }

    method BeginSubMessage(no: nat)
      requires 1 <= no < 0x2000_0000
      modifies this, encoder
      ensures |bookmarks| == |old(bookmarks)| + 1 && bookmarks[..|old(bookmarks)|] == old(bookmarks)
      ensures var a := bookmarks[|old(bookmarks)|];
              fresh(a) && blocks == old(blocks) + [a] && encoder.buffer == [] &&
              a.data == old(encoder.buffer) + Tag(no, DELIMITED) + [totalLength]
      ensures totalLength == old(totalLength) + |old(encoder.buffer) + Tag(no, DELIMITED)|
    {
      var a := BeginDelimited(no);
      bookmarks := bookmarks + [a];
    }

    /** The assertion lets an empty list through; closing the missing bookmark then throws. */
    method EndSubMessage() returns (r: Outcome<()>)
      requires bookmarks != [] ==>
                 var a := bookmarks[|bookmarks| - 1];
                 a.data != [] && 0 <= totalLength + |encoder.buffer| - a.data[|a.data| - 1] < 0x1_0000_0000
      modifies this, if bookmarks != [] then {bookmarks[|bookmarks| - 1]} else {}
      ensures blocks == old(blocks)
      ensures old(bookmarks) == [] ==> r == Throws && bookmarks == [] && totalLength == old(totalLength)
      ensures old(bookmarks) != [] ==>
                r == Ok(()) && bookmarks == old(bookmarks[..|bookmarks| - 1]) &&
                var a := old(bookmarks[|bookmarks| - 1]);
                var length := old(totalLength + |encoder.buffer|) - old(a.data[|a.data| - 1]);
                length >= 0 && a.data == old(a.data[..|a.data| - 1]) + Encode(length) &&
                totalLength == old(totalLength) + |Encode(length)|
    {
      if bookmarks == [] {
        return Throws;
      }
      var a := bookmarks[|bookmarks| - 1];
      bookmarks := bookmarks[..|bookmarks| - 1];
      EndDelimited(a);
      r := Ok(());
    }

    /**
     * Copies the blocks and the buffer into one array of `totalLength` plus the
     * buffer's length. It throws unless the total is exactly the blocks' length.
     * The total is left as it was, so a second call succeeds exactly when the first
     * found the buffer empty.
     */
    method GetResultBuffer() returns (r: Outcome<array<byte>>)
      modifies this`blocks, encoder
      ensures r.Ok? <==> old(bookmarks == [] && totalLength == |Flat(blocks)|)
      ensures r.Ok? ==> fresh(r.value) && r.value[..] == Uint8s(old(Flat(blocks))) + old(encoder.buffer)
      ensures r.Ok? ==> |blocks| == 1 && fresh(blocks[0]) && blocks[0].data == r.value[..] && encoder.buffer == []
      ensures r.Ok? ==> (totalLength == |Flat(blocks)| <==> old(encoder.buffer) == [])
    {
      if bookmarks != [] {
        return Throws;
      }
      ghost var flat := Flat(blocks);
      var a := new byte[totalLength + |encoder.buffer|](_ => 0);
      var copied := CopyBlocks(blocks, a);
      if copied.IsFailure() {
        return Throws;
      }
      var d := copied.value;
      var b := encoder.End();
      if d + |b| > a.Length {
        return Throws;
      }
      CopyBytes(a, b, d);
      Uint8sOfBytes(b);
      d := d + |b|;
      if d != a.Length {
        return Throws;
      }
      assert a[..d] == a[..];
      var block := new Block(a[..]);
      blocks := [block];
      FlatOne(block);
      r := Ok(a);
    }
  }

  /** A fresh writer serializes every valid field tree to the bytes of the recursive serializer. */
  method SerializeTree(fs: seq<Field>) returns (r: Outcome<array<byte>>)
    requires AllValid(fs)
    ensures r.Ok? && r.value[..] == SerializeAll(fs)
  {
    var w := new BinaryWriter();
    w.WriteFields(fs);
    ghost var flat := Flat(w.blocks);
    assert w.blocks[0..] == w.blocks;
    assert flat + w.encoder.buffer == [] + SerializeAll(fs) == SerializeAll(fs);
    PrefixOfBytes(flat, w.encoder.buffer, SerializeAll(fs));
    r := w.GetResultBuffer();
  }

}
