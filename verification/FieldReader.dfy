/** `jspb.BinaryReader`: fields on top of the decoder's cursor. */
module FieldReader {
  import opened JsNumbers
  import opened Outcomes
  import opened Varints
  import opened StringCodecs
  import opened UInt64s
  import opened Split64
  import opened Reader
  import opened Wire
  import opened Records

  lemma SliceOfRest(s: seq<byte>, k: nat, n: nat)
    requires k + n <= |s|
    ensures s[k..][..n] == s[k..k + n]
  {
  }

  /** One turn of the group loop: an end, a failure, or a field to skip. */
  lemma SkipGroupStep(s: seq<byte>, k: nat, a: nat)
    requires k <= |s|
    ensures var g := Wire.SkipGroup(s[k..], a);
            if k == |s| then g == Throws
            else match Wire.NextField(s[k..])
              case Throws => g == Throws
              case Backward => g == Backward
              case Ok(h) =>
                if h.wire == END_GROUP then g == if h.no != a then Throws else Ok(h.size)
                else match Wire.SkipField(s[k..][h.size..], h.no, h.wire)
                  case Throws => g == Throws
                  case Backward => g == Backward
                  case Ok(n) =>
                    var k' := k + h.size + n;
                    Later(k, g) == if k' <= |s| then Later(k', Wire.SkipGroup(s[k'..], a)) else Throws
  {
    hide Wire.NextField, Wire.SkipField;
    if k < |s| && Wire.NextField(s[k..]).Ok? {
      var h := Wire.NextField(s[k..]).value;
      if h.wire != END_GROUP && Wire.SkipField(s[k..][h.size..], h.no, h.wire).Ok? {
        var n := Wire.SkipField(s[k..][h.size..], h.no, h.wire).value;
        if k + h.size + n <= |s| {
          assert s[k..][h.size + n..] == s[k + h.size + n..];
        }
      }
    }
  }

  class BinaryReader {
    const decoder: BinaryDecoder
    var nextField: nat
    var nextWireType: nat

    constructor (b: seq<byte>)
      ensures fresh(decoder) && decoder.bytes == b && decoder.cursor == 0
    {
      decoder := new BinaryDecoder(b);
      nextField, nextWireType := 0, 0;
    }

    /** False at the end of the input; an exception past it or on a bad wire type. */
    method NextField() returns (r: Outcome<bool>)
      modifies this, decoder
      ensures old(decoder.cursor) == |decoder.bytes| ==> r == Ok(false) && decoder.cursor == old(decoder.cursor)
      ensures old(decoder.cursor) > |decoder.bytes| ==> r == Throws
      ensures old(decoder.cursor) < |decoder.bytes| ==>
                match Wire.NextField(old(decoder.Rest()))
                case Ok(h) => r == Ok(true) && nextField == h.no && nextWireType == h.wire &&
                              decoder.cursor == old(decoder.cursor) + h.size <= |decoder.bytes|
                case Throws => r == Throws
                case Backward => r == Backward
    {
      if decoder.AtEnd() {
        return Ok(false);
      }
      if decoder.cursor > |decoder.bytes| {
        return Throws;
      }
      hide Read32;
      var a := decoder.ReadUnsignedVarint32();
      if a.IsFailure() {
        return a.PropagateFailure();
      }
      var b := ToUint32(a.value) / 8;
      var wire := a.value % 8;
      if wire != VARINT && wire != FIXED32 && wire != FIXED64 && wire != DELIMITED &&
         wire != START_GROUP && wire != END_GROUP {
        return Throws;
      }
      nextField, nextWireType := b, wire;
      r := Ok(true);
    }

    predicate IsEndGroup()
      reads this
    {
      nextWireType == END_GROUP
    }

    /** Skips what follows the tag just read; groups recurse. */
    method SkipField() returns (r: Outcome<()>)
      requires decoder.cursor <= |decoder.bytes|
      modifies this, decoder
      ensures match Wire.SkipField(old(decoder.Rest()), old(nextField), old(nextWireType))
              case Ok(k) => r == Ok(()) && decoder.cursor == old(decoder.cursor) + k
              case Throws => r == Throws
              case Backward => r == Backward
      decreases |decoder.bytes| - decoder.cursor, 1
    {
      hide Read32, SkipVarint, Wire.SkipGroup;
      if nextWireType == VARINT {
        decoder.SkipVarintBytes();
        r := Ok(());
      } else if nextWireType == FIXED64 {
        r := decoder.Advance(8);
      } else if nextWireType == DELIMITED {
        ghost var s := decoder.Rest();
        var a := decoder.ReadUnsignedVarint32();
        if a.IsFailure() {
          return a.PropagateFailure();
        }
        assert decoder.Rest() == s[Read32(s).value.1..];
        r := decoder.Advance(a.value);
      } else if nextWireType == FIXED32 {
        r := decoder.Advance(4);
      } else if nextWireType == START_GROUP {
        r := SkipGroup();
      } else {
        r := Throws;
      }
    }

    method SkipGroup() returns (r: Outcome<()>)
      requires decoder.cursor <= |decoder.bytes|
      modifies this, decoder
      ensures match Wire.SkipGroup(old(decoder.Rest()), old(nextField))
              case Ok(k) => r == Ok(()) && decoder.cursor == old(decoder.cursor) + k
              case Throws => r == Throws
              case Backward => r == Backward
      decreases |decoder.bytes| - decoder.cursor, 0
    {
      hide Wire.SkipField, Wire.SkipGroup, Wire.NextField;
      ghost var s, k := decoder.Rest(), 0;
      ghost var all := Wire.SkipGroup(s, nextField);
      var a := nextField;
      assert s[0..] == s;
      assert Later(0, all) == all;
      while true
        invariant 0 <= k && decoder.cursor == old(decoder.cursor) + k
        invariant all == if k <= |s| then Later(k, Wire.SkipGroup(s[k..], a)) else Throws
        decreases |s| - k
      {
        if k <= |s| {
          SkipGroupStep(s, k, a);
        }
        assert k < |s| ==> decoder.Rest() == s[k..];
        var more := NextField();
        if more.IsFailure() {
          return more.PropagateFailure();
        }
        if !more.value {
          return Throws;
        }
        if IsEndGroup() {
          return if nextField != a then Throws else Ok(());
        }
        ghost var size := Wire.NextField(s[k..]).value.size;
        assert decoder.Rest() == s[k..][size..];
        var skipped := SkipField();
        if skipped.IsFailure() {
          return skipped;
        }
        k := decoder.cursor - old(decoder.cursor);
      }
    }

    method ReadEnum() returns (r: Outcome<int>)
      requires decoder.cursor <= |decoder.bytes|
      modifies decoder
      ensures Reads(EnumKind, old(decoder.Rest()), if r.Ok? then Ok(Num(r.value)) else r.PropagateFailure(),
                    old(decoder.cursor))
    {
      if nextWireType != VARINT {
        return Throws;
      }
      hide Read64, UInt64.Signed, UInt64.Value, JoinInt64;
      var x := decoder.ReadSplitVarint64();
      if x.IsFailure() {
        return x.PropagateFailure();
      }
      ValueInjective(x.value, Of(x.value.Value()));
      r := Ok(JoinInt64(x.value));
    }

    method ReadUint32() returns (r: Outcome<int>)
      requires decoder.cursor <= |decoder.bytes|
      modifies decoder
      ensures Reads(Uint32Kind, old(decoder.Rest()), if r.Ok? then Ok(Num(r.value)) else r.PropagateFailure(),
                    old(decoder.cursor))
    {
      if nextWireType != VARINT {
        return Throws;
      }
      hide Read32;
      r := decoder.ReadUnsignedVarint32();
    }

    method ReadString() returns (r: Outcome<seq<uint16>>)
      requires decoder.cursor <= |decoder.bytes|
      modifies decoder
      ensures Reads(StringKind, old(decoder.Rest()), if r.Ok? then Ok(Str(r.value)) else r.PropagateFailure(),
                    old(decoder.cursor))
    {
      if nextWireType != DELIMITED {
        return Throws;
      }
      hide Read32, ReadUnits;
      ghost var s := decoder.Rest();
      var a := decoder.ReadUnsignedVarint32();
      if a.IsFailure() {
        return a.PropagateFailure();
      }
      assert decoder.Rest() == s[Read32(s).value.1..];
      var e := decoder.ReadString(a.value);
      r := Ok(e);
    }

    method ReadBytes() returns (r: Outcome<seq<byte>>)
      requires decoder.cursor <= |decoder.bytes|
      modifies decoder
      ensures Reads(BytesKind, old(decoder.Rest()), if r.Ok? then Ok(Raw(r.value)) else r.PropagateFailure(),
                    old(decoder.cursor))
    {
      if nextWireType != DELIMITED {
        return Throws;
      }
      hide Read32;
      ghost var s := decoder.Rest();
      var a := decoder.ReadUnsignedVarint32();
      if a.IsFailure() {
        return a.PropagateFailure();
      }
      ghost var k := Read32(s).value.1;
      assert decoder.Rest() == s[k..];
      r := decoder.ReadBytes(a.value);
      if r.Ok? {
        SliceOfRest(s, k, a.value);
      }
    }

    /** The outcome and the cursor are those of `ReadValue` at the old rest. */
    ghost predicate Reads(kind: Kind, s: seq<byte>, r: Outcome<Value>, cursor0: nat)
      reads this, decoder
    {
      match ReadValue(kind, nextWireType, s)
      case Ok((v, k)) => r == Ok(v) && decoder.cursor == cursor0 + k
      case Throws => r == Throws
      case Backward => r == Backward
    }
  }
}
