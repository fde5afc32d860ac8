/** The generated message classes of proto/Message_pb.js. */
module Messages {
  import opened JsNumbers
  import opened Outcomes
  import opened Wire
  import opened Writer
  import opened Records
  import opened FieldReader

  /** The bytes of one field of a message: none for a default value. */
  function Part(kind: Kind, no: nat, v: Value): seq<byte>
    requires Fits(kind, v)
  {
    if v == Default(kind) then [] else Tag(no, WireOf(kind)) + ValueBytes(kind, v)
  }

  /** A message's bytes are its parts in field order. */
  lemma FiveParts(schema: Schema, m: seq<Value>)
    requires |schema| == 5 && IsMessage(schema, m)
    ensures MessageBytes(schema, m) ==
            [] + Part(schema[0], 1, m[0]) + Part(schema[1], 2, m[1]) + Part(schema[2], 3, m[2])
               + Part(schema[3], 4, m[3]) + Part(schema[4], 5, m[4])
  {
    hide Part, Fits, ValidRecord, RecordBytes, AllBytes, RecordsFrom;
    PartFirst(schema, m, 0);
    PartFirst(schema, m, 1);
    PartFirst(schema, m, 2);
    PartFirst(schema, m, 3);
    PartFirst(schema, m, 4);
    NoFurtherParts(schema, m);
    LeftToRight(Part(schema[0], 1, m[0]), Part(schema[1], 2, m[1]), Part(schema[2], 3, m[2]), Part(schema[3], 4, m[3]),
                Part(schema[4], 5, m[4]));
  }

  lemma NoFurtherParts(schema: Schema, m: seq<Value>)
    requires |schema| == 5 && IsMessage(schema, m)
    ensures AllBytes(schema, RecordsFrom(schema, m, 5)) == []
  {
  }

  lemma LeftToRight(a: seq<byte>, b: seq<byte>, c: seq<byte>, d: seq<byte>, e: seq<byte>)
    ensures a + (b + (c + (d + (e + [])))) == [] + a + b + c + d + e
  {
  }

  lemma PartFirst(schema: Schema, m: seq<Value>, i: nat)
    requires IsMessage(schema, m) && i < |schema| < 0x2000_0000
    ensures AllBytes(schema, RecordsFrom(schema, m, i)) ==
            Part(schema[i], i + 1, m[i]) + AllBytes(schema, RecordsFrom(schema, m, i + 1))
  {
    hide Fits, ValueBytes, Tag;
    var rest := RecordsFrom(schema, m, i + 1);
    if m[i] == Default(schema[i]) {
      assert RecordsFrom(schema, m, i) == rest;
    } else {
      assert RecordsFrom(schema, m, i) == [Known(i + 1, m[i])] + rest;
      assert RecordsFrom(schema, m, i)[1..] == rest;
    }
  }

  // ---- one field of `serializeBinaryToWriter`; `s` is what was written before it ----

  method WriteEnumField(w: BinaryWriter, no: nat, f: int32,
                        ghost blocks0: seq<Block>, ghost buffer0: seq<byte>, ghost total0: nat, ghost s: seq<byte>)
    requires 1 <= no < 0x2000_0000 && w.Wrote(blocks0, buffer0, total0, s)
    modifies w`blocks, w`totalLength, w.encoder
    ensures w.Wrote(blocks0, buffer0, total0, s + Part(EnumKind, no, Num(f)))
  {
    if f != 0 {
      w.WriteEnum(no, f);
      w.WroteBoth(blocks0, buffer0, total0, s, old(w.blocks), old(w.encoder.buffer), old(w.totalLength),
                  Part(EnumKind, no, Num(f)));
    } else {
      assert s + [] == s;
    }
  }

  method WriteUint32Field(w: BinaryWriter, no: nat, f: uint32,
                          ghost blocks0: seq<Block>, ghost buffer0: seq<byte>, ghost total0: nat, ghost s: seq<byte>)
    requires 1 <= no < 0x2000_0000 && w.Wrote(blocks0, buffer0, total0, s)
    modifies w`blocks, w`totalLength, w.encoder
    ensures w.Wrote(blocks0, buffer0, total0, s + Part(Uint32Kind, no, Num(f)))
  {
    if f != 0 {
      w.WriteUint32(no, f);
      w.WroteBoth(blocks0, buffer0, total0, s, old(w.blocks), old(w.encoder.buffer), old(w.totalLength),
                  Part(Uint32Kind, no, Num(f)));
    } else {
      assert s + [] == s;
    }
  }

  method WriteStringField(w: BinaryWriter, no: nat, f: seq<uint16>,
                          ghost blocks0: seq<Block>, ghost buffer0: seq<byte>, ghost total0: nat, ghost s: seq<byte>)
    requires 1 <= no < 0x2000_0000 && Fits(StringKind, Str(f)) && w.Wrote(blocks0, buffer0, total0, s)
    modifies w`blocks, w`totalLength, w.encoder
    ensures w.Wrote(blocks0, buffer0, total0, s + Part(StringKind, no, Str(f)))
  {
    if |f| > 0 {
      ghost var first := Flat(w.blocks[|blocks0|..]);
      w.WriteString(no, f);
      assert Serialize(Text(no, f)) == Part(StringKind, no, Str(f));
      assert Flat(old(w.blocks)[|blocks0|..]) == first;
      w.WroteBoth(blocks0, buffer0, total0, s, old(w.blocks), old(w.encoder.buffer), old(w.totalLength),
                  Part(StringKind, no, Str(f)));
    } else {
      assert s + [] == s;
    }
  }

  method WriteBytesField(w: BinaryWriter, no: nat, f: seq<byte>,
                         ghost blocks0: seq<Block>, ghost buffer0: seq<byte>, ghost total0: nat, ghost s: seq<byte>)
    requires 1 <= no < 0x2000_0000 && Fits(BytesKind, Raw(f)) && w.Wrote(blocks0, buffer0, total0, s)
    modifies w`blocks, w`totalLength, w.encoder
    ensures w.Wrote(blocks0, buffer0, total0, s + Part(BytesKind, no, Raw(f)))
  {
    if |f| > 0 {
      ghost var first := Flat(w.blocks[|blocks0|..]);
      w.WriteBytes(no, f);
      assert Serialize(Bytes(no, f)) == Part(BytesKind, no, Raw(f));
      assert Flat(old(w.blocks)[|blocks0|..]) == first;
      w.WroteBoth(blocks0, buffer0, total0, s, old(w.blocks), old(w.encoder.buffer), old(w.totalLength),
                  Part(BytesKind, no, Raw(f)));
    } else {
      assert s + [] == s;
    }
  }

  /** A writer that has just been created has written nothing. */
  lemma NothingWritten(w: BinaryWriter)
    ensures w.Wrote(w.blocks, w.encoder.buffer, w.totalLength, [])
  {
    assert w.blocks[|w.blocks|..] == [];
    assert [] + w.encoder.buffer == w.encoder.buffer + [];
  }

  // ---- the parse loop ----

  /** What is still to come from the cursor's position is the whole result of the parse. */
  ghost predicate Pending(schema: Schema, bytes: seq<byte>, cursor: nat, m: seq<Value>,
                          all: Outcome<(seq<Value>, seq<byte>)>)
  {
    |m| == |schema| && all == if cursor <= |bytes| then ParseFrom(schema, bytes[cursor..], m) else Throws
  }

  lemma PendingStep(schema: Schema, bytes: seq<byte>, cursor: nat, m: seq<Value>,
                    all: Outcome<(seq<Value>, seq<byte>)>)
    requires Pending(schema, bytes, cursor, m, all)
    ensures cursor == |bytes| ==> all == Ok((m, []))
    ensures cursor > |bytes| ==> all == Throws
    ensures cursor < |bytes| ==>
              match Wire.NextField(bytes[cursor..])
              case Throws => all == Throws
              case Backward => all == Backward
              case Ok(h) =>
                var rest := bytes[cursor + h.size..];
                if h.wire == END_GROUP then all == Ok((m, rest))
                else if 1 <= h.no <= |schema| then
                  match ReadValue(schema[h.no - 1], h.wire, rest)
                  case Ok((v, k)) => Pending(schema, bytes, cursor + h.size + k, m[h.no - 1 := v], all)
                  case Throws => all == Throws
                  case Backward => all == Backward
                else
                  match Wire.SkipField(rest, h.no, h.wire)
                  case Ok(k) => Pending(schema, bytes, cursor + h.size + k, m, all)
                  case Throws => all == Throws
                  case Backward => all == Backward
  {
    hide Wire.NextField, Wire.SkipField, ReadValue;
    if cursor < |bytes| {
      var s := bytes[cursor..];
      if Wire.NextField(s).Ok? {
        var h := Wire.NextField(s).value;
        assert s[h.size..] == bytes[cursor + h.size..];
        assert forall k :: 0 <= k <= |s| - h.size ==> s[h.size..][k..] == bytes[cursor + h.size + k..];
      }
    }
  }

  class Model {
    var cmd: int
    var from: seq<uint16>
    var to: seq<uint16>
    var groupid: seq<uint16>
    var content: seq<byte>

    constructor ()
      ensures Values() == Defaults(MODEL)
    {
      cmd, from, to, groupid, content := 0, [], [], [], [];
      new;
      assert Values() == Defaults(MODEL);
    }

    ghost function Values(): (m: seq<Value>)
      reads this
      ensures |m| == |MODEL|
    {
      [Num(cmd), Str(from), Str(to), Str(groupid), Raw(content)]
    }

    method SerializeBinaryToWriter(w: BinaryWriter)
      requires IsMessage(MODEL, Values())
      modifies w`blocks, w`totalLength, w.encoder
      ensures w.Wrote(old(w.blocks), old(w.encoder.buffer), old(w.totalLength), MessageBytes(MODEL, Values()))
    {
      ghost var blocks0, buffer0, total0 := w.blocks, w.encoder.buffer, w.totalLength;
      ghost var m := Values();
      FiveParts(MODEL, m);
      NothingWritten(w);
      assert forall i :: 0 <= i < 5 ==> Fits(MODEL[i], m[i]);
      hide MessageBytes, IsMessage, Fits, Part, BinaryWriter.Wrote;
      ghost var s: seq<byte> := [];
      WriteEnumField(w, 1, cmd, blocks0, buffer0, total0, s);
      s := s + Part(EnumKind, 1, Num(cmd));
      WriteStringField(w, 2, from, blocks0, buffer0, total0, s);
      s := s + Part(StringKind, 2, Str(from));
      WriteStringField(w, 3, to, blocks0, buffer0, total0, s);
      s := s + Part(StringKind, 3, Str(to));
      WriteStringField(w, 4, groupid, blocks0, buffer0, total0, s);
      s := s + Part(StringKind, 4, Str(groupid));
      WriteBytesField(w, 5, content, blocks0, buffer0, total0, s);
    }

    method SerializeBinary() returns (r: Outcome<array<byte>>)
      requires IsMessage(MODEL, Values())
      ensures r.Ok? && r.value[..] == MessageBytes(MODEL, Values())
    {
      hide MessageBytes, IsMessage, Fits;
      var w := new BinaryWriter();
      SerializeBinaryToWriter(w);
      ghost var flat := Flat(w.blocks);
      ghost var s := MessageBytes(MODEL, Values());
      assert w.blocks[0..] == w.blocks;
      assert flat + w.encoder.buffer == [] + s == s;
      PrefixOfBytes(flat, w.encoder.buffer, s);
      r := w.GetResultBuffer();
    }

    /** Sets fields as they come; a later field of the same number wins. */
    method DeserializeBinaryFromReader(reader: BinaryReader) returns (r: Outcome<()>)
      requires reader.decoder.cursor <= |reader.decoder.bytes|
      modifies this, reader, reader.decoder
      ensures match ParseFrom(MODEL, old(reader.decoder.Rest()), old(Values()))
              case Ok((m, rest)) => r == Ok(()) && Values() == m && reader.decoder.cursor <= |reader.decoder.bytes| &&
                                    reader.decoder.Rest() == rest
              case Throws => r == Throws
              case Backward => r == Backward
    {
      hide ParseFrom, Wire.NextField, Wire.SkipField, ReadValue;
      ghost var bytes := reader.decoder.bytes;
      ghost var all := ParseFrom(MODEL, reader.decoder.Rest(), Values());
      while true
        invariant Pending(MODEL, bytes, reader.decoder.cursor, Values(), all)
        decreases |bytes| - reader.decoder.cursor
      {
        ghost var m := Values();
        PendingStep(MODEL, bytes, reader.decoder.cursor, m, all);
        var more := reader.NextField();
        if more.IsFailure() {
          return more.PropagateFailure();
        }
        if !more.value || reader.IsEndGroup() {
          return Ok(());
        }
        match reader.nextField {
          case 1 =>
            var value := reader.ReadEnum();
            if value.IsFailure() {
              return value.PropagateFailure();
            }
            cmd := value.value;
            assert Values() == m[0 := Num(cmd)];
          case 2 =>
            var value := reader.ReadString();
            if value.IsFailure() {
              return value.PropagateFailure();
            }
            from := value.value;
            assert Values() == m[1 := Str(from)];
          case 3 =>
            var value := reader.ReadString();
            if value.IsFailure() {
              return value.PropagateFailure();
            }
            to := value.value;
            assert Values() == m[2 := Str(to)];
          case 4 =>
            var value := reader.ReadString();
            if value.IsFailure() {
              return value.PropagateFailure();
            }
            groupid := value.value;
            assert Values() == m[3 := Str(groupid)];
          case 5 =>
            var value := reader.ReadBytes();
            if value.IsFailure() {
              return value.PropagateFailure();
            }
            content := value.value;
            assert Values() == m[4 := Raw(content)];
          case _ =>
            var skipped := reader.SkipField();
            if skipped.IsFailure() {
              return skipped;
            }
        }
      }
    }
  }

  method DeserializeModelBinary(bytes: seq<byte>) returns (r: Outcome<Model>)
    ensures match ParseFrom(MODEL, bytes, Defaults(MODEL))
            case Ok((m, rest)) => r.Ok? && fresh(r.value) && r.value.Values() == m
            case Throws => r == Throws
            case Backward => r == Backward
  {
    hide ParseFrom;
    var reader := new BinaryReader(bytes);
    var msg := new Model();
    assert reader.decoder.Rest() == bytes;
    var done := msg.DeserializeBinaryFromReader(reader);
    if done.IsFailure() {
      return done.PropagateFailure();
    }
    r := Ok(msg);
  }

  class MessageBody {
    var title: seq<uint16>
    var content: seq<uint16>
    var time: seq<uint16>
    var kind: int
    var extend: seq<uint16>

    constructor ()
      ensures Values() == Defaults(BODY)
    {
      title, content, time, kind, extend := [], [], [], 0, [];
      new;
      assert Values() == Defaults(BODY);
    }

    ghost function Values(): (m: seq<Value>)
      reads this
      ensures |m| == |BODY|
    {
      [Str(title), Str(content), Str(time), Num(kind), Str(extend)]
    }

    method SerializeBinaryToWriter(w: BinaryWriter)
      requires IsMessage(BODY, Values())
      modifies w`blocks, w`totalLength, w.encoder
      ensures w.Wrote(old(w.blocks), old(w.encoder.buffer), old(w.totalLength), MessageBytes(BODY, Values()))
    {
      ghost var blocks0, buffer0, total0 := w.blocks, w.encoder.buffer, w.totalLength;
      ghost var m := Values();
      FiveParts(BODY, m);
      NothingWritten(w);
      assert forall i :: 0 <= i < 5 ==> Fits(BODY[i], m[i]);
      hide MessageBytes, IsMessage, Fits, Part, BinaryWriter.Wrote;
      ghost var s: seq<byte> := [];
      WriteStringField(w, 1, title, blocks0, buffer0, total0, s);
      s := s + Part(StringKind, 1, Str(title));
      WriteStringField(w, 2, content, blocks0, buffer0, total0, s);
      s := s + Part(StringKind, 2, Str(content));
      WriteStringField(w, 3, time, blocks0, buffer0, total0, s);
      s := s + Part(StringKind, 3, Str(time));
      WriteUint32Field(w, 4, kind, blocks0, buffer0, total0, s);
      s := s + Part(Uint32Kind, 4, Num(kind));
      WriteStringField(w, 5, extend, blocks0, buffer0, total0, s);
    }

    method SerializeBinary() returns (r: Outcome<array<byte>>)
      requires IsMessage(BODY, Values())
      ensures r.Ok? && r.value[..] == MessageBytes(BODY, Values())
    {
      hide MessageBytes, IsMessage, Fits;
      var w := new BinaryWriter();
      SerializeBinaryToWriter(w);
      ghost var flat := Flat(w.blocks);
      ghost var s := MessageBytes(BODY, Values());
      assert w.blocks[0..] == w.blocks;
      assert flat + w.encoder.buffer == [] + s == s;
      PrefixOfBytes(flat, w.encoder.buffer, s);
      r := w.GetResultBuffer();
    }

    /** Sets fields as they come; a later field of the same number wins. */
    method DeserializeBinaryFromReader(reader: BinaryReader) returns (r: Outcome<()>)
      requires reader.decoder.cursor <= |reader.decoder.bytes|
      modifies this, reader, reader.decoder
      ensures match ParseFrom(BODY, old(reader.decoder.Rest()), old(Values()))
              case Ok((m, rest)) => r == Ok(()) && Values() == m && reader.decoder.cursor <= |reader.decoder.bytes| &&
                                    reader.decoder.Rest() == rest
              case Throws => r == Throws
              case Backward => r == Backward
    {
      hide ParseFrom, Wire.NextField, Wire.SkipField, ReadValue;
      ghost var bytes := reader.decoder.bytes;
      ghost var all := ParseFrom(BODY, reader.decoder.Rest(), Values());
      while true
        invariant Pending(BODY, bytes, reader.decoder.cursor, Values(), all)
        decreases |bytes| - reader.decoder.cursor
      {
        ghost var m := Values();
        PendingStep(BODY, bytes, reader.decoder.cursor, m, all);
        var more := reader.NextField();
        if more.IsFailure() {
          return more.PropagateFailure();
        }
        if !more.value || reader.IsEndGroup() {
          return Ok(());
        }
        match reader.nextField {
          case 1 =>
            var value := reader.ReadString();
            if value.IsFailure() {
              return value.PropagateFailure();
            }
            title := value.value;
            assert Values() == m[0 := Str(title)];
          case 2 =>
            var value := reader.ReadString();
            if value.IsFailure() {
              return value.PropagateFailure();
            }
            content := value.value;
            assert Values() == m[1 := Str(content)];
          case 3 =>
            var value := reader.ReadString();
            if value.IsFailure() {
              return value.PropagateFailure();
            }
            time := value.value;
            assert Values() == m[2 := Str(time)];
          case 4 =>
            var value := reader.ReadUint32();
            if value.IsFailure() {
              return value.PropagateFailure();
            }
            kind := value.value;
            assert Values() == m[3 := Num(kind)];
          case 5 =>
            var value := reader.ReadString();
            if value.IsFailure() {
              return value.PropagateFailure();
            }
            extend := value.value;
            assert Values() == m[4 := Str(extend)];
          case _ =>
            var skipped := reader.SkipField();
            if skipped.IsFailure() {
              return skipped;
            }
        }
      }
    }
  }

  method DeserializeMessageBodyBinary(bytes: seq<byte>) returns (r: Outcome<MessageBody>)
    ensures match ParseFrom(BODY, bytes, Defaults(BODY))
            case Ok((m, rest)) => r.Ok? && fresh(r.value) && r.value.Values() == m
            case Throws => r == Throws
            case Backward => r == Backward
  {
    hide ParseFrom;
    var reader := new BinaryReader(bytes);
    var msg := new MessageBody();
    assert reader.decoder.Rest() == bytes;
    var done := msg.DeserializeBinaryFromReader(reader);
    if done.IsFailure() {
      return done.PropagateFailure();
    }
    r := Ok(msg);
  }

  /** What the client gets back: the same message, or the same message without the leads `writeString` drops. */
  method ModelRoundTrip(msg: Model) returns (r: Outcome<Model>)
    requires IsMessage(MODEL, msg.Values())
    ensures r.Ok? && fresh(r.value) && r.value.Values() == Survivors(msg.Values())
    ensures r.value.Values() == msg.Values() <==> NothingDropped(msg.Values())
  {
    hide MessageBytes, ParseFrom, IsMessage, NothingDropped;
    var b := msg.SerializeBinary();
    ParsesMessage(MODEL, msg.Values());
    RoundTripIff(MODEL, msg.Values());
    r := DeserializeModelBinary(b.value[..]);
  }

  method MessageBodyRoundTrip(msg: MessageBody) returns (r: Outcome<MessageBody>)
    requires IsMessage(BODY, msg.Values())
    ensures r.Ok? && fresh(r.value) && r.value.Values() == Survivors(msg.Values())
    ensures r.value.Values() == msg.Values() <==> NothingDropped(msg.Values())
  {
    hide MessageBytes, ParseFrom, IsMessage, NothingDropped;
    var b := msg.SerializeBinary();
    ParsesMessage(BODY, msg.Values());
    RoundTripIff(BODY, msg.Values());
    r := DeserializeMessageBodyBinary(b.value[..]);
  }
}
