/**
 * The stream between nodes: frames of a magic byte, a big-endian length and the
 * message, decoded incrementally from whatever has arrived.
 */
module Framing {
  import opened JsNumbers
  import opened Outcomes
  import opened Records
  import opened ServerModels

  const MAGIC_CODE: byte := 0x86

  /** `writeInt`. */
  function BigEndian(n: uint32): (s: seq<byte>)
    ensures |s| == 4
  {
    [n / 0x100_0000, n / 0x1_0000 % 0x100, n / 0x100 % 0x100, n % 0x100]
  }

  /** `readInt`: signed. */
  function ReadInt(s: seq<byte>): int32
    requires |s| >= 4
  {
    ToInt32(s[0] as int * 0x100_0000 + s[1] as int * 0x1_0000 + s[2] as int * 0x100 + s[3] as int)
  }

  lemma ReadsInt(n: uint32, rest: seq<byte>)
    requires n < 0x8000_0000
    ensures ReadInt(BigEndian(n) + rest) == n
  {
    assert n / 0x1_0000 == n / 0x100_0000 * 0x100 + n / 0x1_0000 % 0x100;
    assert n / 0x100 == n / 0x1_0000 * 0x100 + n / 0x100 % 0x100;
  }

  function Frame(payload: seq<byte>): seq<byte>
    requires |payload| < 0x8000_0000
  {
    [MAGIC_CODE] + BigEndian(|payload|) + payload
  }

  /** On the wire: the magic byte, four bytes of length, the highest first, and the payload. */
  lemma FrameLayout(payload: seq<byte>)
    requires |payload| < 0x8000_0000
    ensures var f := Frame(payload);
            && |f| == 5 + |payload| && f[0] == 0x86 && f[5..] == payload
            && f[1] as int * 0x100_0000 + f[2] as int * 0x1_0000 + f[3] as int * 0x100 + f[4] as int == |payload|
  {
    FourBytesOf(|payload|);
  }

  lemma FourBytesOf(n: uint32)
    ensures n / 0x100_0000 * 0x100_0000 + n / 0x1_0000 % 0x100 * 0x1_0000 + n / 0x100 % 0x100 * 0x100 + n % 0x100 == n
  {
    assert n / 0x1_0000 == n / 0x100_0000 * 0x100 + n / 0x1_0000 % 0x100;
    assert n / 0x100 == n / 0x1_0000 * 0x100 + n / 0x100 % 0x100;
  }

  /** `encode` appends the frame of a serialized message. */
  method Encode(out0: seq<byte>, payload: seq<byte>) returns (out: seq<byte>)
    requires |payload| < 0x8000_0000
    ensures out == out0 + Frame(payload)
  {
    out := out0 + [MAGIC_CODE];
    var length := |payload|;
    out := out + BigEndian(length);
    out := out + payload;
  }

  /**
   * What one call of `decode` finds at the front of the readable bytes. An exception leaves the
   * reader behind `size` bytes; a negative length closes the channel first.
   */
  datatype Step<M> = Incomplete | Found(m: M, size: nat) | Failed(size: nat, closes: bool)

  function DecodeStep<M>(parse: seq<byte> -> Option<M>, s: seq<byte>): (r: Step<M>)
    ensures r.Found? ==> 5 <= r.size <= |s|
    ensures r.Failed? ==> 1 <= r.size <= |s|
  {
    if |s| < 5 then Incomplete
    else if s[0] != MAGIC_CODE then Failed(1, false)
    else
      var length := ReadInt(s[1..5]);
      if length < 0 then Failed(5, true)
      else if length > |s| - 5 then Incomplete
      else match parse(s[5..5 + length])
        case None => Failed(5 + length, false)
        case Some(m) => Found(m, 5 + length)
  }

  /** What a step does, by the bytes alone. */
  lemma StepLayout<M>(parse: seq<byte> -> Option<M>, s: seq<byte>)
    ensures |s| < 5 ==> DecodeStep(parse, s) == Incomplete
    ensures |s| >= 5 && s[0] != 0x86 ==> DecodeStep(parse, s) == Failed(1, false)
    ensures |s| >= 5 && s[0] == 0x86 ==>
              var n := s[1] as int * 0x100_0000 + s[2] as int * 0x1_0000 + s[3] as int * 0x100 + s[4] as int;
              DecodeStep(parse, s) ==
              if n >= 0x8000_0000 then Failed(5, true)
              else if |s| < 5 + n then Incomplete
              else match parse(s[5..5 + n])
                case None => Failed(5 + n, false)
                case Some(m) => Found(m, 5 + n)
  {
    if |s| >= 5 {
      var t := s[1..5];
      assert t[0] == s[1] && t[1] == s[2] && t[2] == s[3] && t[3] == s[4];
    }
  }

  /** Messages delivered, bytes still to be decoded, exceptions thrown, and whether the channel is closed. */
  datatype Stream<M> = Stream(out: seq<M>, pending: seq<byte>, thrown: nat, closed: bool)

  /** One read: calling `decode` until it makes no progress or throws. */
  function Drain<M>(parse: seq<byte> -> Option<M>, s: seq<byte>): Stream<M>
    decreases |s|
  {
    match DecodeStep(parse, s)
    case Incomplete => Stream([], s, 0, false)
    case Failed(size, closes) => Stream([], if closes then [] else s[size..], 1, closes)
    case Found(m, size) =>
      var rest := Drain(parse, s[size..]);
      rest.(out := [m] + rest.out)
  }

  function Later<M>(st: Stream<M>, d: Stream<M>): Stream<M> {
    Stream(st.out + d.out, d.pending, st.thrown + d.thrown, d.closed)
  }

  /** A chunk arrives; after an exception decoding resumes where the reader stands. */
  function Feed<M>(parse: seq<byte> -> Option<M>, st: Stream<M>, chunk: seq<byte>): Stream<M> {
    if st.closed then st else Later(st, Drain(parse, st.pending + chunk))
  }

  function FeedAll<M>(parse: seq<byte> -> Option<M>, st: Stream<M>, chunks: seq<seq<byte>>): Stream<M>
    decreases chunks
  {
    if chunks == [] then st else FeedAll(parse, Feed(parse, st, chunks[0]), chunks[1..])
  }

  function Concat(chunks: seq<seq<byte>>): seq<byte> {
    if chunks == [] then [] else chunks[0] + Concat(chunks[1..])
  }

  /** What was delivered and thrown and what draining `s` will bring make up the whole. */
  ghost predicate Undelivered<M>(parse: seq<byte> -> Option<M>, list: seq<M>, thrown: nat, s: seq<byte>,
                                 all: Stream<M>) {
    all == Later(Stream(list, [], thrown, false), Drain(parse, s))
  }

  lemma UndeliveredStart<M>(parse: seq<byte> -> Option<M>, st: Stream<M>, s: seq<byte>)
    ensures Undelivered(parse, st.out, st.thrown, s, Later(st, Drain(parse, s)))
  {
  }

  lemma UndeliveredStep<M>(parse: seq<byte> -> Option<M>, list: seq<M>, thrown: nat, s: seq<byte>, all: Stream<M>)
    requires Undelivered(parse, list, thrown, s, all)
    ensures match DecodeStep(parse, s)
            case Incomplete => all == Stream(list, s, thrown, false)
            case Failed(size, closes) => all == Stream(list, if closes then [] else s[size..], thrown + 1, closes)
            case Found(m, size) => Undelivered(parse, list + [m], thrown, s[size..], all)
  {
    hide DecodeStep;
    assert list + [] == list;
    match DecodeStep(parse, s)
    case Found(m, size) =>
      var rest := Drain(parse, s[size..]);
      assert list + ([m] + rest.out) == (list + [m]) + rest.out;
    case _ =>
  }

  /** The decoder handler of one connection, over a buffer read through an index. */
  class ProtoDecoder<M> {
    const parse: seq<byte> -> Option<M>
    var buffer: seq<byte>
    var readerIndex: nat
    var list: seq<M>
    var thrown: nat
    var closed: bool

    constructor (parse: seq<byte> -> Option<M>)
      ensures this.parse == parse && Valid() && View() == Stream([], [], 0, false)
    {
      this.parse := parse;
      buffer, readerIndex, list, thrown, closed := [], 0, [], 0, false;
    }

    ghost predicate Valid()
      reads this
    {
      readerIndex <= |buffer|
    }

    /** On a closed channel no bytes are to be decoded any more. */
    ghost function View(): Stream<M>
      requires Valid()
      reads this
    {
      Stream(list, if closed then [] else buffer[readerIndex..], thrown, closed)
    }

    /** One call of `decode`; an incomplete frame leaves the reader where it was. */
    method Decode() returns (r: Outcome<()>)
      requires Valid()
      modifies this`readerIndex, this`list, this`closed
      ensures Valid()
      ensures match DecodeStep(parse, old(buffer[readerIndex..]))
              case Incomplete =>
                r == Ok(()) && readerIndex == old(readerIndex) && list == old(list) && closed == old(closed)
              case Found(m, size) =>
                && r == Ok(()) && readerIndex == old(readerIndex) + size
                && list == old(list) + [m] && closed == old(closed)
              case Failed(size, closes) =>
                && r == Throws && readerIndex == old(readerIndex) + size
                && list == old(list) && closed == (old(closed) || closes)
    {
      ghost var s := buffer[readerIndex..];
      var marked := readerIndex;
      if |buffer| - readerIndex < 5 {
        return Ok(());
      }
      var magic := buffer[readerIndex];
      readerIndex := readerIndex + 1;
      if magic != MAGIC_CODE {
        return Throws;
      }
      assert buffer[readerIndex..readerIndex + 4] == s[1..5];
      var length := ReadInt(buffer[readerIndex..readerIndex + 4]);
      readerIndex := readerIndex + 4;
      if length < 0 {
        closed := true;
      }
      if length > |buffer| - readerIndex {
        readerIndex := marked;
        return Ok(());
      }
      if length < 0 {
        // There is no array of a negative length.
        return Throws;
      }
      var bytes := buffer[readerIndex..readerIndex + length];
      assert bytes == s[5..5 + length];
      readerIndex := readerIndex + length;
      match parse(bytes) {
        case None => return Throws;
        case Some(model) => list := list + [model];
      }
      r := Ok(());
    }

    /** One turn of the loop, which an exception ends. */
    method DecodeNext(ghost s: seq<byte>, ghost all: Stream<M>) returns (r: Outcome<()>)
      requires Valid() && !closed && s == buffer[readerIndex..] && Undelivered(parse, list, thrown, s, all)
      modifies this`readerIndex, this`list, this`closed, this`thrown
      ensures Valid() && readerIndex >= old(readerIndex)
      ensures r.IsFailure() ==> View() == all
      ensures r.Ok? ==> !closed && Undelivered(parse, list, thrown, buffer[readerIndex..], all)
      ensures r.Ok? && readerIndex == old(readerIndex) ==> DecodeStep(parse, buffer[readerIndex..]).Incomplete?
    {
      hide DecodeStep, Undelivered;
      UndeliveredStep(parse, list, thrown, s, all);
      var oldReaderIndex := readerIndex;
      r := Decode();
      assert forall k :: 0 <= k <= |s| ==> s[k..] == buffer[oldReaderIndex + k..];
      if r.IsFailure() {
        thrown := thrown + 1;
      }
    }

    /** A chunk is appended and decoded until there is no progress or an exception. */
    method ChannelRead(chunk: seq<byte>)
      requires Valid()
      modifies this
      ensures Valid() && View() == Feed(parse, old(View()), chunk)
    {
      if closed {
        return;
      }
      hide Drain, DecodeStep, Undelivered;
      assert (buffer + chunk)[readerIndex..] == buffer[readerIndex..] + chunk;
      buffer := buffer + chunk;
      ghost var s := buffer[readerIndex..];
      ghost var all := Feed(parse, old(View()), chunk);
      UndeliveredStart(parse, View(), s);
      var progress := true;
      while progress
        invariant Valid() && !closed && s == buffer[readerIndex..]
        invariant Undelivered(parse, list, thrown, s, all)
        invariant !progress ==> DecodeStep(parse, s).Incomplete?
        decreases |buffer| - readerIndex, progress
      {
        var oldReaderIndex := readerIndex;
        var r := DecodeNext(s, all);
        if r.IsFailure() {
          return;
        }
        progress := readerIndex != oldReaderIndex;
        s := buffer[readerIndex..];
      }
      UndeliveredStep(parse, list, thrown, s, all);
    }
  }

  /** More bytes behind a complete or bad frame change nothing about it. */
  lemma StepExtends<M>(parse: seq<byte> -> Option<M>, a: seq<byte>, b: seq<byte>)
    requires !DecodeStep(parse, a).Incomplete?
    ensures DecodeStep(parse, a + b) == DecodeStep(parse, a)
  {
    assert (a + b)[1..5] == a[1..5];
    if a[0] == MAGIC_CODE && 0 <= ReadInt(a[1..5]) {
      var n := ReadInt(a[1..5]);
      assert (a + b)[5..5 + n] == a[5..5 + n];
    }
  }

  // ---- chunks ----

  /** Another read without new bytes would do nothing. */
  predicate Settled<M>(parse: seq<byte> -> Option<M>, st: Stream<M>) {
    st.closed || DecodeStep(parse, st.pending).Incomplete?
  }

  lemma PrefixIncomplete<M>(parse: seq<byte> -> Option<M>, a: seq<byte>, b: seq<byte>)
    requires DecodeStep(parse, a + b).Incomplete?
    ensures DecodeStep(parse, a).Incomplete?
  {
    hide DecodeStep;
    if !DecodeStep(parse, a).Incomplete? {
      StepExtends(parse, a, b);
    }
  }

  /** Draining what has arrived and then the rest is draining everything at once, if that settles. */
  lemma {:induction false} DrainSplits<M>(parse: seq<byte> -> Option<M>, a: seq<byte>, b: seq<byte>)
    requires Settled(parse, Drain(parse, a + b))
    ensures Drain(parse, a + b) == Feed(parse, Drain(parse, a), b) && Settled(parse, Drain(parse, a))
    decreases |a|
  {
    hide DecodeStep;
    match DecodeStep(parse, a)
    case Incomplete =>
      assert [] + Drain(parse, a + b).out == Drain(parse, a + b).out;
    case Failed(size, closes) =>
      StepExtends(parse, a, b);
      assert (a + b)[size..] == a[size..] + b;
      if !closes {
        PrefixIncomplete(parse, a[size..], b);
      }
    case Found(m, size) =>
      StepExtends(parse, a, b);
      assert (a + b)[size..] == a[size..] + b;
      DrainSplits(parse, a[size..], b);
      var rest := Drain(parse, a[size..]);
      LaterPrepended(m, rest, Drain(parse, rest.pending + b));
  }

  lemma LaterPrepended<M>(m: M, st: Stream<M>, d: Stream<M>)
    ensures Later(st.(out := [m] + st.out), d) == Later(st, d).(out := [m] + Later(st, d).out)
  {
    assert [m] + (st.out + d.out) == ([m] + st.out) + d.out;
  }

  lemma FeedTwice<M>(parse: seq<byte> -> Option<M>, st: Stream<M>, a: seq<byte>, b: seq<byte>)
    requires Settled(parse, Feed(parse, st, a + b))
    ensures Feed(parse, Feed(parse, st, a), b) == Feed(parse, st, a + b) && Settled(parse, Feed(parse, st, a))
  {
    hide Drain, DecodeStep;
    if !st.closed {
      var s := st.pending + a;
      assert s + b == st.pending + (a + b);
      DrainSplits(parse, s, b);
      var d := Drain(parse, s);
      var e := Drain(parse, d.pending + b);
      assert st.out + (d.out + e.out) == (st.out + d.out) + e.out;
    }
  }

  lemma FeedNothing<M>(parse: seq<byte> -> Option<M>, st: Stream<M>)
    requires Settled(parse, st)
    ensures Feed(parse, st, []) == st
  {
    hide DecodeStep;
    assert st.pending + [] == st.pending && st.out + [] == st.out;
  }

  /** Where the whole settles, any cut into chunks leads to the same. */
  lemma {:induction false} ChunkingIndependent<M>(parse: seq<byte> -> Option<M>, st: Stream<M>, chunks: seq<seq<byte>>)
    requires Settled(parse, st) && Settled(parse, Feed(parse, st, Concat(chunks)))
    ensures FeedAll(parse, st, chunks) == Feed(parse, st, Concat(chunks))
    decreases chunks
  {
    hide Feed, Settled;
    if chunks == [] {
      FeedNothing(parse, st);
    } else {
      FeedTwice(parse, st, chunks[0], Concat(chunks[1..]));
      ChunkingIndependent(parse, Feed(parse, st, chunks[0]), chunks[1..]);
    }
  }

  /** A step is decided by the bytes it takes, of which there must be five. */
  lemma StepNeeds<M>(parse: seq<byte> -> Option<M>, a: seq<byte>, k: nat)
    requires !DecodeStep(parse, a).Incomplete? && DecodeStep(parse, a).size <= k <= |a| && 5 <= k
    ensures DecodeStep(parse, a[..k]) == DecodeStep(parse, a)
  {
    assert a[..k][1..5] == a[1..5];
    if a[0] == MAGIC_CODE && 0 <= ReadInt(a[1..5]) {
      var n := ReadInt(a[1..5]);
      assert a[..k][5..5 + n] == a[5..5 + n];
    }
  }

  /** How much has come of the stream. */
  function Events<M>(st: Stream<M>): nat {
    |st.out| + st.thrown
  }

  /** If the whole does not settle, more comes of it when its last byte arrives later. */
  lemma {:induction false} LastByteLater<M>(parse: seq<byte> -> Option<M>, a: seq<byte>)
    requires !Settled(parse, Drain(parse, a))
    ensures |a| > 5
    ensures var k := |a| - 1; Events(Feed(parse, Drain(parse, a[..k]), a[k..])) > Events(Drain(parse, a))
    decreases |a|
  {
    hide DecodeStep;
    ShortIncomplete(parse, Drain(parse, a).pending);
    var k := |a| - 1;
    match DecodeStep(parse, a)
    case Failed(size, closes) =>
      StepNeeds(parse, a, k);
      assert a[..k][size..] + a[k..] == a[size..];
      AnotherEvent(parse, a[size..]);
    case Found(m, size) =>
      LastByteLater(parse, a[size..]);
      StepNeeds(parse, a, k);
      assert a[..k][size..] == a[size..][..k - size] && a[k..] == a[size..][k - size..];
  }

  lemma ShortIncomplete<M>(parse: seq<byte> -> Option<M>, s: seq<byte>)
    ensures |s| < 5 ==> DecodeStep(parse, s).Incomplete?
  {
  }

  lemma AnotherEvent<M>(parse: seq<byte> -> Option<M>, s: seq<byte>)
    requires !DecodeStep(parse, s).Incomplete?
    ensures Events(Drain(parse, s)) > 0
  {
    hide DecodeStep;
  }

  /** A way to cut the bytes, with no empty chunk. */
  predicate Cut(s: seq<byte>, chunks: seq<seq<byte>>) {
    Concat(chunks) == s && forall c :: c in chunks ==> c != []
  }

  ghost predicate SameForEveryCut<M>(parse: seq<byte> -> Option<M>, st: Stream<M>, s: seq<byte>) {
    forall chunks :: Cut(s, chunks) ==> FeedAll(parse, st, chunks) == Feed(parse, st, s)
  }

  lemma TwoChunks<M>(parse: seq<byte> -> Option<M>, st: Stream<M>, a: seq<byte>, b: seq<byte>)
    ensures Concat([a, b]) == a + b && FeedAll(parse, st, [a, b]) == Feed(parse, Feed(parse, st, a), b)
  {
    hide Feed;
    assert [a, b][1..] == [b] && [b][1..] == [];
    assert Concat([b]) == b + [] == b;
    assert FeedAll(parse, st, [a, b]) == FeedAll(parse, Feed(parse, st, a), [b]);
  }

  lemma EventsAdd<M>(parse: seq<byte> -> Option<M>, st: Stream<M>, a: seq<byte>, b: seq<byte>)
    requires !st.closed
    ensures Events(Feed(parse, Feed(parse, st, a), b)) ==
            Events(st) + Events(Feed(parse, Drain(parse, st.pending + a), b))
  {
    hide Drain;
  }

  /** One byte more leaves nothing to decode behind an exception. */
  lemma OneByteSettles<M>(parse: seq<byte> -> Option<M>, pending: seq<byte>, s: seq<byte>)
    requires DecodeStep(parse, pending).Incomplete? && |s| <= 1
    ensures Settled(parse, Drain(parse, pending + s))
  {
    hide DecodeStep;
    if s == [] {
      assert pending + s == pending;
    } else {
      var all := pending + s;
      assert all[..|pending|] == pending && all[|pending|..] == s;
      assert Drain(parse, pending) == Stream([], pending, 0, false);
      EventsOnce(parse, Drain(parse, pending), s);
      if !Settled(parse, Drain(parse, all)) {
        LastByteLater(parse, all);
      }
    }
  }

  lemma CutLastByte<M>(parse: seq<byte> -> Option<M>, st: Stream<M>, s: seq<byte>)
    requires Settled(parse, st) && !Settled(parse, Feed(parse, st, s))
    ensures |s| >= 2
    ensures var k := |s| - 1; Feed(parse, Feed(parse, st, s[..k]), s[k..]) != Feed(parse, st, s)
  {
    hide DecodeStep, Drain;
    if |s| <= 1 {
      OneByteSettles(parse, st.pending, s);
    }
    var all, k := st.pending + s, |s| - 1;
    LastByteLater(parse, all);
    assert all[..|all| - 1] == st.pending + s[..k] && all[|all| - 1..] == s[k..];
    EventsAdd(parse, st, s[..k], s[k..]);
    hide Feed;
    assert Events(Feed(parse, st, s)) == Events(st) + Events(Drain(parse, all)) by {
      EventsOnce(parse, st, s);
    }
  }

  lemma EventsOnce<M>(parse: seq<byte> -> Option<M>, st: Stream<M>, s: seq<byte>)
    requires !st.closed
    ensures Events(Feed(parse, st, s)) == Events(st) + Events(Drain(parse, st.pending + s))
  {
    hide Drain;
  }

  /**
   * For any bytes and any parser: every cut into chunks leads to the same messages, pending bytes
   * and exceptions if and only if nothing is left to decode behind the first exception.
   */
  lemma SameForEveryCutIffSettled<M>(parse: seq<byte> -> Option<M>, st: Stream<M>, s: seq<byte>)
    requires Settled(parse, st)
    ensures SameForEveryCut(parse, st, s) <==> Settled(parse, Feed(parse, st, s))
  {
    hide Feed, Settled, Concat, FeedAll;
    if Settled(parse, Feed(parse, st, s)) {
      forall chunks | Cut(s, chunks)
        ensures FeedAll(parse, st, chunks) == Feed(parse, st, s)
      {
        ChunkingIndependent(parse, st, chunks);
      }
    } else {
      CutLastByte(parse, st, s);
      var k := |s| - 1;
      TwoChunks(parse, st, s[..k], s[k..]);
      assert s[..k] + s[k..] == s;
      assert Cut(s, [s[..k], s[k..]]);
    }
  }

  /** For instance: the first of six zero bytes throws as soon as five have come, and the second in the next read. */
  lemma SixZeros<M>(parse: seq<byte> -> Option<M>)
    ensures !SameForEveryCut(parse, Stream([], [], 0, false), [0, 0, 0, 0, 0, 0])
  {
    var s: seq<byte> := [0, 0, 0, 0, 0, 0];
    assert [] + s == s && s[1..] == [0, 0, 0, 0, 0];
    assert Drain(parse, s) == Stream([], s[1..], 1, false);
    SameForEveryCutIffSettled(parse, Stream([], [], 0, false), s);
  }

  function Frames(payloads: seq<seq<byte>>): seq<byte>
    requires forall p :: p in payloads ==> |p| < 0x8000_0000
  {
    if payloads == [] then [] else Frame(payloads[0]) + Frames(payloads[1..])
  }

  lemma StepOfFrame<M>(parse: seq<byte> -> Option<M>, payload: seq<byte>, m: M, rest: seq<byte>)
    requires |payload| < 0x8000_0000 && parse(payload) == Some(m)
    ensures DecodeStep(parse, Frame(payload) + rest) == Found(m, |Frame(payload)|)
  {
    hide BigEndian, ReadInt;
    var n := |payload|;
    var s := Frame(payload) + rest;
    ReadsInt(n, []);
    assert BigEndian(n) + [] == BigEndian(n);
    assert s[1..5] == BigEndian(n);
    assert s[5..5 + n] == payload;
  }

  lemma {:induction false} DrainsFrames<M>(parse: seq<byte> -> Option<M>, payloads: seq<seq<byte>>, ms: seq<M>)
    requires |payloads| == |ms|
    requires forall i :: 0 <= i < |ms| ==> |payloads[i]| < 0x8000_0000 && parse(payloads[i]) == Some(ms[i])
    ensures Drain(parse, Frames(payloads)) == Stream(ms, [], 0, false)
  {
    if ms != [] {
      hide Frame, DecodeStep;
      DrainsFrames(parse, payloads[1..], ms[1..]);
      assert parse(payloads[0]) == Some(ms[0]);
      StepOfFrame(parse, payloads[0], ms[0], Frames(payloads[1..]));
      var f := Frame(payloads[0]);
      assert (f + Frames(payloads[1..]))[|f|..] == Frames(payloads[1..]);
      assert ms == [ms[0]] + ms[1..];
    }
  }

  /** What the decoder makes of a payload. */
  function ServerParser(unknown: (int, seq<byte>) -> Option<nat>): seq<byte> -> Option<seq<Value>> {
    b => JavaParse(unknown, b, Defaults(MODEL))
  }

  predicate Sendable(m: seq<Value>) {
    IsServerMessage(m) && |JavaBytes(m)| < 0x8000_0000
  }

  predicate AllSendable(ms: seq<seq<Value>>) {
    forall i :: 0 <= i < |ms| ==> Sendable(ms[i])
  }

  function Payloads(ms: seq<seq<Value>>): (ps: seq<seq<byte>>)
    requires AllSendable(ms)
    ensures |ps| == |ms|
    ensures forall p :: p in ps ==> |p| < 0x8000_0000
  {
    seq(|ms|, i requires 0 <= i < |ms| => JavaBytes(ms[i]))
  }

  function AllSurvivors(ms: seq<seq<Value>>): (rs: seq<seq<Value>>)
    requires AllSendable(ms)
    ensures |rs| == |ms|
  {
    seq(|ms|, i requires 0 <= i < |ms| => JavaSurvivors(ms[i]))
  }

  /**
   * However the frames of a list of messages are cut into chunks, the receiver gets what survives
   * of those messages, in order, with nothing left over; they are the same messages exactly if
   * all their strings are well-formed.
   */
  lemma {:induction false} MessagesArrive(unknown: (int, seq<byte>) -> Option<nat>, ms: seq<seq<Value>>,
                                          chunks: seq<seq<byte>>)
    requires AllSendable(ms) && Concat(chunks) == Frames(Payloads(ms))
    ensures FeedAll(ServerParser(unknown), Stream([], [], 0, false), chunks) == Stream(AllSurvivors(ms), [], 0, false)
    ensures AllSurvivors(ms) == ms <==> forall m :: m in ms ==> AllWellFormed(m)
  {
    hide JavaParse, JavaBytes, Frames, JavaSurvivors, FeedAll, Sendable, AllWellFormed;
    var ps, rs := Payloads(ms), AllSurvivors(ms);
    forall i | 0 <= i < |ms|
      ensures ServerParser(unknown)(ps[i]) == Some(rs[i]) && (rs[i] == ms[i] <==> AllWellFormed(ms[i]))
    {
      SurvivesServer(unknown, ms[i]);
    }
    FramesArrive(ServerParser(unknown), ps, rs, chunks);
    SameMessages(ms, rs);
  }

  lemma SurvivesServer(unknown: (int, seq<byte>) -> Option<nat>, m: seq<Value>)
    requires Sendable(m)
    ensures ServerParser(unknown)(JavaBytes(m)) == Some(JavaSurvivors(m))
    ensures JavaSurvivors(m) == m <==> AllWellFormed(m)
  {
    ServerRoundTrip(unknown, m);
  }

  lemma SameMessages(ms: seq<seq<Value>>, rs: seq<seq<Value>>)
    requires |rs| == |ms| && forall i :: 0 <= i < |ms| ==> (rs[i] == ms[i] <==> AllWellFormed(ms[i]))
    ensures rs == ms <==> forall m :: m in ms ==> AllWellFormed(m)
  {
    hide AllWellFormed;
    assert forall i :: 0 <= i < |ms| ==> ms[i] in ms;
  }

  /** The frames of any payloads, cut anyhow, give what parsing the payloads gives. */
  lemma FramesArrive<M>(parse: seq<byte> -> Option<M>, payloads: seq<seq<byte>>, ms: seq<M>, chunks: seq<seq<byte>>)
    requires |payloads| == |ms|
    requires forall i :: 0 <= i < |ms| ==> |payloads[i]| < 0x8000_0000 && parse(payloads[i]) == Some(ms[i])
    requires Concat(chunks) == Frames(payloads)
    ensures FeedAll(parse, Stream([], [], 0, false), chunks) == Stream(ms, [], 0, false)
  {
    hide Frames, FeedAll, Concat, Drain;
    DrainsFrames(parse, payloads, ms);
    assert [] + Frames(payloads) == Frames(payloads) && [] + ms == ms;
    ChunkingIndependent(parse, Stream([], [], 0, false), chunks);
  }
}
