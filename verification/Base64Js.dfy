/** The base64-js package: chunked encoding, and decoding into a fresh array. */
module Base64Js {
  import opened JsNumbers
  import opened Outcomes
  import opened Base64

  const MAX_CHUNK_LENGTH: nat := 16383

  function Lookup(n: code): string
    requires n < 64
  {
    CharOf(DEFAULT, n)
  }

  function TripletToBase64(num: nat): string
    requires num < 0x100_0000
  {
    Lookup(num / 0x4_0000) + Lookup(num / 0x1000 % 64) + Lookup(num / 64 % 64) + Lookup(num % 64)
  }

  /** The 24 bits of three bytes have the codes of the three bytes. */
  lemma TripletIsQuad(x: byte, y: byte, z: byte)
    ensures TripletToBase64(x as int * 0x1_0000 + y as int * 0x100 + z) == Spell(DEFAULT, Quad([x, y, z]))
  {
    hide CharOf;
    var num: int := x as int * 0x1_0000 + y as int * 0x100 + z;
    TripletBits(x, y, z);
    SpellFour(DEFAULT, Quad([x, y, z]));
  }

  lemma TripletBits(x: byte, y: byte, z: byte)
    ensures var num := x as int * 0x1_0000 + y as int * 0x100 + z;
            num / 0x4_0000 == x / 4 && num / 0x1000 % 64 == x % 4 * 16 + y / 16 &&
            num / 64 % 64 == y % 16 * 4 + z / 64 && num % 64 == z % 64
  {
    var num: int := x as int * 0x1_0000 + y as int * 0x100 + z;
    DivModUnique(num, x / 4, 0x4_0000, x % 4 * 0x1_0000 + y as int * 0x100 + z);
    DivModUnique(num, x as int * 16 + y / 16, 0x1000, y % 16 * 0x100 + z);
    DivModUnique(x as int * 16 + y / 16, x / 4, 64, x % 4 * 16 + y / 16);
    DivModUnique(num, x as int * 0x400 + y as int * 4 + z / 64, 64, z % 64);
    DivModUnique(x as int * 0x400 + y as int * 4 + z / 64, x as int * 16 + y / 16, 64, y % 16 * 4 + z / 64);
  }

  /** Full triples only: `end - start` is a multiple of three. */
  method EncodeChunk(uint8: seq<byte>, start: nat, end: nat) returns (output: string)
    requires start <= end <= |uint8| && (end - start) % 3 == 0
    ensures output == Encoded(DEFAULT, uint8[start..end])
  {
    hide Encoded, Quad, TripletToBase64;
    output := "";
    var i := start;
    ghost var all := Encoded(DEFAULT, uint8[start..end]);
    assert "" + all == all;
    while i < end
      invariant start <= i <= end && (end - i) % 3 == 0
      invariant output + Encoded(DEFAULT, uint8[i..end]) == all
    {
      ghost var t := uint8[i..end];
      EncodedStep(DEFAULT, t, output, all);
      TripletIsQuad(t[0], t[1], t[2]);
      QuadOfThree(t);
      assert |t| > 3 ==> t[3..] == uint8[i + 3..end];
      assert |t| == 3 ==> uint8[i + 3..end] == [];
      var tmp := uint8[i] as int * 0x1_0000 + uint8[i + 1] as int * 0x100 + uint8[i + 2];
      output := output + TripletToBase64(tmp);
      i := i + 3;
    }
    assert uint8[i..end] == [];
    EncodedNothing();
    assert output + "" == output;
  }

  lemma QuadOfThree(t: seq<byte>)
    requires |t| >= 3
    ensures Quad(t) == Quad([t[0], t[1], t[2]])
  {
  }

  lemma EncodedNothing()
    ensures Encoded(DEFAULT, []) == ""
  {
  }

  /** Encoding splits at any multiple of three bytes. */
  lemma EncodedFromThree(al: Alphabet, s: seq<byte>)
    requires |s| >= 3
    ensures Encoded(al, s) == Spell(al, Quad(s)) + Encoded(al, s[3..])
  {
    hide Quad, Spell;
  }

  lemma {:induction false} EncodedConcat(al: Alphabet, a: seq<byte>, b: seq<byte>)
    requires |a| % 3 == 0
    ensures Encoded(al, a + b) == Encoded(al, a) + Encoded(al, b)
    decreases |a|
  {
    hide Quad, Spell;
    if a == [] {
      assert a + b == b && "" + Encoded(al, b) == Encoded(al, b);
    } else {
      var s := a + b;
      EncodedConcat(al, a[3..], b);
      QuadPrefix(a, b);
      assert s[3..] == a[3..] + b;
      EncodedFromThree(al, a);
      EncodedFromThree(al, s);
      hide Encoded;
      assert Spell(al, Quad(a)) + (Encoded(al, a[3..]) + Encoded(al, b)) == Encoded(al, a) + Encoded(al, b);
    }
  }

  lemma QuadPrefix(a: seq<byte>, b: seq<byte>)
    requires |a| >= 3
    ensures Quad(a + b) == Quad(a)
  {
  }

  /** `fromByteArray`: chunks of 16383 bytes, then one or two bytes padded by hand. */
  method FromByteArray(uint8: seq<byte>) returns (s: string)
    ensures s == Encoded(DEFAULT, uint8)
  {
    hide Encoded, Quad, CharOf;
    var len := |uint8|;
    var extraBytes := len % 3;
    s := "";
    var i, len2 := 0, len - extraBytes;
    EncodedNothing();
    assert uint8[..0] == [];
    Thirds(len, extraBytes);
    while i < len2
      invariant 0 <= i && i % 3 == 0
      invariant s == Encoded(DEFAULT, uint8[..if i <= len2 then i else len2])
      decreases len2 - i
    {
      var end := if i + MAX_CHUNK_LENGTH > len2 then len2 else i + MAX_CHUNK_LENGTH;
      ChunkThirds(i, len2);
      var part := EncodeChunk(uint8, i, end);
      EncodedConcat(DEFAULT, uint8[..i], uint8[i..end]);
      assert uint8[..end] == uint8[..i] + uint8[i..end];
      s := s + part;
      i := i + MAX_CHUNK_LENGTH;
    }
    EncodedConcat(DEFAULT, uint8[..len2], uint8[len2..]);
    assert uint8 == uint8[..len2] + uint8[len2..];
    var last := EncodeTail(uint8[len2..]);
    s := s + last;
  }

  lemma Thirds(len: nat, extraBytes: nat)
    requires extraBytes == len % 3
    ensures len >= extraBytes && (len - extraBytes) % 3 == 0
  {
  }

  /** A chunk is a whole number of triples, whether it is full or the last one. */
  lemma ChunkThirds(i: nat, len2: nat)
    requires i % 3 == 0 && len2 % 3 == 0 && i < len2
    ensures (len2 - i) % 3 == 0 && MAX_CHUNK_LENGTH % 3 == 0 && (i + MAX_CHUNK_LENGTH) % 3 == 0
  {
  }

  /** The one or two bytes behind the last full triple. */
  method EncodeTail(t: seq<byte>) returns (s: string)
    requires |t| < 3
    ensures s == Encoded(DEFAULT, t)
  {
    hide CharOf, Encoded;
    if |t| == 1 {
      var tmp: int := t[0];
      OneByteTail(t);
      s := Lookup(tmp / 4) + Lookup(tmp * 16 % 64) + "==";
    } else if |t| == 2 {
      var tmp: int := t[0] as int * 0x100 + t[1];
      TwoByteBits(t[0], t[1]);
      TwoByteTail(t);
      s := Lookup(tmp / 0x400) + Lookup(tmp / 16 % 64) + Lookup(tmp * 4 % 64) + "=";
    } else {
      EncodedNothing();
      s := "";
    }
  }

  lemma TwoByteBits(x: byte, y: byte)
    ensures var tmp := x as int * 0x100 + y;
            tmp / 0x400 == x / 4 && tmp / 16 % 64 == x % 4 * 16 + y / 16 && tmp * 4 % 64 == y % 16 * 4
  {
    var tmp: int := x as int * 0x100 + y;
    DivModUnique(tmp, x / 4, 0x400, x % 4 * 0x100 + y);
    DivModUnique(tmp, x as int * 16 + y / 16, 16, y % 16);
    DivModUnique(x as int * 16 + y / 16, x / 4, 64, x % 4 * 16 + y / 16);
    DivModUnique(tmp * 4, x as int * 16 + y / 16, 64, y % 16 * 4);
  }

  lemma ShortIsSpell(t: seq<byte>)
    requires 1 <= |t| < 3
    ensures Encoded(DEFAULT, t) == Spell(DEFAULT, Quad(t))
  {
    hide Spell, Quad, CharOf;
    EncodedNothing();
    assert Spell(DEFAULT, Quad(t)) + "" == Spell(DEFAULT, Quad(t));
  }

  lemma OneByteTail(t: seq<byte>)
    requires |t| == 1
    ensures Encoded(DEFAULT, t) == Lookup(t[0] / 4) + Lookup(t[0] as int * 16 % 64) + "=="
  {
    hide Base64.CharOf, Base64.Spell, Base64.Encoded;
    ShortIsSpell(t);
    SpellFour(DEFAULT, Quad(t));
    PadChar();
    var x: int := t[0];
    DivModUnique(x * 16, x / 4, 64, x % 4 * 16);
    TwoPads(Lookup(x / 4) + Lookup(x * 16 % 64));
  }

  lemma TwoByteTail(t: seq<byte>)
    requires |t| == 2
    ensures Encoded(DEFAULT, t) ==
            Lookup(t[0] / 4) + Lookup(t[0] % 4 * 16 + t[1] / 16) + Lookup(t[1] % 16 * 4) + "="
  {
    hide Base64.CharOf, Base64.Spell, Base64.Encoded;
    ShortIsSpell(t);
    SpellFour(DEFAULT, Quad(t));
    PadChar();
  }

  lemma TwoPads(s: string)
    ensures s + "=" + "=" == s + "=="
  {
  }

  lemma PadChar()
    ensures CharOf(DEFAULT, 64) == "="
  {
  }

  /** Both encoders of the bundle give the same string. */
  method EncodersAgree(a: seq<byte>) returns (s: string, t: string)
    ensures s == t
  {
    s := FromByteArray(a);
    t := EncodeByteArray(a, DEFAULT);
  }

  // ---- decoding ----

  /** `revLookup`, where a character outside the tables counts as zero bits. */
  function Rev(c: char): (n: code)
    ensures n < 64
  {
    match CodeOf(c)
    case None => 0
    case Some(n) => if n == 64 then 0 else n
  }

  function IndexOfPad(s: string): (v: nat)
    ensures v <= |s|
    ensures forall i :: 0 <= i < v ==> s[i] != '='
    ensures v < |s| ==> s[v] == '='
  {
    if s == "" || s[0] == '=' then 0
    else
      var v := IndexOfPad(s[1..]);
      assert forall i :: 1 <= i <= v ==> s[i] == s[1..][i - 1];
      1 + v
  }

  function Group(s: string): (b: seq<byte>)
    requires |s| >= 4
    ensures |b| == 3
  {
    var tmp := Rev(s[0]) * 0x4_0000 + Rev(s[1]) * 0x1000 + Rev(s[2]) * 64 + Rev(s[3]);
    [tmp / 0x1_0000, tmp / 0x100 % 0x100, tmp % 0x100]
  }

  /** The bytes of the complete groups at the front. */
  function Groups(s: string, n: nat): (b: seq<byte>)
    requires 4 * n <= |s|
    ensures |b| == 3 * n
  {
    if n == 0 then [] else Group(s) + Groups(s[4..], n - 1)
  }

  /** The bytes of an incomplete group with one or two padding characters. */
  function Tail(s: string, placeHolders: nat): (b: seq<byte>)
    requires placeHolders == 2 ==> |s| >= 2
    requires placeHolders == 1 ==> |s| >= 3
    ensures |b| == if placeHolders == 2 then 1 else if placeHolders == 1 then 2 else 0
  {
    if placeHolders == 2 then [(Rev(s[0]) * 4 + Rev(s[1]) / 16) % 0x100]
    else if placeHolders == 1 then
      var tmp := Rev(s[0]) * 0x400 + Rev(s[1]) * 16 + Rev(s[2]) / 4;
      [tmp / 0x100 % 0x100, tmp % 0x100]
    else []
  }

  /** `getLens` on a string whose length is a multiple of four. */
  function GetLens(s: string): (r: (nat, nat))
    requires |s| % 4 == 0
    ensures r.0 <= |s|
    ensures r.1 == 0 ==> r.0 % 4 == 0
    ensures r.1 > 0 ==> r.1 == 4 - r.0 % 4
  {
    var validLen := IndexOfPad(s);
    (validLen, if validLen == |s| then 0 else 4 - validLen % 4)
  }

  function ByteLength(validLen: nat, placeHolders: nat): int {
    (validLen + placeHolders) * 3 / 4 - placeHolders
  }

  /** How many groups the decoding loop takes before the tail. */
  function GroupCount(validLen: nat, placeHolders: nat): (n: nat)
    requires placeHolders == 0 ==> validLen % 4 == 0
    requires placeHolders > 0 ==> placeHolders == 4 - validLen % 4
    ensures 4 * n <= validLen
  {
    if placeHolders > 0 && validLen % 4 == 0 then if validLen == 0 then 0 else validLen / 4 - 1
    else validLen / 4
  }

  function Zeros(n: nat): (b: seq<byte>)
    ensures |b| == n
  {
    seq(n, _ => 0)
  }

  /**
   * `toByteArray`: a length that is no multiple of four throws, and so does padding
   * in first place (a negative array length); a group of nothing but padding leaves
   * zero bytes behind.
   */
  function Bytes(s: string): (r: Outcome<seq<byte>>)
    ensures !r.Backward?
  {
    if |s| % 4 > 0 then Throws
    else
      var (validLen, placeHolders) := GetLens(s);
      var size := ByteLength(validLen, placeHolders);
      if size < 0 then Throws
      else
        SizeOfGroups(validLen, placeHolders);
        var n := GroupCount(validLen, placeHolders);
        var found := Groups(s, n) + Tail(s[4 * n..], placeHolders);
        Ok(found + Zeros(size - |found|))
  }

  lemma SizeOfGroups(validLen: nat, placeHolders: nat)
    requires placeHolders == 0 ==> validLen % 4 == 0
    requires placeHolders > 0 ==> placeHolders == 4 - validLen % 4
    requires ByteLength(validLen, placeHolders) >= 0
    ensures var n := GroupCount(validLen, placeHolders);
            3 * n + (if placeHolders == 2 then 1 else if placeHolders == 1 then 2 else 0)
            <= ByteLength(validLen, placeHolders)
    ensures var n := GroupCount(validLen, placeHolders);
            var len: int := if placeHolders > 0 then (validLen as int) - 4 else validLen;
            (n > 0 ==> 4 * (n - 1) < len) && len <= 4 * n
  {
  }

  lemma BytesAre(s: string)
    requires |s| % 4 == 0
    ensures var (validLen, placeHolders) := GetLens(s);
            var size := ByteLength(validLen, placeHolders);
            if size < 0 then Bytes(s) == Throws
            else
              var n := GroupCount(validLen, placeHolders);
              var found := Groups(s, n) + Tail(s[4 * n..], placeHolders);
              |found| <= size && Bytes(s) == Ok(found + Zeros(size - |found|))
  {
    hide Groups, Tail, GetLens, GroupCount;
    var (validLen, placeHolders) := GetLens(s);
    if ByteLength(validLen, placeHolders) >= 0 {
      SizeOfGroups(validLen, placeHolders);
    }
  }

  /** It throws on a length that is no multiple of four and on padding in first place, and only then. */
  lemma BytesThrow(s: string)
    ensures Bytes(s) == Throws <==> |s| % 4 != 0 || (s != "" && s[0] == '=')
  {
    if |s| % 4 == 0 {
      hide Groups, Tail;
      BytesAre(s);
    }
  }

  /** The first padding character starts a group. */
  predicate PaddingStartsGroup(s: string) {
    IndexOfPad(s) < |s| && IndexOfPad(s) % 4 == 0
  }

  /**
   * When it does not throw, the groups and the tail fill the whole array if and only if the first
   * padding character starts no group. Otherwise the group before it is lost as well, and two
   * zero bytes are left.
   */
  lemma ZerosAreLeft(s: string)
    requires Bytes(s).Ok?
    ensures var (validLen, placeHolders) := GetLens(s);
            var n := GroupCount(validLen, placeHolders);
            var found := Groups(s, n) + Tail(s[4 * n..], placeHolders);
            && (Bytes(s) == Ok(found) <==> !PaddingStartsGroup(s))
            && (PaddingStartsGroup(s) ==> n == IndexOfPad(s) / 4 - 1 && Bytes(s) == Ok(Groups(s, n) + Zeros(2)))
  {
    BytesAre(s);
    var (validLen, placeHolders) := GetLens(s);
    GroupsFill(validLen, placeHolders);
    PadsOfGroup(s);
    hide Groups, Tail, Bytes, GetLens, GroupCount, ByteLength, PaddingStartsGroup;
    var n := GroupCount(validLen, placeHolders);
    var tail := Tail(s[4 * n..], placeHolders);
    assert Groups(s, n) + tail + Zeros(0) == Groups(s, n) + tail;
    assert tail == [] ==> Groups(s, n) + tail == Groups(s, n);
  }

  lemma PadsOfGroup(s: string)
    requires |s| % 4 == 0
    ensures PaddingStartsGroup(s) <==> GetLens(s).1 == 4
    ensures GetLens(s).0 == IndexOfPad(s)
  {
  }

  lemma GroupsFill(validLen: nat, placeHolders: nat)
    requires placeHolders == 0 ==> validLen % 4 == 0
    requires placeHolders > 0 ==> placeHolders == 4 - validLen % 4
    requires ByteLength(validLen, placeHolders) >= 0
    ensures var n := GroupCount(validLen, placeHolders);
            && ByteLength(validLen, placeHolders) ==
               3 * n + (if placeHolders == 4 || placeHolders == 1 then 2 else if placeHolders == 2 then 1 else 0)
            && (placeHolders == 4 ==> n == validLen / 4 - 1)
  {
  }

  /** A group of nothing but padding: the full group before it is lost and two zero bytes are left. */
  lemma PaddingOnlyGroup()
    ensures Bytes("TWFu====") == Ok([0, 0])
  {
    hide Group;
    var s := "TWFu====";
    assert s[4] == '=';
    assert IndexOfPad(s) == 4;
    BytesAre(s);
    assert [] + [] + Zeros(2) == [0, 0];
  }

  method ToByteArray(b64: string) returns (r: Outcome<array<byte>>)
    ensures match Bytes(b64)
            case Ok(b) => r.Ok? && fresh(r.value) && r.value[..] == b
            case _ => r == Throws
  {
    if |b64| % 4 > 0 {
      return Throws;
    }
    hide Groups, Tail, Zeros, Bytes, GetLens, ByteLength, GroupCount;
    BytesAre(b64);
    var lens := GetLens(b64);
    var size := ByteLength(lens.0, lens.1);
    if size < 0 {
      return Throws;
    }
    var arr := new byte[size](_ => 0);
    Fill(b64, arr, lens.0, lens.1);
    r := Ok(arr);
  }

  /** The groups and the tail go into the fresh array. */
  method Fill(b64: string, arr: array<byte>, validLen: nat, placeHolders: nat)
    requires |b64| % 4 == 0 && (validLen, placeHolders) == GetLens(b64)
    requires arr.Length == ByteLength(validLen, placeHolders) && forall i :: 0 <= i < arr.Length ==> arr[i] == 0
    modifies arr
    ensures var n := GroupCount(validLen, placeHolders);
            var found := Groups(b64, n) + Tail(b64[4 * n..], placeHolders);
            |found| <= arr.Length && arr[..] == found + Zeros(arr.Length - |found|)
  {
    hide Groups, Tail, Zeros, GetLens, ByteLength, GroupCount;
    SizeOfGroups(validLen, placeHolders);
    ZerosAre(arr[..]);
    var len: int := if placeHolders > 0 then (validLen as int) - 4 else validLen;
    ghost var n := GroupCount(validLen, placeHolders);
    var i, curByte := DecodeGroups(b64, arr, len, n);
    ghost var groups, tail, before := Groups(b64, n), Tail(b64[4 * n..], placeHolders), arr[..];
    Assembled(before, groups, tail);
    assert arr[..curByte] == before[..|groups|] && arr[|groups + tail|..] == before[|groups + tail|..];
    curByte := DecodeTail(b64, arr, i, curByte, placeHolders);
  }

  /** Writing the tail over the first zeros behind the groups. */
  lemma Assembled(a: seq<byte>, groups: seq<byte>, tail: seq<byte>)
    requires |groups| + |tail| <= |a| && a == groups + Zeros(|a| - |groups|)
    ensures var n := |groups + tail|;
            a[..|groups|] + tail + a[n..] == (groups + tail) + Zeros(|a| - n)
  {
  }

  lemma ZerosAre(s: seq<byte>)
    requires forall i :: 0 <= i < |s| ==> s[i] == 0
    ensures s == Zeros(|s|)
  {
  }

  /** The main loop: three bytes for every four characters before position `len`. */
  method DecodeGroups(b64: string, arr: array<byte>, len: int, ghost n: nat) returns (i: nat, curByte: nat)
    requires 4 * n <= |b64| && 3 * n <= arr.Length && arr[..] == Zeros(arr.Length)
    requires (n > 0 ==> 4 * (n - 1) < len) && len <= 4 * n
    modifies arr
    ensures i == 4 * n && curByte == 3 * n
    ensures arr[..] == Groups(b64, n) + Zeros(arr.Length - 3 * n)
  {
    hide Group, Groups;
    curByte := 0;
    i := 0;
    ghost var done := 0;
    NoGroups(b64);
    while i < len
      invariant i == 4 * done && done <= n && curByte == 3 * done && (i >= len ==> done == n)
      invariant arr[..curByte] == Groups(b64, done)
      invariant forall j :: curByte <= j < arr.Length ==> arr[j] == 0
    {
      GroupsAppend(b64, done);
      ghost var before := arr[..curByte];
      var g := Group(b64[i..]);
      arr[curByte] := g[0];
      arr[curByte + 1] := g[1];
      arr[curByte + 2] := g[2];
      assert arr[..curByte + 3] == before + g;
      curByte := curByte + 3;
      i := i + 4;
      done := done + 1;
    }
    assert arr[..] == arr[..curByte] + Zeros(arr.Length - curByte);
  }

  lemma NoGroups(s: string)
    ensures Groups(s, 0) == []
  {
  }

  method DecodeTail(b64: string, arr: array<byte>, i: nat, curByte0: nat, placeHolders: nat) returns (curByte: nat)
    requires i <= |b64| && (placeHolders == 2 ==> i + 2 <= |b64|) && (placeHolders == 1 ==> i + 3 <= |b64|)
    requires curByte0 + |Tail(b64[i..], placeHolders)| <= arr.Length
    modifies arr
    ensures curByte == curByte0 + |Tail(b64[i..], placeHolders)|
    ensures arr[..] == old(arr[..curByte0]) + Tail(b64[i..], placeHolders) + old(arr[curByte..])
  {
    hide Rev;
    ghost var s := b64[i..];
    curByte := curByte0;
    if placeHolders == 2 {
      var tmp := Rev(b64[i]) * 4 + Rev(b64[i + 1]) / 16;
      arr[curByte] := tmp % 0x100;
      curByte := curByte + 1;
    }
    if placeHolders == 1 {
      var tmp := Rev(b64[i]) * 0x400 + Rev(b64[i + 1]) * 16 + Rev(b64[i + 2]) / 4;
      arr[curByte] := tmp / 0x100 % 0x100;
      arr[curByte + 1] := tmp % 0x100;
      curByte := curByte + 2;
    }
  }

  lemma {:induction false} GroupsAppend(s: string, n: nat)
    requires 4 * (n + 1) <= |s|
    ensures Groups(s, n + 1) == Groups(s, n) + Group(s[4 * n..])
  {
    hide Group;
    if n > 0 {
      GroupsAppend(s[4..], n - 1);
      assert s[4..][4 * (n - 1)..] == s[4 * n..];
      assert Groups(s, n + 1) == Group(s) + Groups(s[4..], n);
      assert (Group(s) + Groups(s[4..], n - 1)) + Group(s[4 * n..]) ==
             Group(s) + (Groups(s[4..], n - 1) + Group(s[4 * n..]));
    } else {
      assert Groups(s, 1) == Group(s) + [] == Group(s);
      assert s[0..] == s && [] + Group(s) == Group(s);
    }
  }

  // ---- round trip ----

  /** How many padding characters the encoding of `n` bytes ends in. */
  function Padding(n: nat): (p: nat)
    ensures p <= 2
  {
    (3 - n % 3) % 3
  }

  /** `e` has the layout of an encoding of `b`, and its pieces decode to `b`. */
  ghost predicate ReadsBack(e: string, b: seq<byte>) {
    |e| == 4 * ((|b| + 2) / 3) && PiecesBack(e, b, |b| / 3, Padding(|b|))
  }

  /** In `full` groups and a tail with so many padding characters. */
  ghost predicate PiecesBack(e: string, b: seq<byte>, full: nat, pad: nat) {
    && 4 * full <= |e| && 3 * full <= |b| && pad <= |e|
    && (pad == 2 ==> |e| >= 4 * full + 2) && (pad == 1 ==> |e| >= 4 * full + 3)
    && (forall i :: 0 <= i < |e| - pad ==> e[i] != '=')
    && (pad > 0 ==> e[|e| - pad] == '=')
    && Groups(e, full) == b[..3 * full]
    && Tail(e[4 * full..], pad) == b[3 * full..]
  }

  lemma RevOfChar(n: code)
    requires n < 64
    ensures |CharOf(DEFAULT, n)| == 1 && CharOf(DEFAULT, n)[0] != '=' && Rev(CharOf(DEFAULT, n)[0]) == n
  {
    CodeOfCharOf(DEFAULT, n);
  }

  /** The four characters of a quad one by one. */
  lemma SpelledChars(q: seq<code>)
    requires |q| == 4
    ensures var s := Spell(DEFAULT, q);
            |s| == 4 && forall i :: 0 <= i < 4 ==> [s[i]] == CharOf(DEFAULT, q[i])
  {
    hide CharOf, Spell;
    SpellFour(DEFAULT, q);
    PadChar();
    forall i | 0 <= i < 4
      ensures |CharOf(DEFAULT, q[i])| == 1
    {
      if q[i] < 64 {
        RevOfChar(q[i]);
      }
    }
  }

  lemma GroupBits(x: byte, y: byte, z: byte)
    ensures var tmp := x / 4 * 0x4_0000 + (x % 4 * 16 + y / 16) * 0x1000 + (y % 16 * 4 + z / 64) * 64 + z % 64;
            tmp / 0x1_0000 == x as int && tmp / 0x100 % 0x100 == y as int && tmp % 0x100 == z as int
  {
    var tmp: int := x as int * 0x1_0000 + y as int * 0x100 + z;
    assert tmp == x / 4 * 0x4_0000 + (x % 4 * 16 + y / 16) * 0x1000 + (y % 16 * 4 + z / 64) * 64 + z % 64;
    DivModUnique(tmp, x as int, 0x1_0000, y as int * 0x100 + z);
    DivModUnique(tmp, x as int * 0x100 + y, 0x100, z as int);
    DivModUnique(x as int * 0x100 + y, x as int, 0x100, y as int);
  }

  lemma GroupOfQuad(b: seq<byte>, rest: string)
    requires |b| >= 3
    ensures |Spell(DEFAULT, Quad(b))| == 4 && Group(Spell(DEFAULT, Quad(b)) + rest) == b[..3]
  {
    hide Base64.CharOf, Base64.Spell, Rev;
    var q := Quad(b);
    SpelledChars(q);
    RevOfChar(q[0]);
    RevOfChar(q[1]);
    RevOfChar(q[2]);
    RevOfChar(q[3]);
    GroupBits(b[0], b[1], b[2]);
    assert b[..3] == [b[0], b[1], b[2]];
  }

  lemma TailBits(x: byte, y: byte)
    ensures (x / 4 * 4 + x % 4 * 16 / 16) % 0x100 == x as int
    ensures var tmp := x / 4 * 0x400 + (x % 4 * 16 + y / 16) * 16 + y % 16 * 4 / 4;
            tmp / 0x100 % 0x100 == x as int && tmp % 0x100 == y as int
  {
    var tmp: int := x as int * 0x100 + y;
    assert tmp == x / 4 * 0x400 + (x % 4 * 16 + y / 16) * 16 + y % 16 * 4 / 4;
    DivModUnique(tmp, x as int, 0x100, y as int);
  }

  lemma OneReadsBack(x: byte, e: string)
    requires |e| == 4 && Rev(e[0]) == x / 4 && Rev(e[1]) == x % 4 * 16
    requires e[0] != '=' && e[1] != '=' && e[2] == '='
    ensures ReadsBack(e, [x])
  {
    hide Rev;
    TailBits(x, 0);
    assert e[0..] == e && [x][0..] == [x];
  }

  lemma TwoReadBack(x: byte, y: byte, e: string)
    requires |e| == 4 && Rev(e[0]) == x / 4 && Rev(e[1]) == x % 4 * 16 + y / 16 && Rev(e[2]) == y % 16 * 4
    requires e[0] != '=' && e[1] != '=' && e[2] != '=' && e[3] == '='
    ensures ReadsBack(e, [x, y])
  {
    hide Rev;
    TailBits(x, y);
    assert e[0..] == e && [x, y][0..] == [x, y];
  }

  lemma ShortReadsBack(b: seq<byte>)
    requires 1 <= |b| < 3
    ensures ReadsBack(Encoded(DEFAULT, b), b)
  {
    hide Base64.CharOf, Base64.Spell, Base64.Encoded, Rev, ReadsBack;
    var q, e := Quad(b), Encoded(DEFAULT, b);
    ShortIsSpell(b);
    SpelledChars(q);
    PadChar();
    RevOfChar(q[0]);
    RevOfChar(q[1]);
    if |b| == 1 {
      OneReadsBack(b[0], e);
      assert b == [b[0]];
    } else {
      RevOfChar(q[2]);
      TwoReadBack(b[0], b[1], e);
      assert b == [b[0], b[1]];
    }
  }

  lemma LongReadsBack(b: seq<byte>, e: string)
    requires |b| >= 3 && ReadsBack(e, b[3..])
    ensures ReadsBack(Spell(DEFAULT, Quad(b)) + e, b)
  {
    hide Base64.CharOf, Base64.Spell, Rev, Base64.Quad, ReadsBack;
    var q := Quad(b);
    var s := Spell(DEFAULT, q);
    SpelledChars(q);
    QuadCodes(b);
    forall i | 0 <= i < 4
      ensures s[i] != '='
    {
      RevOfChar(q[i]);
    }
    GroupOfQuad(b, e);
    ReadsOneMore(s, e, b);
  }

  lemma ReadsOneMore(s: string, e: string, b: seq<byte>)
    requires |s| == 4 && (forall i :: 0 <= i < 4 ==> s[i] != '=')
    requires |b| >= 3 && ReadsBack(e, b[3..]) && Group(s + e) == b[..3]
    ensures ReadsBack(s + e, b)
  {
    hide Group, PiecesBack, Padding;
    ThreeLess(|b|);
    PiecesBehind(s, e, b, |b| / 3 - 1, Padding(|b|));
  }

  lemma PiecesBehind(s: string, e: string, b: seq<byte>, k: nat, pad: nat)
    requires |s| == 4 && (forall i :: 0 <= i < 4 ==> s[i] != '=')
    requires 3 * k + 3 <= |b| && PiecesBack(e, b[3..], k, pad) && Group(s + e) == b[..3]
    ensures PiecesBack(s + e, b, k + 1, pad)
  {
    hide Group, Groups, Tail;
    PadsBehind(s, e, pad);
    GroupsBehind(s, e, b, k);
    assert (s + e)[4 * (k + 1)..] == e[4 * k..];
    assert b[3 * (k + 1)..] == b[3..][3 * k..];
  }

  lemma PadsBehind(s: string, e: string, pad: nat)
    requires |s| == 4 && (forall i :: 0 <= i < 4 ==> s[i] != '=') && pad <= |e|
    requires (forall i :: 0 <= i < |e| - pad ==> e[i] != '=') && (pad > 0 ==> e[|e| - pad] == '=')
    ensures forall i :: 0 <= i < |s + e| - pad ==> (s + e)[i] != '='
    ensures pad > 0 ==> (s + e)[|s + e| - pad] == '='
  {
  }

  lemma GroupsBehind(s: string, e: string, b: seq<byte>, k: nat)
    requires |s| == 4 && 3 * k + 3 <= |b| && 4 * k <= |e|
    requires Group(s + e) == b[..3] && Groups(e, k) == b[3..][..3 * k]
    ensures Groups(s + e, k + 1) == b[..3 * (k + 1)]
  {
    hide Group, Groups;
    assert (s + e)[4..] == e;
    GroupsStep(s + e, k + 1);
    assert b[..3] + b[3..][..3 * k] == b[..3 * (k + 1)];
  }

  lemma ThreeLess(n: nat)
    requires n >= 3
    ensures (n - 3) / 3 == n / 3 - 1 && (n - 1) / 3 == (n + 2) / 3 - 1 && Padding(n - 3) == Padding(n)
  {
    assert (n - 3) % 3 == n % 3;
  }

  lemma GroupsStep(s: string, n: nat)
    requires 1 <= n && 4 * n <= |s|
    ensures Groups(s, n) == Group(s) + Groups(s[4..], n - 1)
  {
    hide Group;
  }

  lemma QuadCodes(b: seq<byte>)
    requires |b| >= 3
    ensures forall i :: 0 <= i < 4 ==> Quad(b)[i] < 64
  {
  }

  lemma {:induction false} EncodedReadsBack(b: seq<byte>)
    ensures ReadsBack(Encoded(DEFAULT, b), b)
    decreases |b|
  {
    if b == [] {
      EncodedNothing();
    } else if |b| < 3 {
      ShortReadsBack(b);
    } else {
      hide ReadsBack, Base64.Quad, Base64.Spell, Base64.CharOf;
      EncodedReadsBack(b[3..]);
      LongReadsBack(b, Encoded(DEFAULT, b[3..]));
      assert |b| == 3 ==> b[3..] == [];
    }
  }

  /** The sizes `toByteArray` computes from the padding it finds. */
  lemma SizesBack(n: nat, validLen: nat)
    requires validLen == 4 * ((n + 2) / 3) - Padding(n)
    ensures Padding(n) == 0 ==> validLen % 4 == 0
    ensures Padding(n) > 0 ==> Padding(n) == 4 - validLen % 4
    ensures ByteLength(validLen, Padding(n)) == n && GroupCount(validLen, Padding(n)) == n / 3
  {
    var full, r := n / 3, n % 3;
    assert n == 3 * full + r;
    assert (n + 2) / 3 == if r == 0 then full else full + 1;
  }

  lemma LensBack(e: string, n: nat)
    requires |e| == 4 * ((n + 2) / 3) && (forall i :: 0 <= i < |e| - Padding(n) ==> e[i] != '=')
    requires Padding(n) > 0 ==> e[|e| - Padding(n)] == '='
    ensures GetLens(e) == (|e| - Padding(n), Padding(n))
  {
    hide ByteLength, GroupCount;
    SizesBack(n, |e| - Padding(n));
    assert IndexOfPad(e) == |e| - Padding(n);
  }

  /** Decoding undoes encoding, for every byte string. */
  lemma {:induction false} BytesUndoEncoded(b: seq<byte>)
    ensures Bytes(Encoded(DEFAULT, b)) == Ok(b)
  {
    hide Base64.Encoded, Bytes, Groups, Tail, ByteLength, GroupCount, Padding, GetLens;
    var e, full, pad := Encoded(DEFAULT, b), |b| / 3, Padding(|b|);
    EncodedReadsBack(b);
    LensBack(e, |b|);
    SizesBack(|b|, |e| - pad);
    BytesAre(e);
    var found := Groups(e, full) + Tail(e[4 * full..], pad);
    assert found == b;
    assert found + Zeros(0) == b;
  }

  method RoundTrip(b: seq<byte>) returns (arr: array<byte>)
    ensures fresh(arr) && arr[..] == b
  {
    hide Bytes, Base64.Encoded;
    var s := FromByteArray(b);
    BytesUndoEncoded(b);
    var r := ToByteArray(s);
    arr := r.value;
  }
}
