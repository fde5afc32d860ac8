/**
 * What the two base64 codecs do, bit by bit and by the tables of sections 4 and 5 of RFC 4648:
 * statements that name no function of the codecs but the one they are about.
 */
module Base64Bits {
  import opened JsNumbers
  import opened Outcomes
  import opened Base64
  import opened Base64Js

  function Upper(): string { "ABCDEFGHIJKLMNOPQRSTUVWXYZ" }

  function Lower(): string { "abcdefghijklmnopqrstuvwxyz" }

  function Numerals(): string { "0123456789" }

  function Standard(): (t: string)
    ensures |t| == 64
  {
    Upper() + Lower() + Numerals() + "+/"
  }

  function UrlSafe(): (t: string)
    ensures |t| == 64
  {
    Upper() + Lower() + Numerals() + "-_"
  }

  function Table(al: Alphabet): (t: string)
    ensures |t| == 64
  {
    match al
    case DEFAULT => Standard()
    case NO_PADDING => Standard()
    case WEBSAFE => UrlSafe()
    case WEBSAFE_DOT_PADDING => UrlSafe()
    case WEBSAFE_NO_PADDING => UrlSafe()
  }

  function PaddingOf(al: Alphabet): string {
    match al
    case DEFAULT => "="
    case NO_PADDING => ""
    case WEBSAFE => "="
    case WEBSAFE_DOT_PADDING => "."
    case WEBSAFE_NO_PADDING => ""
  }

  // ---- the tables ----

  lemma LettersAndNumerals(n: nat)
    requires n < 62
    ensures Standard()[n] == UrlSafe()[n]
    ensures Standard()[n] == if n < 26 then Upper()[n] else if n < 52 then Lower()[n - 26] else Numerals()[n - 52]
  {
    assert |Upper()| == 26 && |Lower()| == 26 && |Numerals()| == 10;
    hide Upper, Lower, Numerals;
  }

  lemma UpperCodes(n: nat)
    requires n < 26
    ensures |Upper()| == 26 && Upper()[n] as int == n + 65
  {
  }

  lemma LowerCodes(n: nat)
    requires n < 26
    ensures |Lower()| == 26 && Lower()[n] as int == n + 97
  {
  }

  lemma NumeralCodes(n: nat)
    requires n < 10
    ensures |Numerals()| == 10 && Numerals()[n] as int == n + 48
  {
  }

  lemma LastTwo()
    ensures Standard()[62] == '+' && Standard()[63] == '/' && UrlSafe()[62] == '-' && UrlSafe()[63] == '_'
  {
    assert |Upper()| == 26 && |Lower()| == 26 && |Numerals()| == 10;
    hide Upper, Lower, Numerals;
  }

  /** The codes of the characters of both tables. */
  lemma TableCodes(n: nat)
    requires n < 64
    ensures n < 62 ==> Standard()[n] == UrlSafe()[n]
    ensures Standard()[n] as int == if n < 26 then n + 65 else if n < 52 then n + 71 else if n < 62 then n - 4
                                    else if n == 62 then 43 else 47
    ensures n >= 62 ==> UrlSafe()[n] as int == if n == 62 then 45 else 95
  {
    hide Standard, UrlSafe, Upper, Lower, Numerals;
    if n < 26 {
      UpperCodes(n);
      LettersAndNumerals(n);
    } else if n < 52 {
      LowerCodes(0);
      LowerCodes(n - 26);
      LettersAndNumerals(n);
    } else if n < 62 {
      NumeralCodes(n - 52);
      LettersAndNumerals(n);
    } else {
      LastTwo();
    }
  }

  lemma CharOfIsTable(al: Alphabet, n: code)
    ensures CharOf(al, n) == if n < 64 then [Table(al)[n]] else PaddingOf(al)
  {
    hide Standard, UrlSafe;
    if n < 64 {
      TableCodes(n);
    }
  }

  /** Closure's one decoding table: both tables and both padding characters, and nothing else. */
  lemma CodeOfIsTable(c: char, n: nat)
    requires n < 64
    ensures CodeOf(c) == Some(n) <==> c == Standard()[n] || c == UrlSafe()[n]
    ensures CodeOf(c) == Some(64) <==> c == '=' || c == '.'
  {
    hide Standard, UrlSafe;
    TableCodes(n);
  }

  /** The table of base64-js: any other character counts as zero. */
  lemma RevIsTable(c: char, n: nat)
    requires n < 64
    ensures c == Standard()[n] || c == UrlSafe()[n] ==> Rev(c) == n
    ensures c !in Standard() && c !in UrlSafe() ==> Rev(c) == 0
  {
    hide Standard, UrlSafe, CodeOf;
    CodeOfIsTable(c, n);
    if CodeOf(c).Some? && CodeOf(c).value < 64 {
      CodeOfIsTable(c, CodeOf(c).value);
    }
  }

  // ---- encoding: six bits at a time ----

  function ByteAt(b: seq<byte>, j: nat): byte {
    if j < |b| then b[j] else 0
  }

  /** The k-th six bits, the highest of the first byte first; behind the end there are zeros. */
  function SixBits(b: seq<byte>, k: nat): (n: nat)
    ensures n < 64
  {
    var j, offset := 6 * k / 8, 6 * k % 8;
    (256 * ByteAt(b, j) as int + ByteAt(b, j + 1)) / Pow2(10 - offset) % 64
  }

  lemma SmallPowers()
    ensures Pow2(2) == 4 && Pow2(4) == 16 && Pow2(6) == 64 && Pow2(8) == 256 && Pow2(10) == 1024
  {
    assert Pow2(4) == 4 * Pow2(2) && Pow2(6) == 4 * Pow2(4) && Pow2(8) == 4 * Pow2(6) && Pow2(10) == 4 * Pow2(8);
  }

  lemma SixAt(b: seq<byte>)
    ensures SixBits(b, 0) == (256 * ByteAt(b, 0) as int + ByteAt(b, 1)) / 1024 % 64
    ensures SixBits(b, 1) == (256 * ByteAt(b, 0) as int + ByteAt(b, 1)) / 16 % 64
    ensures SixBits(b, 2) == (256 * ByteAt(b, 1) as int + ByteAt(b, 2)) / 64 % 64
    ensures SixBits(b, 3) == (256 * ByteAt(b, 2) as int + ByteAt(b, 3)) / 256 % 64
  {
    SmallPowers();
    hide Pow2, ByteAt;
  }

  lemma HighWindow(x: byte, y: byte)
    ensures (256 * x as int + y) / 1024 % 64 == x / 4
  {
    DivModUnique(256 * x as int + y, x / 4, 1024, x as int % 4 * 256 + y);
  }

  lemma MiddleWindow(x: byte, y: byte)
    ensures (256 * x as int + y) / 16 % 64 == x % 4 * 16 + y / 16
  {
    DivModUnique(256 * x as int + y, 16 * x as int + y / 16, 16, y % 16);
    DivModUnique(16 * x as int + y / 16, x / 4, 64, x % 4 * 16 + y / 16);
  }

  lemma LowWindow(y: byte, z: byte)
    ensures (256 * y as int + z) / 64 % 64 == y % 16 * 4 + z / 64
  {
    DivModUnique(256 * y as int + z, 4 * y as int + z / 64, 64, z % 64);
    DivModUnique(4 * y as int + z / 64, y / 16, 64, y % 16 * 4 + z / 64);
  }

  lemma SixWindows(x: byte, y: byte, z: byte)
    ensures (256 * x as int + y) / 1024 % 64 == x / 4
    ensures (256 * x as int + y) / 16 % 64 == x % 4 * 16 + y / 16
    ensures (256 * y as int + z) / 64 % 64 == y % 16 * 4 + z / 64
  {
    HighWindow(x, y);
    MiddleWindow(x, y);
    LowWindow(y, z);
  }

  lemma LastWindow(z: byte, next: byte)
    ensures (256 * z as int + next) / 256 % 64 == z % 64
  {
    DivModUnique(256 * z as int + next, z, 256, next);
  }

  lemma FirstSixBits(b: seq<byte>)
    ensures var x, y, z: int := ByteAt(b, 0), ByteAt(b, 1), ByteAt(b, 2);
            && SixBits(b, 0) == x / 4 && SixBits(b, 1) == x % 4 * 16 + y / 16
            && SixBits(b, 2) == y % 16 * 4 + z / 64 && SixBits(b, 3) == z % 64
  {
    hide SixBits, ByteAt;
    SixAt(b);
    SixWindows(ByteAt(b, 0), ByteAt(b, 1), ByteAt(b, 2));
    LastWindow(ByteAt(b, 2), ByteAt(b, 3));
  }

  lemma SixBitsLater(b: seq<byte>, k: nat)
    requires |b| >= 3
    ensures SixBits(b, k + 4) == SixBits(b[3..], k)
  {
    assert 6 * (k + 4) / 8 == 6 * k / 8 + 3 && 6 * (k + 4) % 8 == 6 * k % 8;
    hide Pow2;
    forall j: nat
      ensures ByteAt(b, j + 3) == ByteAt(b[3..], j)
    {
    }
  }

  /** How many characters stand for n bytes. */
  function Characters(n: nat): nat {
    (8 * n + 5) / 6
  }

  /** How many padding characters follow them. */
  function Pads(al: Alphabet, n: nat): nat {
    if n % 3 == 0 || PaddingOf(al) == "" then 0 else 3 - n % 3
  }

  lemma CharactersLater(n: nat)
    requires n >= 3
    ensures Characters(n) == 4 + Characters(n - 3)
  {
  }

  lemma SamePads(al: Alphabet, n: nat)
    requires n >= 3
    ensures Pads(al, n) == Pads(al, n - 3)
  {
    hide PaddingOf;
  }

  lemma QuadIsSixBits(b: seq<byte>)
    requires b != []
    ensures var q, n := Quad(b), if |b| >= 3 then 4 else |b| + 1;
            (forall k :: 0 <= k < n ==> q[k] == SixBits(b, k)) && forall k :: n <= k < 4 ==> q[k] == 64
  {
    FirstSixBits(b);
    hide SixBits;
  }

  lemma FirstFour(al: Alphabet, b: seq<byte>)
    requires b != []
    ensures var s, n := Spell(al, Quad(b)), if |b| >= 3 then 4 else |b| + 1;
            && |s| == n + (if |b| >= 3 then 0 else Pads(al, |b|))
            && (forall k :: 0 <= k < n ==> s[k] == Table(al)[SixBits(b, k)])
            && (forall k :: n <= k < |s| ==> [s[k]] == PaddingOf(al))
  {
    hide CharOf, Spell, SixBits, Table, ByteAt, Standard, UrlSafe;
    var q := Quad(b);
    SpellFour(al, q);
    CharOfIsTable(al, q[0]);
    CharOfIsTable(al, q[1]);
    CharOfIsTable(al, q[2]);
    CharOfIsTable(al, q[3]);
    QuadIsSixBits(b);
    hide Quad;
  }

  lemma EncodedShort(al: Alphabet, b: seq<byte>)
    requires |b| <= 3
    ensures |Encoded(al, b)| == Characters(|b|) + Pads(al, |b|)
    ensures forall k :: 0 <= k < Characters(|b|) ==> Encoded(al, b)[k] == Table(al)[SixBits(b, k)]
    ensures forall k :: Characters(|b|) <= k < |Encoded(al, b)| ==> [Encoded(al, b)[k]] == PaddingOf(al)
  {
    hide Spell, Quad, SixBits, Table, PaddingOf;
    if b != [] {
      FirstFour(al, b);
      assert Encoded(al, []) == "";
      assert Encoded(al, b) == Spell(al, Quad(b)) + "" == Spell(al, Quad(b));
    }
  }

  /**
   * For any bytes and any alphabet: the k-th character is that of the k-th six bits in the
   * alphabet's table, and padding fills up the last four characters.
   */
  lemma {:induction false} EncodedIsSixBits(al: Alphabet, b: seq<byte>, k: nat)
    ensures |Encoded(al, b)| == Characters(|b|) + Pads(al, |b|)
    ensures k < Characters(|b|) ==> Encoded(al, b)[k] == Table(al)[SixBits(b, k)]
    ensures Characters(|b|) <= k < |Encoded(al, b)| ==> [Encoded(al, b)[k]] == PaddingOf(al)
    decreases |b|
  {
    hide Spell, Quad, SixBits, Table, PaddingOf, Encoded, Characters;
    if |b| <= 3 {
      EncodedShort(al, b);
    } else {
      EncodedFromThree(al, b);
      EncodedIsSixBits(al, b[3..], if k < 4 then 0 else k - 4);
      FirstFour(al, b);
      CharactersLater(|b|);
      SamePads(al, |b|);
      if k >= 4 {
        SixBitsLater(b, k - 4);
      }
    }
  }

  lemma NotInTable(al: Alphabet)
    ensures if al.DEFAULT? || al.NO_PADDING? then '-' !in Table(al) && '_' !in Table(al)
            else '+' !in Table(al) && '/' !in Table(al)
  {
    hide Standard, UrlSafe;
    forall n | 0 <= n < 64
      ensures Table(al)[n] as int !in (if al.DEFAULT? || al.NO_PADDING? then [45, 95] else [43, 47])
    {
      TableCodes(n);
    }
  }

  /** Web-safe output is web-safe, and the other alphabets never use its two characters. */
  lemma SafeCharacters(al: Alphabet, b: seq<byte>)
    ensures !(al.DEFAULT? || al.NO_PADDING?) ==> '+' !in Encoded(al, b) && '/' !in Encoded(al, b)
    ensures al.DEFAULT? || al.NO_PADDING? ==> '-' !in Encoded(al, b) && '_' !in Encoded(al, b)
  {
    hide Encoded, Table;
    NotInTable(al);
    forall k | 0 <= k < |Encoded(al, b)|
      ensures Encoded(al, b)[k] in Table(al) || [Encoded(al, b)[k]] == PaddingOf(al)
    {
      EncodedIsSixBits(al, b, k);
      assert k < Characters(|b|) ==> Table(al)[SixBits(b, k)] in Table(al);
    }
  }

  // ---- decoding: eight bits at a time ----

  function CodeAt(codes: seq<nat>, j: nat): nat {
    if j < |codes| then codes[j] else 0
  }

  /**
   * The k-th eight bits of a list of six-bit numbers; behind the end there are zeros. They begin
   * at bit 8k, which is bit 2 * (k % 3) of number 4k / 3, counted from the highest.
   */
  function EightBits(codes: seq<nat>, k: nat): nat {
    var j, offset := 4 * k / 3, 2 * (k % 3);
    (64 * CodeAt(codes, j) + CodeAt(codes, j + 1)) / Pow2(4 - offset) % 256
  }

  predicate Sixes(codes: seq<nat>) {
    forall i :: 0 <= i < |codes| ==> codes[i] < 64
  }

  lemma EightAt(codes: seq<nat>)
    ensures EightBits(codes, 0) == (64 * CodeAt(codes, 0) + CodeAt(codes, 1)) / 16 % 256
    ensures EightBits(codes, 1) == (64 * CodeAt(codes, 1) + CodeAt(codes, 2)) / 4 % 256
    ensures EightBits(codes, 2) == (64 * CodeAt(codes, 2) + CodeAt(codes, 3)) % 256
  {
    SmallPowers();
    assert Pow2(0) == 1;
    hide Pow2, CodeAt;
  }

  lemma EightAcross(x: nat, y: nat)
    requires x < 64 && y < 64
    ensures (64 * x + y) / 4 % 256 == x % 16 * 16 + y / 4
  {
    DivModUnique(64 * x + y, x * 16 + y / 4, 4, y % 4);
    DivModUnique(x * 16 + y / 4, x / 16, 256, x % 16 * 16 + y / 4);
  }

  lemma EightWindows(w: nat, x: nat, y: nat, z: nat)
    requires w < 64 && x < 64 && y < 64 && z < 64
    ensures (64 * w + x) / 16 % 256 == w * 4 + x / 16
    ensures (64 * x + y) / 4 % 256 == x % 16 * 16 + y / 4
    ensures (64 * y + z) % 256 == y % 4 * 64 + z
  {
    DivModUnique(64 * w + x, w * 4 + x / 16, 16, x % 16);
    EightAcross(x, y);
    DivModUnique(64 * y + z, y / 4, 256, y % 4 * 64 + z);
  }

  lemma FirstEightBits(codes: seq<nat>)
    requires Sixes(codes)
    ensures var w, x, y, z := CodeAt(codes, 0), CodeAt(codes, 1), CodeAt(codes, 2), CodeAt(codes, 3);
            && EightBits(codes, 0) == w * 4 + x / 16 && EightBits(codes, 1) == x % 16 * 16 + y / 4
            && EightBits(codes, 2) == y % 4 * 64 + z
  {
    EightAt(codes);
    assert CodeAt(codes, 0) < 64 && CodeAt(codes, 1) < 64 && CodeAt(codes, 2) < 64 && CodeAt(codes, 3) < 64;
    hide EightBits, CodeAt;
    EightWindows(CodeAt(codes, 0), CodeAt(codes, 1), CodeAt(codes, 2), CodeAt(codes, 3));
  }

  lemma EightBitsLater(codes: seq<nat>, k: nat)
    requires |codes| >= 4
    ensures EightBits(codes, k + 3) == EightBits(codes[4..], k)
  {
    assert 4 * (k + 3) / 3 == 4 * k / 3 + 4 && (k + 3) % 3 == k % 3;
    hide Pow2;
    forall j: nat
      ensures CodeAt(codes, j + 4) == CodeAt(codes[4..], j)
    {
    }
  }

  function RevCodes(s: string): (codes: seq<nat>)
    ensures |codes| == |s| && Sixes(codes)
  {
    seq(|s|, i requires 0 <= i < |s| => Rev(s[i]))
  }

  lemma CodesOfString(s: string, i: nat)
    ensures CodeAt(RevCodes(s), i) == if i < |s| then Rev(s[i]) else 0
  {
    hide Rev;
  }

  lemma GroupOfCodes(s: string)
    requires |s| >= 4
    ensures var tmp := Rev(s[0]) * 0x4_0000 + Rev(s[1]) * 0x1000 + Rev(s[2]) * 64 + Rev(s[3]);
            Group(s)[0] == tmp / 0x1_0000 && Group(s)[1] == tmp / 0x100 % 0x100 && Group(s)[2] == tmp % 0x100
  {
    hide Rev;
  }

  lemma TripleOfCodes(w: nat, x: nat, y: nat, z: nat)
    requires w < 64 && x < 64 && y < 64 && z < 64
    ensures var tmp := w * 0x4_0000 + x * 0x1000 + y * 64 + z;
            && tmp / 0x1_0000 == w * 4 + x / 16 && tmp / 0x100 % 0x100 == x % 16 * 16 + y / 4
            && tmp % 0x100 == y % 4 * 64 + z
  {
    var tmp := w * 0x4_0000 + x * 0x1000 + y * 64 + z;
    DivModUnique(tmp, w * 4 + x / 16, 0x1_0000, x % 16 * 0x1000 + y * 64 + z);
    DivModUnique(tmp, w * 0x400 + x * 16 + y / 4, 0x100, y % 4 * 64 + z);
    DivModUnique(w * 0x400 + x * 16 + y / 4, w * 4 + x / 16, 0x100, x % 16 * 16 + y / 4);
  }

  lemma GroupIsBits(s: string)
    requires |s| >= 4
    ensures forall k :: 0 <= k < 3 ==> Group(s)[k] == EightBits(RevCodes(s), k)
  {
    hide EightBits, Rev, CodeAt, RevCodes, Group;
    FirstEightBits(RevCodes(s));
    CodesOfString(s, 0);
    CodesOfString(s, 1);
    CodesOfString(s, 2);
    CodesOfString(s, 3);
    GroupOfCodes(s);
    TripleOfCodes(Rev(s[0]), Rev(s[1]), Rev(s[2]), Rev(s[3]));
  }

  lemma {:induction false} GroupsAreBits(s: string, n: nat, k: nat)
    requires 4 * n <= |s| && k < 3 * n
    ensures Groups(s, n)[k] == EightBits(RevCodes(s), k)
    decreases n
  {
    hide Group, EightBits, Rev;
    GroupIsBits(s);
    if k >= 3 {
      GroupsAreBits(s[4..], n - 1, k - 3);
      EightBitsLater(RevCodes(s), k - 3);
      assert RevCodes(s)[4..] == RevCodes(s[4..]);
    }
  }

  lemma PairOfCodes(x: nat, y: nat)
    requires x < 64 && y < 64
    ensures (x * 4 + y / 16) % 0x100 == x * 4 + y / 16
  {
  }

  lemma TailOfCodes(x: nat, y: nat, z: nat)
    requires x < 64 && y < 64 && z < 64
    ensures var tmp := x * 0x400 + y * 16 + z / 4;
            tmp / 0x100 % 0x100 == x * 4 + y / 16 && tmp % 0x100 == y % 16 * 16 + z / 4
  {
    DivModUnique(x * 0x400 + y * 16 + z / 4, x * 4 + y / 16, 0x100, y % 16 * 16 + z / 4);
  }

  lemma TailShape(s: string, placeHolders: nat)
    requires (placeHolders == 2 ==> |s| >= 2) && (placeHolders == 1 ==> |s| >= 3)
    ensures placeHolders == 2 ==> Tail(s, placeHolders) == [(Rev(s[0]) * 4 + Rev(s[1]) / 16) % 0x100]
    ensures placeHolders == 1 ==>
              var tmp := Rev(s[0]) * 0x400 + Rev(s[1]) * 16 + Rev(s[2]) / 4;
              Tail(s, placeHolders) == [tmp / 0x100 % 0x100, tmp % 0x100]
    ensures placeHolders != 1 && placeHolders != 2 ==> Tail(s, placeHolders) == []
  {
    hide Rev;
  }

  lemma TailIsBits(s: string, placeHolders: nat, k: nat)
    requires (placeHolders == 2 ==> |s| >= 2) && (placeHolders == 1 ==> |s| >= 3)
    requires k < |Tail(s, placeHolders)|
    ensures Tail(s, placeHolders)[k] == EightBits(RevCodes(s), k)
  {
    hide EightBits, Rev, CodeAt, RevCodes, Tail;
    FirstEightBits(RevCodes(s));
    CodesOfString(s, 0);
    CodesOfString(s, 1);
    CodesOfString(s, 2);
    TailShape(s, placeHolders);
    PairOfCodes(Rev(s[0]), Rev(s[1]));
    if placeHolders == 1 {
      TailOfCodes(Rev(s[0]), Rev(s[1]), Rev(s[2]));
    }
  }

  lemma {:induction false} EightBitsBehind(s: string, n: nat, k: nat)
    requires 4 * n <= |s|
    ensures EightBits(RevCodes(s), 3 * n + k) == EightBits(RevCodes(s[4 * n..]), k)
  {
    hide EightBits, Rev;
    if n == 0 {
      assert s[0..] == s;
    } else {
      EightBitsLater(RevCodes(s), 3 * (n - 1) + k);
      assert RevCodes(s)[4..] == RevCodes(s[4..]);
      EightBitsBehind(s[4..], n - 1, k);
      assert s[4..][4 * (n - 1)..] == s[4 * n..];
    }
  }

  /** The part of the string that counts: up to the padding, less the group before padding in first place. */
  function Counted(s: string): nat
    requires |s| % 4 == 0
  {
    var v := IndexOfPad(s);
    if v < |s| && v % 4 == 0 && v > 0 then v - 4 else v
  }

  lemma CountedBytes(s: string)
    requires |s| % 4 == 0 && ByteLength(GetLens(s).0, GetLens(s).1) >= 0
    ensures var (validLen, placeHolders) := GetLens(s);
            var n := GroupCount(validLen, placeHolders);
            Counted(s) * 6 / 8 == 3 * n + |Tail(s[4 * n..], placeHolders)|
  {
    hide Tail;
  }

  lemma FoundAreBits(s: string, n: nat, placeHolders: nat, k: nat)
    requires 4 * n <= |s|
    requires (placeHolders == 2 ==> |s| >= 4 * n + 2) && (placeHolders == 1 ==> |s| >= 4 * n + 3)
    requires k < 3 * n + |Tail(s[4 * n..], placeHolders)|
    ensures (Groups(s, n) + Tail(s[4 * n..], placeHolders))[k] == EightBits(RevCodes(s), k)
  {
    hide Groups, Tail, EightBits, RevCodes;
    if k < 3 * n {
      GroupsAreBits(s, n, k);
    } else {
      TailIsBits(s[4 * n..], placeHolders, k - 3 * n);
      EightBitsBehind(s, n, k - 3 * n);
    }
  }

  /**
   * `toByteArray`, whatever the characters: the k-th byte is the k-th eight bits of the six-bit
   * numbers of the characters, as far as whole bytes go before the padding.
   */
  lemma BytesAreBits(s: string, k: nat)
    requires Bytes(s).Ok?
    ensures |s| % 4 == 0 && |Bytes(s).value| >= Counted(s) * 6 / 8
    ensures k < Counted(s) * 6 / 8 ==> Bytes(s).value[k] == EightBits(RevCodes(s), k)
    ensures Counted(s) * 6 / 8 <= k < |Bytes(s).value| ==> Bytes(s).value[k] == 0
  {
    hide Bytes, Groups, Tail, EightBits, GetLens, GroupCount, Counted, ByteLength, Rev, IndexOfPad, RevCodes;
    BytesThrow(s);
    BytesAre(s);
    CountedBytes(s);
    var (validLen, placeHolders) := GetLens(s);
    var n := GroupCount(validLen, placeHolders);
    if k < Counted(s) * 6 / 8 {
      FoundAreBits(s, n, placeHolders, k);
    }
  }

  // ---- Closure's decoder ----

  /** White space in ECMAScript's sense, by code. */
  const SPACES: seq<int> := [9, 10, 11, 12, 13, 32, 0xA0, 0x1680, 0x2000, 0x2001, 0x2002, 0x2003, 0x2004, 0x2005,
                             0x2006, 0x2007, 0x2008, 0x2009, 0x200A, 0x2028, 0x2029, 0x202F, 0x205F, 0x3000, 0xFEFF]

  lemma SpaceIsListed(c: char)
    ensures IsSpace(c) <==> c as int in SPACES
  {
  }

  predicate AllTabled(s: string) {
    forall i :: 0 <= i < |s| ==> s[i] in Standard() || s[i] in UrlSafe()
  }

  lemma TabledCode(c: char)
    requires c in Standard() || c in UrlSafe()
    ensures CodeOf(c) == Some(Rev(c))
  {
    hide Standard, UrlSafe;
    if i :| 0 <= i < 64 && Standard()[i] == c {
      CodeOfIsTable(c, i);
    } else {
      var i :| 0 <= i < 64 && UrlSafe()[i] == c;
      CodeOfIsTable(c, i);
    }
  }

  /** Four codes, padding included: 64 in second place sets bit 2, in third or fourth place it ends the bytes. */
  lemma UnquadLayout(e: code, f: code, g: code, h: code)
    ensures |Unquad(e, f, g, h)| == if g == 64 then 1 else if h == 64 then 2 else 3
    ensures Unquad(e, f, g, h)[0] == if f < 64 then 4 * e + f / 16 else if e % 2 == 0 then 4 * e + 4 else 4 * e
    ensures g != 64 ==> Unquad(e, f, g, h)[1] == f % 16 * 16 + g / 4
    ensures g != 64 && h != 64 ==> Unquad(e, f, g, h)[2] == g % 4 * 64 + h
  {
  }

  /** How many bytes so many characters without padding give; a single last character gives one. */
  function ByteCount(n: nat): nat {
    n / 4 * 3 + if n % 4 <= 1 then n % 4 else n % 4 - 1
  }

  lemma NextTabled(s: string, atEnd: int)
    requires AllTabled(s)
    ensures NextCode(s, atEnd) == if s == "" then Ok((atEnd, "")) else Ok((Rev(s[0]), s[1..]))
  {
    hide CodeOf, Rev, Standard, UrlSafe;
    if s != "" {
      TabledCode(s[0]);
    }
  }

  lemma UnquadTabled(s: string)
    requires s != ""
    ensures var f, g, h := if |s| > 1 then Rev(s[1]) else 0, if |s| > 2 then Rev(s[2]) else 64,
                           if |s| > 3 then Rev(s[3]) else 64;
            var q := Unquad(Rev(s[0]), f, g, h);
            && |q| == (if |s| >= 4 then 3 else ByteCount(|s|))
            && forall k :: 0 <= k < |q| ==> q[k] == EightBits(RevCodes(s), k)
  {
    FirstEightBits(RevCodes(s));
    CodesOfString(s, 0);
    CodesOfString(s, 1);
    CodesOfString(s, 2);
    CodesOfString(s, 3);
    hide EightBits, Rev, CodeAt, RevCodes;
    var f, g, h := if |s| > 1 then Rev(s[1]) else 0, if |s| > 2 then Rev(s[2]) else 64,
                   if |s| > 3 then Rev(s[3]) else 64;
    UnquadLayout(Rev(s[0]), f, g, h);
    hide Unquad;
  }

  function Behind(s: string, k: nat): string {
    if k <= |s| then s[k..] else ""
  }

  lemma TabledBehind(s: string, k: nat)
    requires AllTabled(s)
    ensures AllTabled(Behind(s, k))
  {
    hide Standard, UrlSafe;
  }

  lemma NextBehind(s: string, k: nat, atEnd: int)
    requires AllTabled(s)
    ensures Behind(s, 0) == s && (k >= |s| ==> Behind(s, k) == "")
    ensures NextCode(Behind(s, k), atEnd) == if k < |s| then Ok((Rev(s[k]), Behind(s, k + 1))) else Ok((atEnd, ""))
  {
    hide NextCode, Rev;
    TabledBehind(s, k);
    hide AllTabled;
    NextTabled(Behind(s, k), atEnd);
    assert k < |s| ==> s[k..][1..] == s[k + 1..];
  }

  /** The first four characters, and what is decoded behind them. */
  lemma DecodedFour(s: string)
    requires AllTabled(s) && s != ""
    ensures var f, g, h := if |s| > 1 then Rev(s[1]) else 0, if |s| > 2 then Rev(s[2]) else 64,
                           if |s| > 3 then Rev(s[3]) else 64;
            Decoded(s) == Prepend(Unquad(Rev(s[0]), f, g, h), Decoded(Behind(s, 4)))
  {
    hide NextCode, Rev, Unquad, Decoded, AllTabled, Behind;
    DecodedStep(s);
    NextBehind(s, 0, -1);
    NextBehind(s, 1, 0);
    NextBehind(s, 2, 64);
    NextBehind(s, 3, 64);
    NextBehind(s, 4, 64);
  }

  /** The bytes of the first four characters, in front of those of the others. */
  lemma FirstBytes(s: string) returns (q: seq<int>)
    requires AllTabled(s) && s != ""
    ensures Decoded(s) == Prepend(q, Decoded(Behind(s, 4)))
    ensures |q| == if |s| >= 4 then 3 else ByteCount(|s|)
    ensures forall k :: 0 <= k < |q| ==> q[k] == EightBits(RevCodes(s), k)
  {
    hide AllTabled, Rev, RevCodes, EightBits, Unquad, Decoded, ByteCount;
    DecodedFour(s);
    UnquadTabled(s);
    q := Unquad(Rev(s[0]), if |s| > 1 then Rev(s[1]) else 0, if |s| > 2 then Rev(s[2]) else 64,
                if |s| > 3 then Rev(s[3]) else 64);
  }

  lemma CountOfFour(n: nat)
    ensures ByteCount(n) == if n >= 4 then 3 + ByteCount(n - 4) else ByteCount(n)
    ensures ByteCount(0) == 0
  {
  }

  /** Without padding and white space, the k-th byte is the k-th eight bits of the characters' numbers. */
  lemma {:induction false} DecodedIsBits(s: string, k: nat)
    requires AllTabled(s)
    ensures Decoded(s).Ok? && |Decoded(s).value| == ByteCount(|s|)
    ensures k < ByteCount(|s|) ==> Decoded(s).value[k] == EightBits(RevCodes(s), k)
    decreases |s|
  {
    if s == "" {
      DecodedNothing();
    } else {
      TabledBehind(s, 4);
      hide AllTabled, Rev, RevCodes, EightBits, Unquad, Decoded, ByteCount;
      var q := FirstBytes(s);
      DecodedIsBits(Behind(s, 4), if k < 3 then 0 else k - 3);
      CountOfFour(|s|);
      if |s| >= 4 && k >= 3 {
        EightBitsBehind(s, 1, k - 3);
      }
    }
  }

  function Unspaced(s: string): string {
    if s == "" then "" else (if s[0] as int in SPACES then "" else [s[0]]) + Unspaced(s[1..])
  }

  function UnspacedRest(r: Outcome<(int, string)>): Outcome<(int, string)> {
    if r.Ok? then Ok((r.value.0, Unspaced(r.value.1))) else r
  }

  lemma NoCodeForSpace(c: char)
    ensures IsSpace(c) ==> CodeOf(c) == None
  {
  }

  lemma {:induction false} NextUnspaced(s: string, atEnd: int)
    ensures NextCode(Unspaced(s), atEnd) == UnspacedRest(NextCode(s, atEnd))
  {
    if s != "" {
      SpaceIsListed(s[0]);
      NoCodeForSpace(s[0]);
      hide CodeOf, IsSpace;
      var rest := Unspaced(s[1..]);
      if s[0] as int in SPACES {
        NextUnspaced(s[1..], atEnd);
        assert "" + rest == rest;
      } else {
        assert ([s[0]] + rest)[1..] == rest;
      }
    }
  }

  /** White space does not matter, wherever it stands. */
  lemma {:induction false} SpacesAreSkipped(s: string)
    ensures Decoded(Unspaced(s)) == Decoded(s)
    decreases |s|
  {
    hide NextCode, Unspaced, Unquad, Decoded;
    DecodedStep(s);
    DecodedStep(Unspaced(s));
    NextUnspaced(s, -1);
    if NextCode(s, -1).Ok? {
      var s1 := NextCode(s, -1).value.1;
      NextUnspaced(s1, 0);
      if NextCode(s1, 0).Ok? {
        var s2 := NextCode(s1, 0).value.1;
        NextUnspaced(s2, 64);
        if NextCode(s2, 64).Ok? {
          var s3 := NextCode(s2, 64).value.1;
          NextUnspaced(s3, 64);
          if NextCode(s3, 64).Ok? && NextCode(s, -1).value.0 != -1 {
            SpacesAreSkipped(NextCode(s3, 64).value.1);
          }
        }
      }
    }
  }
}
