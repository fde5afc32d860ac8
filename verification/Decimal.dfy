/** Decimal numerals. */
module Decimal {

  predicate IsDigit(c: char) {
    '0' <= c <= '9'
  }

  function Digit(d: nat): (c: char)
    requires d < 10
    ensures IsDigit(c) && DigitValue(c) == d
  {
    d as char + '0'
  }

  function DigitValue(c: char): (d: nat)
    requires IsDigit(c)
    ensures d < 10
  {
    (c - '0') as nat
  }

  /** The numeral of n without leading zeros. */
  function Dec(n: nat): (s: string)
    ensures s != []
    ensures forall i :: 0 <= i < |s| ==> IsDigit(s[i])
  {
    if n < 10 then [Digit(n)] else Dec(n / 10) + [Digit(n % 10)]
  }

  /** The same numeral, but empty for zero. */
  function Dec0(n: nat): string {
    if n == 0 then [] else Dec(n)
  }

  lemma Dec0Step(n: nat)
    ensures Dec0(0) == "" && Dec(0) == "0"
    ensures n > 0 ==> Dec0(n) == Dec(n) && Dec0(n) == Dec0(n / 10) + Dec(n % 10)
  {
  }

  predicate AllDigits(s: string) {
    forall i :: 0 <= i < |s| ==> IsDigit(s[i])
  }

  function Parse(s: string): nat
    requires AllDigits(s)
  {
    if s == [] then 0 else 10 * Parse(s[..|s| - 1]) + DigitValue(s[|s| - 1])
  }

  predicate Canonical(s: string) {
    s != [] && AllDigits(s) && (s[0] == '0' ==> |s| == 1)
  }

  function SignedDec(v: int): string {
    if v < 0 then "-" + Dec(-v) else Dec(v)
  }

  lemma {:induction false} ParseOfDec(n: nat)
    ensures Parse(Dec(n)) == n && Canonical(Dec(n)) && (Dec(n)[0] == '0' ==> n == 0)
  {
    var s := Dec(n);
    if n >= 10 {
      ParseOfDec(n / 10);
      assert s[..|s| - 1] == Dec(n / 10);
      assert s[0] == Dec(n / 10)[0];
    } else {
      assert s[..|s| - 1] == [];
      assert s[0] == Digit(n);
      assert Digit(n) == '0' ==> n == 0;
    }
  }

  lemma DigitOfValue(c: char)
    requires IsDigit(c)
    ensures Digit(DigitValue(c)) == c
  {
  }

  /** Printing undoes parsing exactly on numerals without leading zeros. */
  lemma {:induction false} DecOfParse(s: string)
    requires AllDigits(s)
    ensures Dec(Parse(s)) == s <==> Canonical(s)
  {
    ParseOfDec(Parse(s));
    if Canonical(s) {
      DecOfCanonical(s);
    }
  }

  lemma {:induction false} DecOfCanonical(s: string)
    requires Canonical(s)
    ensures Dec(Parse(s)) == s
    ensures |s| > 1 ==> Parse(s) >= 10
  {
    var init, last := s[..|s| - 1], s[|s| - 1];
    DigitOfValue(last);
    assert s == init + [last];
    if |s| > 1 {
      assert init[0] == s[0];
      DecOfCanonical(init);
      NonzeroParse(init);
      assert Parse(s) / 10 == Parse(init) && Parse(s) % 10 == DigitValue(last);
    } else {
      assert Parse(init) == 0;
    }
  }

  lemma {:induction false} NonzeroParse(s: string)
    requires s != [] && AllDigits(s) && s[0] != '0'
    ensures Parse(s) > 0
  {
    DigitOfValue(s[0]);
    if |s| > 1 {
      NonzeroParse(s[..|s| - 1]);
    } else {
      assert Digit(0) == '0';
    }
  }

  lemma ParseEmpty()
    ensures Parse("") == 0
  {
  }

  lemma ParseStep(s: string, i: nat)
    requires i < |s| && AllDigits(s[..i]) && IsDigit(s[i])
    ensures AllDigits(s[..i + 1]) && Parse(s[..i + 1]) == 10 * Parse(s[..i]) + DigitValue(s[i])
  {
    assert s[..i + 1][..i] == s[..i];
  }

  /** The last `k` digits of n, with leading zeros. */
  function Padded(n: nat, k: nat): (s: string)
    ensures |s| == k
  {
    if k == 0 then [] else Padded(n / 10, k - 1) + [Digit(n % 10)]
  }

  function Pow10(k: nat): (p: nat)
    ensures p > 0
  {
    if k == 0 then 1 else 10 * Pow10(k - 1)
  }

  /** Splitting a number at the k-th digit splits its numeral. */
  lemma {:induction false} DecSplit(high: nat, low: nat, k: nat)
    requires high > 0 && low < Pow10(k)
    ensures Dec(high * Pow10(k) + low) == Dec(high) + Padded(low, k)
  {
    if k == 0 {
      assert Dec(high) + [] == Dec(high);
    } else {
      var n := high * Pow10(k) + low;
      assert high * Pow10(k) == 10 * (high * Pow10(k - 1));
      assert n / 10 == high * Pow10(k - 1) + low / 10 && n % 10 == low % 10;
      assert high * Pow10(k - 1) >= 1;
      DecSplit(high, low / 10, k - 1);
      assert Dec(n) == Dec(n / 10) + [Digit(n % 10)];
      assert Dec(high) + Padded(low, k) == (Dec(high) + Padded(low / 10, k - 1)) + [Digit(low % 10)];
    }
  }

  /** A short numeral, padded with zeros. */
  lemma {:induction false} PaddedIsZerosThenDec(n: nat, k: nat)
    requires n < Pow10(k)
    ensures |Dec0(n)| <= k
    ensures Padded(n, k) == seq(k - |Dec0(n)|, _ => '0') + Dec0(n)
  {
    if k > 0 {
      PaddedIsZerosThenDec(n / 10, k - 1);
      if n == 0 {
        assert Digit(0) == '0';
      } else if n < 10 {
        assert Dec0(n / 10) == [] && Dec0(n) == [Digit(n)];
      } else {
        assert Dec0(n) == Dec0(n / 10) + [Digit(n % 10)];
      }
    }
  }

  // ---- what a numeral stands for, by its character codes ----

  /** 48 is the code of zero, and each place counts ten times the next. */
  function PlaceValue(s: string): int {
    if s == "" then 0 else (s[0] as int - 48) * Pow10(|s| - 1) + PlaceValue(s[1..])
  }

  predicate DigitCodes(s: string) {
    forall i :: 0 <= i < |s| ==> 48 <= s[i] as int <= 57
  }

  /** The decimal numeral of n: digits alone, no leading zero, and the places add up to n. */
  predicate Spells(s: string, n: int) {
    s != "" && DigitCodes(s) && (s[0] as int == 48 ==> |s| == 1) && PlaceValue(s) == n
  }

  /** The same with a minus sign, which is code 45, in front of a negative number. */
  predicate SpellsSigned(s: string, v: int) {
    if v < 0 then s != "" && s[0] as int == 45 && Spells(s[1..], -v) else Spells(s, v)
  }

  lemma TenTimes(d: int, k: nat)
    ensures d * Pow10(k + 1) == 10 * (d * Pow10(k))
  {
    assert Pow10(k + 1) == 10 * Pow10(k);
  }

  lemma {:induction false} PlaceValueAppend(s: string, c: char)
    ensures PlaceValue(s + [c]) == 10 * PlaceValue(s) + (c as int - 48)
  {
    if s == "" {
      assert [] + [c] == [c] && [c][1..] == "";
      assert Pow10(0) == 1 && PlaceValue("") == 0;
    } else {
      var t := s + [c];
      assert t[1..] == s[1..] + [c];
      PlaceValueAppend(s[1..], c);
      TenTimes(s[0] as int - 48, |s| - 1);
    }
  }

  lemma DigitsAreCodes(s: string)
    ensures AllDigits(s) <==> DigitCodes(s)
  {
  }

  lemma {:induction false} ParseIsPlaceValue(s: string)
    requires AllDigits(s)
    ensures Parse(s) == PlaceValue(s)
  {
    if s != "" {
      var init := s[..|s| - 1];
      assert s == init + [s[|s| - 1]];
      ParseIsPlaceValue(init);
      PlaceValueAppend(init, s[|s| - 1]);
    }
  }

  /** The printed numeral is the one and only spelling of its number. */
  lemma DecSpells(n: nat, s: string)
    ensures Spells(s, n) <==> s == Dec(n)
  {
    ParseOfDec(n);
    DigitsAreCodes(Dec(n));
    ParseIsPlaceValue(Dec(n));
    if Spells(s, n) {
      DigitsAreCodes(s);
      ParseIsPlaceValue(s);
      DecOfParse(s);
    }
  }

  lemma SignedDecSpells(v: int, s: string)
    ensures SpellsSigned(s, v) <==> s == SignedDec(v)
  {
    hide Spells, Dec;
    if v < 0 {
      if s != "" {
        DecSpells(-v, s[1..]);
        assert s[0] as int == 45 <==> s == "-" + s[1..];
      }
      assert ("-" + Dec(-v))[1..] == Dec(-v);
    } else {
      DecSpells(v, s);
    }
  }

  lemma DigitCode(d: nat)
    requires d < 10
    ensures Digit(d) as int == 48 + d
  {
  }

  lemma {:induction false} PaddedPlaces(n: nat, k: nat)
    ensures DigitCodes(Padded(n, k)) && (n < Pow10(k) ==> PlaceValue(Padded(n, k)) == n)
  {
    if k > 0 {
      PaddedPlaces(n / 10, k - 1);
      PlaceValueAppend(Padded(n / 10, k - 1), Digit(n % 10));
      DigitCode(n % 10);
    }
  }
}
