/** Number ranges of the JavaScript code, and the arithmetic facts the kernels rest on. */
module JsNumbers {

  type byte = n: int | 0 <= n < 0x100
  type uint16 = n: int | 0 <= n < 0x1_0000
  type uint32 = n: int | 0 <= n < 0x1_0000_0000
  type uint64 = n: int | 0 <= n < 0x1_0000_0000_0000_0000
  type int32 = n: int | -0x8000_0000 <= n < 0x8000_0000
  type int64 = n: int | -0x8000_0000_0000_0000 <= n < 0x8000_0000_0000_0000

  /** `x >>> 0` on an exact integer. */
  function ToUint32(x: int): uint32 {
    x % 0x1_0000_0000
  }

  /** `x | 0` on an exact integer. */
  function ToInt32(x: int): int32 {
    var u := x % 0x1_0000_0000;
    if u < 0x8000_0000 then u else u - 0x1_0000_0000
  }

  /** Every integer a double holds exactly, with every integer below it. */
  predicate Exact(x: int) {
    -0x20_0000_0000_0000 <= x <= 0x20_0000_0000_0000
  }

  function Pow2(k: nat): (p: nat)
    ensures p > 0
  {
    if k == 0 then 1 else 2 * Pow2(k - 1)
  }

  function Pow256(k: nat): (p: nat)
    ensures p > 0
  {
    if k == 0 then 1 else 256 * Pow256(k - 1)
  }

  /** Quotient and remainder are determined by their defining equation. */
  lemma DivModUnique(x: int, q: int, m: int, r: int)
    requires x == q * m + r
    requires 0 <= r < m
    ensures x / m == q && x % m == r
  {
    MulAtLeast(q - x / m, m);
    assert (q - x / m) * m == x % m - r;
  }

  lemma MulAtLeast(k: int, m: nat)
    ensures k >= 1 ==> k * m >= m
    ensures k <= -1 ==> k * m <= 0 - m
  {
  }

  lemma MulMono(x: nat, y: nat, z: nat)
    requires y <= z
    ensures 0 <= x * y <= x * z
  {
    assert x * z == x * y + x * (z - y);
  }

  /** Adding a multiple of 2^64 changes nothing modulo 2^64. */
  lemma Wraps(x: int, k: int)
    ensures (x + k * 0x1_0000_0000_0000_0000) % 0x1_0000_0000_0000_0000 == x % 0x1_0000_0000_0000_0000
  {
    var m := 0x1_0000_0000_0000_0000;
    DivModUnique(x + k * m, x / m + k, m, x % m);
  }

  /** Negation modulo 2^64. */
  lemma NegWraps(n: int)
    ensures (0 - n % 0x1_0000_0000_0000_0000) % 0x1_0000_0000_0000_0000 == (0 - n) % 0x1_0000_0000_0000_0000
    ensures 0 < n < 0x1_0000_0000_0000_0000 ==>
              (0 - n) % 0x1_0000_0000_0000_0000 == 0x1_0000_0000_0000_0000 - n
  {
    var m := 0x1_0000_0000_0000_0000;
    Wraps(0 - n % m, 0 - n / m);
    if 0 < n < m {
      DivModUnique(0 - n, -1, m, m - n);
    }
  }

  /** The carry (or borrow) out of the low half goes into the high half; the rest wraps. */
  lemma Carry(h: int, l: int)
    ensures (h * 0x1_0000_0000 + l) % 0x1_0000_0000_0000_0000 ==
            (h + l / 0x1_0000_0000) % 0x1_0000_0000 * 0x1_0000_0000 + l % 0x1_0000_0000
  {
    var s := h + l / 0x1_0000_0000;
    DivModUnique(h * 0x1_0000_0000 + l, s / 0x1_0000_0000, 0x1_0000_0000_0000_0000,
                 s % 0x1_0000_0000 * 0x1_0000_0000 + l % 0x1_0000_0000);
  }

  /** Reducing one summand first does not change a sum modulo 2^32. */
  lemma WrapsFirst(x: int, y: int)
    ensures (x % 0x1_0000_0000 + y) % 0x1_0000_0000 == (x + y) % 0x1_0000_0000
  {
    var m := 0x1_0000_0000;
    var t := x % m + y;
    DivModUnique(x + y, x / m + t / m, m, t % m);
  }

  /** The two conversions change a number by a multiple of 2^32 alone. */
  lemma Conversions(x: int)
    ensures (x - ToUint32(x)) % 0x1_0000_0000 == 0 && 0 <= ToUint32(x) <= 0xFFFF_FFFF
    ensures (x - ToInt32(x)) % 0x1_0000_0000 == 0 && -0x8000_0000 <= ToInt32(x) <= 0x7FFF_FFFF
  {
    var m, q := 0x1_0000_0000, x / 0x1_0000_0000;
    DivModUnique(x - x % m, q, m, 0);
    DivModUnique(x - x % m + m, q + 1, m, 0);
  }
}
