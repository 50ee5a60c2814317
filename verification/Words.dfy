/**
  Fixed-width integers as the generated Go code uses them.

  A machine word is an integer with its range written out.  The bitwise
  operators the code applies to words are given their meaning on naturals, so
  that no width is left implicit: `|` is `Or`; `x << s` in a word of `w` bits is
  `x * Pow2(s) % Pow2(w)`; `x >> s` is division by `Pow2(s)`, and `x & 0x7f` and
  `x & 7` are remainders by 128 and 8.
 */
module Words {
  const TWO_31: int := 0x8000_0000
  const TWO_32: int := 0x1_0000_0000
  const TWO_63: int := 0x8000_0000_0000_0000
  const TWO_64: int := 0x1_0000_0000_0000_0000

  type byte = x: int | 0 <= x < 256
  type uint64 = x: int | 0 <= x < TWO_64
  type int32 = x: int | -TWO_31 <= x < TWO_31

  type Bytes = seq<byte>

  /** `int32(w)`: the low 32 bits of `w` read as two's complement. */
  function Int32(w: nat): int32 {
    var low := w % TWO_32;
    if low < TWO_31 then low else low - TWO_32
  }

  /** `uint64(v)` of an int32: sign extension to 64 bits. */
  function SignExtend(v: int32): uint64 {
    if v >= 0 then v else v + TWO_64
  }

  /** `int(w)` of a 64-bit word, on a platform where int has 64 bits. */
  function Int64(w: nat): int {
    var low := w % TWO_64;
    if low < TWO_63 then low else low - TWO_64
  }

  function Pow2(n: nat): (p: nat)
    ensures p >= 1
  {
    if n == 0 then 1 else 2 * Pow2(n - 1)
  }

  /** Bitwise or, one bit at a time. */
  function Or(x: nat, y: nat): nat
    decreases x + y
  {
    if x == 0 && y == 0 then 0
    else (if x % 2 == 1 || y % 2 == 1 then 1 else 0) + 2 * Or(x / 2, y / 2)
  }

  /** Casting an int32 to uint64 and truncating back loses nothing. */
  lemma SignExtendTruncates(v: int32)
    ensures Int32(SignExtend(v)) == v
    ensures v != 0 ==> SignExtend(v) != 0
  {
  }

  /** Each cast keeps its argument up to a multiple of the word size, within the range of its type. */
  lemma CastsTruncate(w: nat, v: int32)
    ensures -TWO_31 <= Int32(w) < TWO_31 && (w - Int32(w)) % TWO_32 == 0
    ensures -TWO_63 <= Int64(w) < TWO_63 && (w - Int64(w)) % TWO_64 == 0
    ensures 0 <= SignExtend(v) < TWO_64 && (SignExtend(v) - v) % TWO_64 == 0
  {
    assert w == w / TWO_32 * TWO_32 + w % TWO_32;
    assert w == w / TWO_64 * TWO_64 + w % TWO_64;
  }

  /** Bit `k` of `x`. */
  function Bit(x: nat, k: nat): nat {
    x / Pow2(k) % 2
  }

  lemma DivMod(a: nat, m: nat) returns (q: nat, r: nat)
    requires m > 0
    ensures q == a / m && r < m && a == q * m + r
  {
    q, r := a / m, a % m;
  }

  lemma DivDiv(a: nat, b: nat, c: nat)
    requires b > 0 && c > 0
    ensures b * c > 0 && a / b / c == a / (b * c)
  {
    var d, r := DivMod(a, b);
    var q, r' := DivMod(d, c);
    DivTwice(a, b, c, q, r, r');
  }

  lemma DivTwice(a: nat, b: nat, c: nat, q: nat, r: nat, r': nat)
    requires b > 0 && c > 0 && r < b && r' < c && a == (q * c + r') * b + r
    ensures b * c > 0 && a / (b * c) == q
  {
    Recompose(a, b, c, q, r, r');
    var m, rest := b * c, r' * b + r;
    DivUnique(a, m, q, rest);
  }

  lemma Recompose(a: nat, b: nat, c: nat, q: nat, r: nat, r': nat)
    requires b > 0 && c > 0 && r < b && r' < c && a == (q * c + r') * b + r
    ensures b * c > 0 && r' * b + r < b * c && a == q * (b * c) + (r' * b + r)
  {
    assert c * b == b * c;
    MulBound(r', c, b);
    MulSplit(q * c, r', b);
    MulRegroup(q, c, b);
  }

  lemma DivUnique(a: nat, m: nat, q: nat, r: nat)
    requires r < m && a == q * m + r
    ensures a / m == q
  {
    ModUnique(a, m, q, r);
    var d: int := a / m - q;
    assert a == (a / m) * m + a % m;
    assert d * m == (a / m) * m - q * m == 0;
    MultipleFarFromZero(d, m);
  }

  /** Bit by bit, `Or` is the disjunction. */
  lemma {:induction false} OrBits(x: nat, y: nat, k: nat)
    ensures Bit(Or(x, y), k) == 1 <==> Bit(x, k) == 1 || Bit(y, k) == 1
    decreases k
  {
    if k == 0 {
      assert Pow2(0) == 1;
    } else {
      OrBits(x / 2, y / 2, k - 1);
      BitHalf(x, k);
      BitHalf(y, k);
      BitHalf(Or(x, y), k);
      assert Or(x, y) / 2 == Or(x / 2, y / 2);
    }
  }

  lemma BitHalf(x: nat, k: nat)
    requires k > 0
    ensures Bit(x, k) == Bit(x / 2, k - 1)
  {
    DivDiv(x, 2, Pow2(k - 1));
  }

  lemma {:induction false} Pow2Sum(a: nat, b: nat)
    ensures Pow2(a + b) == Pow2(a) * Pow2(b)
  {
    if a > 0 {
      Pow2Sum(a - 1, b);
      assert Pow2(a) * Pow2(b) == 2 * (Pow2(a - 1) * Pow2(b));
    }
  }

  lemma Pow2Widths()
    ensures Pow2(7) == 128 && Pow2(32) == TWO_32 && Pow2(64) == TWO_64
  {
    assert Pow2(4) == 16;
    assert Pow2(7) == 128;
    Pow2Sum(4, 4);
    Pow2Sum(8, 8);
    Pow2Sum(16, 16);
    Pow2Sum(32, 32);
  }

  lemma WordLimits()
    ensures Pow2(31) == TWO_31 && Pow2(32) == TWO_32 && Pow2(63) == TWO_63 && Pow2(64) == TWO_64
  {
    Pow2Widths();
    assert Pow2(32) == 2 * Pow2(31) && Pow2(64) == 2 * Pow2(63);
  }

  lemma MultipleFarFromZero(d: int, m: nat)
    ensures d >= 1 ==> d * m >= m
    ensures d <= -1 ==> d * m <= -(m as int)
  {
  }

  /** The remainder is determined by any decomposition with a small rest. */
  lemma ModUnique(a: nat, m: nat, q: nat, r: nat)
    requires r < m && a == q * m + r
    ensures a % m == r
  {
    var d: int := a / m - q;
    assert a == (a / m) * m + a % m;
    assert d * m == r - a % m;
    MultipleFarFromZero(d, m);
  }

  lemma {:induction false} OrZero(x: nat)
    ensures Or(x, 0) == x && Or(0, x) == x
    decreases x
  {
    if x > 0 {
      OrZero(x / 2);
    }
  }

  /** Or-ing bits above everything set so far is addition. */
  lemma {:induction false} OrDisjoint(x: nat, y: nat, s: nat)
    requires x < Pow2(s)
    ensures Or(x, y * Pow2(s)) == x + y * Pow2(s)
  {
    if s == 0 {
      OrZero(y);
    } else {
      var p := y * Pow2(s - 1);
      assert y * Pow2(s) == 2 * p;
      OrDisjoint(x / 2, y, s - 1);
      if x == 0 && p == 0 {
      } else {
        assert (2 * p) / 2 == p;
      }
    }
  }

  lemma MulRegroup(a: nat, b: nat, c: nat)
    ensures a * (b * c) == (a * b) * c == (a * c) * b
  {
  }

  lemma MulSplit(a: nat, b: nat, c: nat)
    ensures (a + b) * c == a * c + b * c
  {
  }

  lemma MulBound(a: nat, b: nat, c: nat)
    requires a < b
    ensures a * c + c <= b * c
  {
    MulSplit(a + 1, b - a - 1, c);
    MulSplit(a, 1, c);
  }

  /** Adding a multiple of the modulus does not change a remainder. */
  lemma ModAddMultiple(x: nat, k: nat, m: nat)
    requires m > 0
    ensures (x + k * m) % m == x % m
  {
    var q := x / m;
    MulSplit(q, k, m);
    assert x == q * m + x % m;
    ModUnique(x + k * m, m, q + k, x % m);
  }

  /** Shifting by a word width or more leaves no bits in the word. */
  lemma OrShiftedOut(x: nat, y: nat, s: nat, w: nat)
    requires s >= w
    ensures Or(x % Pow2(w), (y * Pow2(s)) % Pow2(w)) == (x + y * Pow2(s)) % Pow2(w)
  {
    var pw := Pow2(w);
    var k := y * Pow2(s - w);
    Pow2Sum(s - w, w);
    MulRegroup(y, Pow2(s - w), pw);
    ModAddMultiple(0, k, pw);
    ModAddMultiple(x, k, pw);
    OrZero(x % pw);
  }

  /** The high part of `y << s` that a word of `ps * pq` values drops. */
  lemma ShiftSplit(y: nat, ps: nat, pq: nat) returns (q: nat, rest: nat)
    requires ps > 0 && pq > 0
    ensures rest == (y % pq) * ps && rest + ps <= ps * pq
    ensures y * ps == rest + q * (ps * pq)
  {
    q, rest := y / pq, (y % pq) * ps;
    assert y == q * pq + y % pq;
    MulSplit(q * pq, y % pq, ps);
    MulRegroup(q, pq, ps);
    MulBound(y % pq, pq, ps);
  }

  lemma OrWithinWord(x: nat, y: nat, s: nat, w: nat)
    requires s < w && x < Pow2(s)
    ensures Or(x % Pow2(w), (y * Pow2(s)) % Pow2(w)) == (x + y * Pow2(s)) % Pow2(w)
  {
    var pw := Pow2(w);
    Pow2Sum(s, w - s);
    var q, rest := ShiftSplit(y, Pow2(s), Pow2(w - s));
    ModUnique(y * Pow2(s), pw, q, rest);
    ModUnique(x + y * Pow2(s), pw, q, x + rest);
    ModUnique(x, pw, 0, x);
    OrDisjoint(x, y % Pow2(w - s), s);
  }

  /**
    One round of `acc |= T(b & 0x7f) << s` in a word of `w` bits, for
    an accumulator that holds the low `w` bits of `x`: the result holds the low
    `w` bits of the untruncated sum, also when the shift runs past the word.
   */
  lemma OrNarrow(x: nat, y: nat, s: nat, w: nat)
    requires x < Pow2(s)
    ensures Or(x % Pow2(w), (y * Pow2(s)) % Pow2(w)) == (x + y * Pow2(s)) % Pow2(w)
  {
    if s >= w {
      OrShiftedOut(x, y, s, w);
    } else {
      OrWithinWord(x, y, s, w);
    }
  }
}
