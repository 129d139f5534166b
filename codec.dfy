/** The bit-field codec of the half-precision layout: masking the low bits of
    an integer and splitting a 16-bit word into, or joining it from, its
    10-bit mantissa, 5-bit biased exponent and sign bit.

    Integers are unbounded, as in Python. `x & (2^k - 1)` is Euclidean
    `x % 2^k` (also for negative `x`), `x >> k` is `x / 2^k` (floor division),
    and `x & 2^j != 0` holds exactly when `Bit(x, j) == 1`. */
module Codec {

  /** 2 ** n. */
  function Pow2(n: nat): (r: nat)
    ensures r >= 1
  {
    if n == 0 then 1 else 2 * Pow2(n - 1)
  }

  /** Bit j of n in Python's infinite two's complement: (n >> j) & 1. */
  function Bit(n: int, j: nat): int
  {
    (n / Pow2(j)) % 2
  }

  /** mask(num, length): the low order `length` bits of `num`. The result is
      the unique value in [0, 2^length) that differs from `num` by a multiple
      of 2^length. */
  function Mask(num: int, length: nat): (r: int)
    ensures 0 <= r < Pow2(length)
  {
    num % Pow2(length)
  }

  /** The three fields of a word, in the order hpf_split returns them. */
  datatype Fields = Fields(mantissa: int, exp: int, sign: int)

  /** hpf_split: mantissa from bits 0-9, exponent from bits 10-14, sign from
      bit 15. Any integer is accepted; higher bits are ignored. The masks and
      shifts are written with their values (2^10 = 1024, 2^15 = 32768);
      SplitBits states which bits of num each field holds. */
  function Split(num: int): (f: Fields)
    ensures 0 <= f.mantissa < 1024 && 0 <= f.exp < 32 && 0 <= f.sign < 2
  {
    Fields(num % 1024, (num / 1024) % 32, (num / 32768) % 2)
  }

  /** hpf_join: each field is masked to its width before the word is composed,
      so the result always fits in 16 bits. JoinBits states which bit of the
      word comes from which field. */
  function Join(mantissa: int, exp: int, sign: int): (r: int)
    ensures 0 <= r < 65536
  {
    mantissa % 1024 + (exp % 32) * 1024 + (sign % 2) * 32768
  }

  function JoinFields(f: Fields): int
  {
    Join(f.mantissa, f.exp, f.sign)
  }

  // ---------------------------------------------------------------------
  // Arithmetic facts about powers of two and Euclidean division.

  lemma Pow2Constants()
    ensures Pow2(1) == 2 && Pow2(5) == 32 && Pow2(9) == 512 && Pow2(10) == 1024
    ensures Pow2(11) == 2048 && Pow2(15) == 32768 && Pow2(16) == 65536
    ensures Pow2(20) == 1048576 && Pow2(21) == 2097152 && Pow2(22) == 4194304
  {
    assert Pow2(5) == 32;
    assert Pow2(10) == 1024;
    assert Pow2(15) == 32768;
    assert Pow2(20) == 1048576;
  }

  lemma {:induction false} Pow2Add(a: nat, b: nat)
    ensures Pow2(a + b) == Pow2(a) * Pow2(b)
  {
    if a > 0 {
      Pow2Add(a - 1, b);
      assert Pow2(a + b) == 2 * Pow2(a - 1 + b);
    }
  }

  lemma Pow2Monotone(a: nat, b: nat)
    requires a <= b
    ensures Pow2(a) <= Pow2(b)
  {
    Pow2Add(a, b - a);
  }

  lemma MulAtLeast(t: int, d: int)
    requires t >= 1 && d > 0
    ensures t * d >= d
  {
  }

  /** Euclidean division is determined by any quotient/remainder pair. */
  lemma DivModUnique(x: int, d: int, q: int, r: int)
    requires d > 0 && 0 <= r < d && x == q * d + r
    ensures x / d == q && x % d == r
  {
    var q', r' := x / d, x % d;
    assert x == q' * d + r';
    var t := q - q';
    assert t * d == q * d - q' * d;
    assert t * d == r' - r;
    if t >= 1 {
      MulAtLeast(t, d);
    } else if t <= -1 {
      MulAtLeast(-t, d);
    }
  }

  lemma MulRemBound(r2: int, a: int, b: int, r1: int)
    requires 0 <= r2 < b && 0 <= r1 < a
    ensures 0 <= r2 * a + r1 < a * b
  {
    assert r2 * a <= (b - 1) * a;
  }

  lemma DivDiv(x: int, a: int, b: int)
    requires a > 0 && b > 0
    ensures x / a / b == x / (a * b)
  {
    var q1, r1 := x / a, x % a;
    var q2, r2 := q1 / b, q1 % b;
    assert x == q1 * a + r1;
    assert q1 == q2 * b + r2;
    assert q1 * a == q2 * (a * b) + r2 * a;
    MulRemBound(r2, a, b, r1);
    DivModUnique(x, a * b, q2, r2 * a + r1);
  }

  lemma MulLeMono(a: int, b: int, c: int, d: int)
    requires 0 <= a <= b && 0 <= c <= d
    ensures a * c <= b * d
  {
    assert a * c <= b * c;
    assert b * c <= b * d;
  }

  lemma MulLtMono(a: int, b: int, c: int, d: int)
    requires 0 <= a < b && 0 <= c < d
    ensures a * c < b * d
  {
    assert a * c <= a * d;
    assert a * d < b * d;
  }

  lemma DivAtLeast(x: int, d: int, m: int)
    requires d > 0 && m * d <= x
    ensures m <= x / d
  {
    var q, r := x / d, x % d;
    assert x == q * d + r;
    assert x < (q + 1) * d;
    if q < m {
      MulLeMono(q + 1, m, d, d);
    }
  }

  lemma DivBelow(x: int, d: int, m: int)
    requires d > 0 && 0 <= x < m * d
    ensures x / d < m
  {
    var q, r := x / d, x % d;
    assert x == q * d + r;
    if q >= m {
      MulLeMono(m, q, d, d);
    }
  }

  /** A value in [2^(n+k), 2^(n+k+1)) shifted right by n lies in
      [2^k, 2^(k+1)). */
  lemma ShiftRange(x: int, n: nat, k: nat)
    requires Pow2(n + k) <= x < Pow2(n + k + 1)
    ensures Pow2(k) <= x / Pow2(n) < Pow2(k + 1)
  {
    Pow2Add(k, n);
    Pow2Add(k + 1, n);
    DivAtLeast(x, Pow2(n), Pow2(k));
    DivBelow(x, Pow2(n), Pow2(k + 1));
  }

  /** Shifting a value of bit length l+1 left by s gives bit length l+s+1. */
  lemma ScaledRange(n: int, l: nat, s: nat)
    requires Pow2(l) <= n < Pow2(l + 1)
    ensures Pow2(l + s) <= n * Pow2(s) < Pow2(l + s + 1)
  {
    Pow2Add(l, s);
    Pow2Add(l + 1, s);
    MulLeMono(Pow2(l), n, Pow2(s), Pow2(s));
    MulLeMono(n + 1, Pow2(l + 1), Pow2(s), Pow2(s));
    assert (n + 1) * Pow2(s) == n * Pow2(s) + Pow2(s);
  }

  lemma MulAssoc(a: int, b: int, c: int)
    ensures (a * b) * c == a * (b * c)
  {
  }

  /** (q * d + r) * m == (q * m) * d + r * m */
  lemma MulSpread(q: int, d: int, r: int, m: int)
    ensures (q * d + r) * m == (q * m) * d + r * m
  {
  }

  /** x >> n is x divided by 2^n, rounded down. */
  lemma ShiftBounds(x: int, n: nat)
    ensures (x / Pow2(n)) * Pow2(n) <= x < (x / Pow2(n) + 1) * Pow2(n)
  {
    var q, r := x / Pow2(n), x % Pow2(n);
    assert x == q * Pow2(n) + r;
    assert (q + 1) * Pow2(n) == q * Pow2(n) + Pow2(n);
  }

  /** A value has one bit length. */
  lemma BitLengthUnique(P: int, k1: nat, k2: nat)
    requires Pow2(k1) <= P < Pow2(k1 + 1) && Pow2(k2) <= P < Pow2(k2 + 1)
    ensures k1 == k2
  {
    if k1 < k2 { Pow2Monotone(k1 + 1, k2); }
    if k2 < k1 { Pow2Monotone(k2 + 1, k1); }
  }

  lemma ProductRearrange(a: int, x: int, b: int, y: int)
    ensures (a * x) * (b * y) == (a * b) * (x * y)
  {
  }

  /** (A << sa) * (B << sb) == (A * B) << (sa + sb) */
  lemma ShiftedProduct(A: int, B: int, sa: nat, sb: nat)
    ensures (A * Pow2(sa)) * (B * Pow2(sb)) == (A * B) * Pow2(sa + sb)
  {
    ProductRearrange(A, Pow2(sa), B, Pow2(sb));
    Pow2Add(sa, sb);
  }

  /** P << (t + u) == (P << t) << u */
  lemma ReShift(P: int, s: nat, t: nat, u: nat)
    requires s == t + u
    ensures P * Pow2(s) == (P * Pow2(t)) * Pow2(u)
  {
    Pow2Add(t, u);
    MulAssoc(P, Pow2(t), Pow2(u));
  }

  /** Shifting right by j and then by k is shifting right by j + k. */
  lemma ShiftShift(x: int, j: nat, k: nat)
    ensures x / Pow2(j) / Pow2(k) == x / Pow2(j + k)
  {
    Pow2Add(j, k);
    DivDiv(x, Pow2(j), Pow2(k));
  }

  // ---------------------------------------------------------------------
  // What mask computes, bit by bit.

  /** mask(num, length) keeps bits 0 .. length-1 of num and clears all
      higher bits. */
  lemma MaskKeepsLowBits(num: int, length: nat, j: nat)
    ensures j < length ==> Bit(Mask(num, length), j) == Bit(num, j)
    ensures j >= length ==> Bit(Mask(num, length), j) == 0
  {
    if j < length {
      MaskKeepsBit(num, length, j);
    } else {
      Pow2Monotone(length, j);
      DivModUnique(Mask(num, length), Pow2(j), 0, Mask(num, length));
    }
  }

  lemma MaskKeepsBit(num: int, length: nat, j: nat)
    requires j < length
    ensures Bit(Mask(num, length), j) == Bit(num, j)
  {
    var r := Mask(num, length);
    var t := num / Pow2(length);
    var k: nat := length - j - 1;
    // num == t * 2^length + r, and 2^length == 2 * 2^k * 2^j
    assert num == t * Pow2(length) + r;
    Pow2Split(length, j, k);
    MulRegroup(t, Pow2(length), Pow2(k), Pow2(j));
    BitIgnoresEvenMultiple(num, t * Pow2(k), r, j);
  }

  lemma Pow2Split(n: nat, j: nat, k: nat)
    requires n == k + 1 + j
    ensures Pow2(n) == (2 * Pow2(k)) * Pow2(j)
  {
    Pow2Add(k + 1, j);
  }

  lemma MulRegroup(t: int, p: int, a: int, b: int)
    requires p == (2 * a) * b
    ensures t * p == (2 * (t * a)) * b
  {
    MulAssoc(t, 2 * a, b);
    MulAssoc(t, 2, a);
  }

  /** Adding an even multiple of 2^j leaves bit j unchanged. */
  lemma BitIgnoresEvenMultiple(x: int, h: int, r: int, j: nat)
    requires x == (2 * h) * Pow2(j) + r
    ensures Bit(x, j) == Bit(r, j)
  {
    DivAddMultiple(r, Pow2(j), 2 * h);
    EvenAddMod(h, r / Pow2(j));
  }

  /** (t * d + x) / d == t + x / d */
  lemma DivAddMultiple(x: int, d: int, t: int)
    requires d > 0
    ensures (t * d + x) / d == t + x / d
  {
    assert x == (x / d) * d + x % d;
    DivModUnique(t * d + x, d, t + x / d, x % d);
  }

  lemma EvenAddMod(t: int, y: int)
    ensures (2 * t + y) % 2 == y % 2
  {
    DivModUnique(2 * t + y, 2, t + y / 2, y % 2);
  }

  /** For a non-negative value below 2^(j+1), bit j is set exactly when the
      value is at least 2^j. */
  lemma TopBit(n: int, j: nat)
    requires 0 <= n < Pow2(j + 1)
    ensures Bit(n, j) == 1 <==> n >= Pow2(j)
    ensures 0 <= Bit(n, j) <= 1
  {
    if n >= Pow2(j) {
      DivModUnique(n, Pow2(j), 1, n - Pow2(j));
    } else {
      DivModUnique(n, Pow2(j), 0, n);
    }
  }

  // ---------------------------------------------------------------------
  // Round trips between split and join.

  /** The fields hpf_split returns are the bit fields of num: num is the
      mantissa, plus the exponent shifted by 10, plus the sign shifted by 15,
      plus a multiple of 2^16. */
  lemma SplitDecomposes(num: int)
    ensures var f := Split(num);
      num == f.mantissa + f.exp * 1024 + f.sign * 32768 + (num / 65536) * 65536
  {
    Pow2Constants();
    var f := Split(num);
    var a := num / 1024;
    var b := a / 32;
    DivDiv(num, 1024, 32);
    assert b == num / 32768;
    assert f.exp == a % 32;
    assert f.sign == b % 2;
    DivDiv(num, 32768, 2);
    assert num / 32768 / 2 == num / 65536;
    assert num == f.mantissa + a * 1024;
    assert a == f.exp + b * 32;
    assert b == f.sign + (num / 65536) * 2;
  }

  /** hpf_join(hpf_split(w)) == w for every 16-bit word. */
  lemma JoinSplit(w: int)
    requires 0 <= w < 65536
    ensures JoinFields(Split(w)) == w
  {
    Pow2Constants();
    SplitDecomposes(w);
    DivModUnique(w, 65536, 0, w);
    var f := Split(w);
    assert Mask(f.mantissa, 10) == f.mantissa by { DivModUnique(f.mantissa, 1024, 0, f.mantissa); }
    assert Mask(f.exp, 5) == f.exp by { DivModUnique(f.exp, 32, 0, f.exp); }
    assert Mask(f.sign, 1) == f.sign by { DivModUnique(f.sign, 2, 0, f.sign); }
  }

  /** hpf_split(hpf_join(m, e, s)) == (m mod 1024, e mod 32, s mod 2) for all
      integers, negative ones included. */
  lemma SplitJoin(m: int, e: int, s: int)
    ensures Split(Join(m, e, s)) == Fields(m % 1024, e % 32, s % 2)
  {
    Pow2Constants();
    var M, E, S := m % 1024, e % 32, s % 2;
    var w := Join(m, e, s);
    assert w == M + E * 1024 + S * 32768;
    DivModUnique(w, 1024, E + S * 32, M);
    DivModUnique(E + S * 32, 32, S, E);
    DivModUnique(w, 32768, S, M + E * 1024);
    DivModUnique(S, 2, 0, S);
  }

  /** Fields already in range come back unchanged from the word. */
  lemma SplitJoinInRange(m: int, e: int, s: int)
    requires 0 <= m < 1024 && 0 <= e < 32 && 0 <= s <= 1
    ensures Split(Join(m, e, s)) == Fields(m, e, s)
  {
    SplitJoin(m, e, s);
    DivModUnique(m, 1024, 0, m);
    DivModUnique(e, 32, 0, e);
    DivModUnique(s, 2, 0, s);
  }

  /** Only the low 16 bits of an integer matter to hpf_split. */
  lemma SplitLow16(num: int)
    ensures Split(num) == Split(num % 65536)
  {
    Pow2Constants();
    var f := Split(num);
    SplitDecomposes(num);
    var w := num % 65536;
    assert w == f.mantissa + f.exp * 1024 + f.sign * 32768;
    JoinSplit(w);
    SplitJoin(f.mantissa, f.exp, f.sign);
    assert Join(f.mantissa, f.exp, f.sign) == w by {
      DivModUnique(f.mantissa, 1024, 0, f.mantissa);
      DivModUnique(f.exp, 32, 0, f.exp);
      DivModUnique(f.sign, 2, 0, f.sign);
    }
    DivModUnique(f.mantissa, 1024, 0, f.mantissa);
    DivModUnique(f.exp, 32, 0, f.exp);
    DivModUnique(f.sign, 2, 0, f.sign);
  }

  // ---------------------------------------------------------------------
  // The bit layout of a word.

  /** hpf_split reads the mantissa from bits 0-9 of num, the exponent from
      bits 10-14 and the sign from bit 15. */
  lemma SplitBits(num: int, j: nat)
    ensures j < 10 ==> Bit(Split(num).mantissa, j) == Bit(num, j)
    ensures j < 5 ==> Bit(Split(num).exp, j) == Bit(num, 10 + j)
    ensures Split(num).sign == Bit(num, 15)
  {
    Pow2Constants();
    var f := Split(num);
    assert f.mantissa == Mask(num, 10);
    MaskKeepsLowBits(num, 10, j);
    var x := num / Pow2(10);
    assert f.exp == Mask(x, 5);
    MaskKeepsLowBits(x, 5, j);
    ShiftShift(num, 10, j);
  }

  /** hpf_join puts bits 0-9 of the mantissa into bits 0-9 of the word,
      bits 0-4 of the exponent into bits 10-14 and bit 0 of the sign into
      bit 15; every higher bit of the word is 0. */
  lemma JoinBits(m: int, e: int, s: int, j: nat)
    ensures j < 10 ==> Bit(Join(m, e, s), j) == Bit(m, j)
    ensures 10 <= j < 15 ==> Bit(Join(m, e, s), j) == Bit(e, j - 10)
    ensures Bit(Join(m, e, s), 15) == Bit(s, 0)
    ensures j >= 16 ==> Bit(Join(m, e, s), j) == 0
  {
    var w := Join(m, e, s);
    Pow2Constants();
    SplitJoin(m, e, s);
    if j < 10 {
      SplitBits(w, j);
      MaskKeepsLowBits(m, 10, j);
    } else if j < 15 {
      var t: nat := j - 10;
      SplitBits(w, t);
      MaskKeepsLowBits(e, 5, t);
    } else if j >= 16 {
      Pow2Monotone(16, j);
      DivModUnique(w, Pow2(j), 0, w);
    }
    SplitBits(w, 0);
  }

  /** hpf_join drops the implicit bit: taking 2^10 off the mantissa does
      not change the word. */
  lemma JoinDropsImplicitBit(m: int, e: int, s: int)
    ensures Join(m, e, s) == Join(m - 1024, e, s)
  {
    DivModUnique(m, 1024, (m - 1024) / 1024 + 1, (m - 1024) % 1024);
  }

  /** The doctests of mask, hpf_split and hpf_join. */
  lemma CodecExamples()
    ensures Mask(10, 3) == 2 && Mask(711, 3) == 7 && Mask(726, 5) == 22
    ensures Split(9221) == Fields(5, 9, 0)
    ensures Join(5, 9, 0) == 9221
  {
    Pow2Constants();
    assert Pow2(3) == 8;
  }
}
