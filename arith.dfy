/** The arithmetic of the half-precision layout: the addition stub, the
    product with its normalising shift loop, and the product/conversion
    agreement that the test harness checks. */
module Arith {
  import opened Codec
  import opened Convert

  /** s1 ^ s2 on two sign bits. */
  function Xor(a: int, b: int): (r: int)
    requires 0 <= a <= 1 && 0 <= b <= 1
    ensures 0 <= r <= 1
    ensures r == 1 <==> a != b
  {
    if a == b then 0 else 1
  }

  /** hpf_add as written: the operands are split and reordered so that the
      one with the larger exponent comes first, but no sum is formed and
      the word of three zero fields is returned. */
  function HpfAdd(d1: int, d2: int): (r: int)
    ensures r == 0
  {
    var f1, f2 := Split(d1), Split(d2);
    // prototypes/hpf.py:98-99 put the operand with the larger exponent first; nothing
    // after them reads the reordered fields.
    var (big, small) := if f2.exp > f1.exp then (f2, f1) else (f1, f2);
    Join(0, 0, 0)
  }

  /** The stub does not add: to_hpf(1) is 15360, and hpf_add of it with
      itself is 0 rather than to_hpf(2), which is 16384. */
  lemma HpfAddIsNotSum()
    ensures ToHpfSpec(1) == Ok(15360) && ToHpfSpec(2) == Ok(16384)
    ensures HpfAdd(15360, 15360) != 16384
  {
    Pow2Constants();
    Log2Unique(1, 0);
    Log2Unique(2, 1);
    assert Abs(1) % 1024 == 1 && Abs(2) % 1024 == 2;
  }

  /** The product of the two significands with their implicit bits
      restored: an 11-bit by 11-bit product, so below 2^22 and at least
      2^20. */
  function SignificandProduct(f1: Fields, f2: Fields): (p: int)
    requires 0 <= f1.mantissa < 1024 && 0 <= f2.mantissa < 1024
    ensures 1048576 <= p < 4194304
  {
    MulLeMono(1024, f1.mantissa + 1024, 1024, f2.mantissa + 1024);
    MulLtMono(f1.mantissa + 1024, 2048, f2.mantissa + 1024, 2048);
    (f1.mantissa + 1024) * (f2.mantissa + 1024)
  }

  /** 1 when bit 21 (2^21 = 2097152) of the product is set: the exponent
      goes up by one and one more right shift is needed. */
  function Carry(p: int): int
  {
    if p >= 2097152 then 1 else 0
  }

  /** What the shift loop leaves of a significand product: the product
      shifted right by 10 places, or by 11 on carry (2^10 = 1024,
      2^11 = 2048). */
  function Significand(p: int): int
  {
    if Carry(p) == 1 then p / 2048 else p / 1024
  }

  /** hpf_prod in closed form: the truncated significand product, exponent
      e1 + e2 - 15 (+1 on carry), sign s1 xor s2, all masked by hpf_join. */
  function HpfProdSpec(d1: int, d2: int): int
  {
    var f1, f2 := Split(d1), Split(d2);
    var p := SignificandProduct(f1, f2);
    Join(Significand(p), f1.exp + f2.exp - 15 + Carry(p), Xor(f1.sign, f2.sign))
  }

  /** hpf_prod, with its carry test on bit 21 and its loop shifting the
      product right until nothing is left above bit 10. */
  method HpfProd(d1: int, d2: int) returns (r: int)
    ensures r == HpfProdSpec(d1, d2)
  {
    Pow2Constants();
    var f1 := Split(d1);
    var f2 := Split(d2);
    var m1 := f1.mantissa + Pow2(10);
    var m2 := f2.mantissa + Pow2(10);
    var m := m1 * m2;
    var e := f1.exp + f2.exp - 15;
    var s := Xor(f1.sign, f2.sign);
    ghost var p := SignificandProduct(f1, f2);
    ghost var c := Carry(p);
    assert m == p;
    TopBit(p, 21);
    if Bit(m, 21) != 0 {
      e := e + 1;
    }
    assert e == f1.exp + f2.exp - 15 + c;
    ghost var j: nat := 0;
    while m / Pow2(11) != 0
      invariant j <= 10 + c
      invariant m == p / Pow2(j)
      invariant Pow2(20 + c - j) <= m < Pow2(21 + c - j)
      decreases m
    {
      ShiftShift(p, j, 1);
      ShiftRange(m, 1, 20 + c - j - 1);
      m := m / 2;
      j := j + 1;
    }
    ShiftLoopExit(p, m, c, j);
    r := Join(m, e, s);
  }

  /** The shift loop stops after exactly 10 + carry shifts, leaving the
      truncated significand. */
  lemma ShiftLoopExit(p: int, m: int, c: int, j: nat)
    requires 1048576 <= p < 4194304 && c == Carry(p)
    requires j <= 10 + c && m == p / Pow2(j)
    requires Pow2(20 + c - j) <= m && m / Pow2(11) == 0
    ensures j == 10 + c
    ensures m == Significand(p)
  {
    Pow2Constants();
    if j < 10 + c {
      Pow2Monotone(11, 20 + c - j);
    }
  }

  // ---------------------------------------------------------------------
  // Properties of the product.

  /** The significand the loop leaves is in [2^10, 2^11) and is the
      product truncated toward zero: scaled back by 2^(10 + carry) it is at
      most the product and one more unit is above it. */
  lemma SignificandTruncates(p: int)
    requires 1048576 <= p < 4194304
    ensures 0 <= Carry(p) <= 1
    ensures 1024 <= Significand(p) < 2048
    ensures Significand(p) * Pow2(10 + Carry(p)) <= p < (Significand(p) + 1) * Pow2(10 + Carry(p))
  {
    Pow2Constants();
    ShiftBounds(p, 10 + Carry(p));
  }

  /** What hpf_prod produces, field by field: the sign is s1 xor s2; the
      exponent is e1 + e2 - 15, plus one on carry, reduced mod 32 (so an
      exponent below zero or above 31 wraps); the restored significand
      1024 + m is the product of the significands truncated to 11 bits
      (rounding toward zero). */
  lemma ProdFields(d1: int, d2: int)
    ensures var f1, f2, f := Split(d1), Split(d2), Split(HpfProdSpec(d1, d2));
      var p := (f1.mantissa + 1024) * (f2.mantissa + 1024);
      && f.sign == Xor(f1.sign, f2.sign)
      && f.exp == (f1.exp + f2.exp - 15 + Carry(p)) % 32
      && (1024 + f.mantissa) * Pow2(10 + Carry(p)) <= p < (1025 + f.mantissa) * Pow2(10 + Carry(p))
  {
    var f1, f2 := Split(d1), Split(d2);
    var p := SignificandProduct(f1, f2);
    var sig := Significand(p);
    var e, sg := f1.exp + f2.exp - 15 + Carry(p), Xor(f1.sign, f2.sign);
    SignificandTruncates(p);
    FieldsOfJoin(sig, e, sg);
  }

  /** The fields of a word joined from a significand in [2^10, 2^11), an
      exponent and a sign bit. */
  lemma FieldsOfJoin(sig: int, e: int, sg: int)
    requires 1024 <= sig < 2048 && 0 <= sg <= 1
    ensures Split(Join(sig, e, sg)) == Fields(sig - 1024, e % 32, sg)
  {
    SplitJoin(sig, e, sg);
    DivModUnique(sig, 1024, 1, sig - 1024);
    DivModUnique(sg, 2, 0, sg);
  }

  /** There is no zero case: hpf_prod of the all-zero words, and of two
      to_hpf(0) words, is 17408 (mantissa 0, exponent -15 wrapped to 17). */
  lemma ProdHasNoZeroCase()
    ensures HpfProdSpec(0, 0) == 17408
    ensures HpfProdSpec(491520, 491520) == 17408
  {
    Pow2Constants();
    ToHpfZero();
    assert Split(0) == Fields(0, 0, 0);
    assert SignificandProduct(Fields(0, 0, 0), Fields(0, 0, 0)) == 1048576;
    assert SignificandProduct(Fields(0, 0, 1), Fields(0, 0, 1)) == 1048576;
    assert Join(1024, -15, 0) == 17408;
  }

  // ---------------------------------------------------------------------
  // Product of converted integers.

  /** Multiplying the words of two non-zero integers whose product has
      magnitude below 1024 gives exactly the word of their product. */
  lemma ProdOfConversions(a: int, b: int)
    requires a != 0 && b != 0 && Abs(a * b) < 1024
    ensures ToHpfChecked(a).Ok? && ToHpfChecked(b).Ok? && ToHpfChecked(a * b).Ok?
    ensures HpfProdSpec(ToHpfChecked(a).word, ToHpfChecked(b).word) == ToHpfChecked(a * b).word
  {
    SignedProduct(a, b);
    ConversionWord(a);
    ConversionWord(b);
    ConversionWord(a * b);
    ProdOfWords(Abs(a), Abs(b), Abs(a * b), SignBit(a), SignBit(b));
  }

  /** |a * b| == |a| * |b|, the product's sign bit is the xor of the
      factors' sign bits, and neither factor is larger in magnitude than
      the product. */
  lemma SignedProduct(a: int, b: int)
    requires a != 0 && b != 0
    ensures Abs(a * b) == Abs(a) * Abs(b)
    ensures SignBit(a * b) == Xor(SignBit(a), SignBit(b))
    ensures Abs(a) <= Abs(a * b) && Abs(b) <= Abs(a * b)
  {
    MulLeMono(1, Abs(a), 1, Abs(b));
    MulLeMono(Abs(a), Abs(a), 1, Abs(b));
    MulLeMono(1, Abs(a), Abs(b), Abs(b));
    if a < 0 && b < 0 {
      assert a * b == (-a) * (-b);
    } else if a < 0 {
      assert a * b == -((-a) * b);
    } else if b < 0 {
      assert a * b == -(a * (-b));
    }
  }

  /** The words of magnitudes A and B, with sign bits sa and sb, multiply
      to the word of A * B with sign bit sa xor sb. */
  lemma ProdOfWords(A: int, B: int, P: int, sa: int, sb: int)
    requires 1 <= A && 1 <= B && P == A * B && P < 1024
    requires 0 <= sa <= 1 && 0 <= sb <= 1
    ensures A < 1024 && B < 1024 && 1 <= P
    ensures HpfProdSpec(Word(A, sa), Word(B, sb)) == Word(P, Xor(sa, sb))
  {
    ProdOfMagnitudes(A, B, P);
    WordFields(A, sa);
    WordFields(B, sb);
    WordFields(P, Xor(sa, sb));
    ProdOfFields(Word(A, sa), Word(B, sb), Word(P, Xor(sa, sb)),
      Normalised(A), Normalised(B), Log2(A), Log2(B), Log2(P));
  }

  /** hpf_prod of two words with restored significands NA, NB and unbiased
      exponents la, lb is the word w whose significand is the truncated
      product, whose unbiased exponent is la + lb plus the carry, and whose
      sign is the xor of theirs. */
  lemma ProdOfFields(w1: int, w2: int, w: int, NA: int, NB: int, la: int, lb: int, L: int)
    requires 0 <= w < 65536
    requires Split(w1).mantissa + 1024 == NA && Split(w2).mantissa + 1024 == NB
    requires Split(w1).exp == 15 + la && Split(w2).exp == 15 + lb && Split(w).exp == 15 + L
    requires la + lb + Carry(NA * NB) == L
    requires Significand(NA * NB) == Split(w).mantissa + 1024
    requires Split(w).sign == Xor(Split(w1).sign, Split(w2).sign)
    ensures HpfProdSpec(w1, w2) == w
  {
    var f1, f2, f := Split(w1), Split(w2), Split(w);
    var p := SignificandProduct(f1, f2);
    assert p == NA * NB;
    var e, s := f1.exp + f2.exp - 15 + Carry(p), Xor(f1.sign, f2.sign);
    JoinDropsImplicitBit(Significand(p), e, s);
    JoinSplit(w);
    assert Significand(p) - 1024 == f.mantissa && e == f.exp && s == f.sign;
  }

  /** For magnitudes A, B whose product P is below 1024: the exponents add
      up to P's once the carry is counted, and the product of the
      significands truncates to P's significand. */
  lemma ProdOfMagnitudes(A: int, B: int, P: int)
    requires 1 <= A && 1 <= B && P == A * B && P < 1024
    ensures A < 1024 && B < 1024 && 1 <= P
    ensures Log2(A) + Log2(B) + Carry(Normalised(A) * Normalised(B)) == Log2(P)
    ensures Significand(Normalised(A) * Normalised(B)) == Normalised(P)
  {
    MulLeMono(A, A, 1, B);
    MulLeMono(1, A, B, B);
    NormalisedFacts(A);
    NormalisedFacts(B);
    NormalisedFacts(P);
    var la, lb, L := Log2(A), Log2(B), Log2(P);
    assert Pow2(la) <= A < Pow2(la + 1) && Pow2(lb) <= B < Pow2(lb + 1);
    assert Pow2(L) <= A * B < Pow2(L + 1);
    ProdOfSignificands(A, B, la, lb, L, Normalised(A), Normalised(B), Normalised(P));
  }

  /** The bit length of A * B is the sum of the bit lengths of A and B,
      or one more. */
  lemma ProductBitLength(A: int, B: int, la: nat, lb: nat)
    requires Pow2(la) <= A < Pow2(la + 1) && Pow2(lb) <= B < Pow2(lb + 1)
    ensures Pow2(la + lb) <= A * B < Pow2(la + lb + 2)
  {
    Pow2Add(la, lb);
    MulLeMono(Pow2(la), A, Pow2(lb), B);
    Pow2Add(la + 1, lb + 1);
    MulLtMono(A, Pow2(la + 1), B, Pow2(lb + 1));
  }

  lemma ProductCarryBit(A: int, B: int, la: nat, lb: nat, L: nat)
    requires Pow2(la) <= A < Pow2(la + 1) && Pow2(lb) <= B < Pow2(lb + 1)
    requires Pow2(L) <= A * B < Pow2(L + 1)
    ensures L == la + lb || L == la + lb + 1
  {
    ProductBitLength(A, B, la, lb);
    if A * B >= Pow2(la + lb + 1) {
      BitLengthUnique(A * B, L, la + lb + 1);
    } else {
      BitLengthUnique(A * B, L, la + lb);
    }
  }

  /** The significands NA, NB of magnitudes A, B of bit lengths la + 1,
      lb + 1, and N of their product, of bit length L + 1: NA * NB is N
      shifted left by 10 + carry, and la + lb + carry == L. */
  lemma ProdOfSignificands(A: int, B: int, la: nat, lb: nat, L: nat, NA: int, NB: int, N: int)
    requires la <= 10 && lb <= 10 && L <= 9
    requires Pow2(la) <= A < Pow2(la + 1) && Pow2(lb) <= B < Pow2(lb + 1)
    requires Pow2(L) <= A * B < Pow2(L + 1)
    requires NA == A * Pow2(10 - la) && NB == B * Pow2(10 - lb) && N == (A * B) * Pow2(10 - L)
    requires 1024 <= N < 2048
    ensures la + lb + Carry(NA * NB) == L
    ensures Significand(NA * NB) == N
  {
    ProductCarryBit(A, B, la, lb, L);
    var c := L - la - lb;
    ShiftedProduct(A, B, 10 - la, 10 - lb);
    ReShift(A * B, (10 - la) + (10 - lb), 10 - L, 10 + c);
    CarryOfProduct(NA * NB, N, c);
  }

  /** When the significand product X is a significand N shifted left by
      10 + c, the carry is c and the loop shifts back to N. */
  lemma CarryOfProduct(X: int, N: int, c: int)
    requires 1024 <= N < 2048 && 0 <= c <= 1
    requires X == N * Pow2(10 + c)
    ensures Carry(X) == c
    ensures Significand(X) == N
  {
    Pow2Constants();
    if c == 1 {
      assert X == N * 2048;
      DivModUnique(X, 2048, N, 0);
    } else {
      assert X == N * 1024;
      DivModUnique(X, 1024, N, 0);
    }
  }

  /** The test harness's check, test(a, b), holds for every pair it sweeps:
      1 <= a, b <= 31. */
  lemma TestHarness(a: int, b: int)
    requires 1 <= a <= 31 && 1 <= b <= 31
    ensures 1 <= a * b <= 961
    ensures Halts(a) && Halts(b) && Halts(a * b)
    ensures HpfProdSpec(ToHpfSpec(a).word, ToHpfSpec(b).word) == ToHpfSpec(a * b).word
  {
    MulLeMono(1, a, 1, b);
    MulLeMono(a, 31, b, 31);
    ProdOfConversions(a, b);
    ConversionWord(a);
    ConversionWord(b);
    ConversionWord(a * b);
  }
}
