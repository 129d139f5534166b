/** to_hpf: converting an integer to the half-precision layout by a
    normalising shift loop. */
module Convert {
  import opened Codec

  /** What to_hpf hands back: a word, or the AssertionError
      "integer too large". */
  datatype Outcome = Ok(word: int) | IntegerTooLarge

  function Abs(i: int): nat
  {
    if i < 0 then -i else i
  }

  /** floor(log2 n): the position of the highest set bit of n. */
  function Log2(n: int): (r: nat)
    requires n >= 1
    ensures Pow2(r) <= n < Pow2(r + 1)
  {
    if n == 1 then 0 else 1 + Log2(n / 2)
  }

  lemma Log2Unique(n: int, k: nat)
    requires Pow2(k) <= n < Pow2(k + 1)
    ensures Log2(n) == k
  {
    var l := Log2(n);
    if l < k {
      Pow2Monotone(l + 1, k);
    } else if l > k {
      Pow2Monotone(k + 1, l);
    }
  }

  /** The integers on which to_hpf finishes: the assertion stops every
      i >= 1024, zero is answered at once, and otherwise the shift loop stops
      exactly when one of the low ten bits of |i| is set. */
  predicate Halts(i: int)
  {
    i >= 1024 || i == 0 || Abs(i) % 1024 != 0
  }

  /** The 11-bit significand 1.mmmmmmmmmm of a positive integer below 2048:
      n doubled until it reaches bit 10. */
  function Normalised(n: int): (r: int)
    requires 1 <= n < 2048
    ensures 1024 <= r < 2048
    decreases 2048 - n
  {
    if n >= 1024 then n else Normalised(2 * n)
  }

  /** Normalising n < 1024 shifts it left by 10 - Log2(n) places, which
      keeps its value up to the scale 2^(10 - Log2(n)). */
  lemma NormalisedFacts(n: int)
    requires 1 <= n < 1024
    ensures Log2(n) <= 9
    ensures Normalised(n) == n * Pow2(10 - Log2(n))
    ensures Normalised(n) * Pow2(Log2(n)) == n * 1024
  {
    Pow2Constants();
    var l := Log2(n);
    if l > 9 {
      Pow2Monotone(10, l);
    }
    NormalisedShift(n);
    var s := 10 - l;
    Pow2Add(s, l);
    MulAssoc(n, Pow2(s), Pow2(l));
  }

  lemma {:induction false} NormalisedShift(n: int)
    requires 1 <= n < 2048
    ensures Log2(n) <= 10
    ensures Normalised(n) == n * Pow2(10 - Log2(n))
    decreases 2048 - n
  {
    Pow2Constants();
    if n >= 1024 {
      Log2Unique(n, 10);
    } else {
      var m := 2 * n;
      NormalisedShift(m);
      assert m / 2 == n;
      assert Log2(m) == 1 + Log2(n);
      var k: nat := 10 - Log2(m);
      DoubleShift(n, k);
    }
  }

  lemma DoubleShift(n: int, k: nat)
    ensures (2 * n) * Pow2(k) == n * Pow2(k + 1)
  {
    assert Pow2(k + 1) == 2 * Pow2(k);
    MulAssoc(n, 2, Pow2(k));
  }

  /** The sign bit to_hpf computes: 1 for a negative integer. */
  function SignBit(i: int): int
  {
    if i < 0 then 1 else 0
  }

  /** The word to_hpf builds for a magnitude 1 <= n < 1024 and a sign bit:
      the significand without its implicit bit, the exponent 15 + Log2(n)
      (24 less the number of normalising shifts) and the sign. */
  function Word(n: int, sign: int): int
    requires 1 <= n < 1024
  {
    Join(Normalised(n) - 1024, 15 + Log2(n), sign)
  }

  /** The fields of such a word come back unchanged from hpf_split: the
      significand is stored without its implicit bit and the exponent lies
      in 15..24. */
  lemma WordFields(n: int, sign: int)
    requires 1 <= n < 1024 && 0 <= sign <= 1
    ensures Log2(n) <= 9
    ensures Split(Word(n, sign)).mantissa == Normalised(n) - 1024
    ensures Split(Word(n, sign)).exp == 15 + Log2(n)
    ensures Split(Word(n, sign)).sign == sign
  {
    Log2Below(n);
    var m, e := Normalised(n) - 1024, 15 + Log2(n);
    assert Word(n, sign) == Join(m, e, sign);
    SplitJoinInRange(m, e, sign);
  }

  /** A magnitude below 2^10 has its highest set bit at position 9 or less. */
  lemma Log2Below(n: int)
    requires 1 <= n < 1024
    ensures Log2(n) <= 9
  {
    Pow2Constants();
    if Log2(n) > 9 {
      Pow2Monotone(10, Log2(n));
    }
  }

  /** A word joined from the significand and exponent of n is Word(n). */
  lemma WordIs(n: int, sign: int, m: int, e: int)
    requires 1 <= n < 1024
    requires m == Normalised(n) - 1024 && e == 15 + Log2(n)
    ensures Word(n, sign) == Join(m, e, sign)
  {
  }

  /** to_hpf(i) in closed form. The loop only ever looks at the low ten bits
      of |i|, so the result depends on |i| mod 1024 and the sign alone. */
  function ToHpfSpec(i: int): (r: Outcome)
    requires Halts(i)
    ensures r.IntegerTooLarge? <==> i >= 1024
  {
    if i >= 1024 then IntegerTooLarge
    else if i == 0 then Ok(15 * Pow2(15))
    else
      Ok(Word(Abs(i) % 1024, SignBit(i)))
  }

  /** After k left shifts of a, with k no more than the shifts the loop
      needs, the low ten bits are those of a shifted by k. Here l is the
      position of the highest set bit of a mod 1024. */
  lemma ShiftedLowBits(a: int, l: nat, k: nat)
    requires a >= 1 && a % 1024 != 0 && l == Log2(a % 1024)
    requires k <= 9 - l
    ensures (a * Pow2(k)) % 1024 == (a % 1024) * Pow2(k)
    ensures Pow2(l + k) <= (a % 1024) * Pow2(k) < Pow2(l + k + 1)
  {
    Pow2Constants();
    var low, q := a % 1024, a / 1024;
    ScaledRange(low, l, k);
    Pow2Monotone(l + k + 1, 10);
    assert a == q * 1024 + low;
    MulSpread(q, 1024, low, Pow2(k));
    DivModUnique(a * Pow2(k), 1024, q * Pow2(k), low * Pow2(k));
  }

  /** Bit 9 of a shifted by k is set exactly at the last shift the loop
      makes. */
  lemma ShiftedBit9(a: int, l: nat, k: nat)
    requires a >= 1 && a % 1024 != 0 && l == Log2(a % 1024)
    requires k <= 9 - l
    ensures Bit(a * Pow2(k), 9) == (if k == 9 - l then 1 else 0)
  {
    Pow2Constants();
    var y := (a % 1024) * Pow2(k);
    ShiftedLowBits(a, l, k);
    assert Mask(a * Pow2(k), 10) == y;
    MaskKeepsLowBits(a * Pow2(k), 10, 9);
    Pow2Monotone(l + k + 1, 10);
    TopBit(y, 9);
    if k < 9 - l {
      Pow2Monotone(l + k + 1, 9);
    }
  }

  /** to_hpf, with its assertion, its zero case and its normalising loop. */
  method ToHpf(i: int) returns (r: Outcome)
    requires Halts(i)
    ensures r == ToHpfSpec(i)
  {
    if i >= 1024 {
      return IntegerTooLarge;
    }
    if i == 0 {
      return Ok(15 * Pow2(15));
    }
    var mantissa := Abs(i);
    var exp := 24;
    SignFromQuotient(i);
    var sign := (1 - i / Abs(i)) / 2;
    ghost var a := Abs(i);
    ghost var low := a % 1024;
    ghost var l := Log2(low);
    ghost var k: nat := 0;
    NormalisedFacts(low);
    ShiftedBit9(a, l, k);
    while Bit(mantissa, 9) == 0
      invariant k <= 9 - l
      invariant mantissa == a * Pow2(k)
      invariant Bit(mantissa, 9) == (if k == 9 - l then 1 else 0)
      invariant exp == 24 - k
      decreases 9 - l - k
    {
      mantissa := mantissa * 2;
      exp := exp - 1;
      MulAssoc(a, Pow2(k), 2);
      k := k + 1;
      ShiftedBit9(a, l, k);
    }
    FinalShift(a, l, k);
    mantissa := Mask(mantissa * 2, 10);
    WordIs(low, sign, mantissa, exp);
    return Ok(Join(mantissa, exp, sign));
  }

  /** The sign bit as to_hpf computes it, (1 - i // |i|) // 2. */
  lemma SignFromQuotient(i: int)
    requires i != 0
    ensures (1 - i / Abs(i)) / 2 == SignBit(i)
  {
    DivModUnique(i, Abs(i), if i < 0 then -1 else 1, 0);
  }

  /** The shift that drops the implicit bit leaves the significand minus
      2^10. */
  lemma FinalShift(a: int, l: nat, k: nat)
    requires a >= 1 && a % 1024 != 0 && l == Log2(a % 1024)
    requires k == 9 - l
    ensures Mask(a * Pow2(k) * 2, 10) == Normalised(a % 1024) - 1024
  {
    Pow2Constants();
    var low, q := a % 1024, a / 1024;
    NormalisedFacts(low);
    var n := Normalised(low);
    assert Pow2(k + 1) == 2 * Pow2(k);
    MulAssoc(a, Pow2(k), 2);
    assert n == low * Pow2(k + 1);
    assert a == q * 1024 + low;
    MulSpread(q, 1024, low, Pow2(k + 1));
    DivModUnique(a * Pow2(k + 1), 1024, q * Pow2(k + 1) + 1, n - 1024);
  }

  // ---------------------------------------------------------------------
  // Properties of the conversion.

  /** to_hpf(0) is 15 << 15 = 491520: outside 16 bits, and it splits to
      mantissa 0, exponent 0, sign 1 rather than to the all-zero word. */
  lemma ToHpfZero()
    ensures ToHpfSpec(0) == Ok(491520)
    ensures 491520 >= 65536 && Split(491520) == Fields(0, 0, 1)
  {
    Pow2Constants();
  }

  /** For 0 < |i| < 1024 (where both guards agree) to_hpf(i) is the word
      of |i| with i's sign bit. */
  lemma ConversionWord(i: int)
    requires 0 < Abs(i) < 1024
    ensures Halts(i) && ToHpfChecked(i) == ToHpfSpec(i)
    ensures ToHpfSpec(i) == Ok(Word(Abs(i), SignBit(i)))
  {
    var low := Abs(i) % 1024;
    DivModUnique(Abs(i), 1024, 0, Abs(i));
    assert low == Abs(i);
  }

  /** For 0 < |i| < 1024 the conversion is exact: the exponent lies in
      15..24, the sign bit says whether i is negative, and the value
      (1 + m / 2^10) * 2^(e - 15) equals |i|, written here scaled by 2^10. */
  lemma ToHpfExact(i: int)
    requires 0 < Abs(i) < 1024
    ensures ToHpfSpec(i).Ok?
    ensures var w := ToHpfSpec(i).word; var f := Split(w);
      && 0 <= w < 65536
      && 15 <= f.exp <= 24
      && (f.sign == 1 <==> i < 0)
      && Abs(i) * 1024 == (1024 + f.mantissa) * Pow2(f.exp - 15)
  {
    ConversionWord(i);
    WordFields(Abs(i), SignBit(i));
    NormalisedFacts(Abs(i));
    var f := Split(ToHpfSpec(i).word);
    assert 1024 + f.mantissa == Normalised(Abs(i));
    assert f.exp - 15 == Log2(Abs(i));
  }

  /** Distinct integers in (-1024, 1024) get distinct words. */
  lemma ToHpfInjective(i: int, j: int)
    requires Abs(i) < 1024 && Abs(j) < 1024
    requires ToHpfSpec(i) == ToHpfSpec(j)
    ensures i == j
  {
    if i != 0 && j != 0 {
      ToHpfExact(i);
      ToHpfExact(j);
      var f := Split(ToHpfSpec(i).word);
      assert Abs(i) * 1024 == Abs(j) * 1024;
    } else if i != 0 || j != 0 {
      ToHpfZero();
      if i != 0 { ToHpfExact(i); } else { ToHpfExact(j); }
    }
  }

  // ---------------------------------------------------------------------
  // The guard checks i < 1024 where |i| < 1024 is meant.

  /** As written, a negative i with |i| >= 1024 passes the assertion. When
      |i| is a multiple of 1024 the loop never finds bit 9 set, whatever the
      number of shifts. */
  lemma LoopNeverExits(i: int, k: nat)
    requires i < 0 && Abs(i) % 1024 == 0
    ensures !Halts(i)
    ensures Bit(Abs(i) * Pow2(k), 9) == 0
  {
    var q := Abs(i) / 1024;
    assert Abs(i) == q * 1024;
    MulSpread(q, 1024, 0, Pow2(k));
    var t := q * Pow2(k);
    Pow2Constants();
    assert Abs(i) * Pow2(k) == (2 * t) * 512 + 0;
    DivModUnique(Abs(i) * Pow2(k), Pow2(9), 2 * t, 0);
    DivModUnique(2 * t, 2, t, 0);
  }

  /** As written, any other negative i with |i| >= 1024 is silently reduced
      to |i| mod 1024: to_hpf(-1025) is to_hpf(-1). */
  lemma ToHpfWrapsNegative(i: int)
    requires i <= -1024 && Halts(i)
    ensures Halts(-(Abs(i) % 1024))
    ensures ToHpfSpec(i) == ToHpfSpec(-(Abs(i) % 1024))
  {
    var low := Abs(i) % 1024;
    DivModUnique(low, 1024, 0, low);
  }

  lemma ToHpfMinus1025()
    ensures Halts(-1025) && ToHpfSpec(-1025) == ToHpfSpec(-1)
  {
    assert Abs(-1025) % 1024 == 1;
    ToHpfWrapsNegative(-1025);
  }

  /** to_hpf with the guard it evidently intends: |i| < 1024. */
  function ToHpfChecked(i: int): Outcome
  {
    if Abs(i) >= 1024 then IntegerTooLarge else ToHpfSpec(i)
  }

  /** The corrected conversion fails exactly when |i| >= 1024 and is exact
      whenever it succeeds on a non-zero i. */
  lemma ToHpfCheckedSound(i: int)
    ensures ToHpfChecked(i).IntegerTooLarge? <==> Abs(i) >= 1024
    ensures ToHpfChecked(i).Ok? && i != 0 ==>
      var f := Split(ToHpfChecked(i).word);
      && 15 <= f.exp <= 24
      && (f.sign == 1 <==> i < 0)
      && Abs(i) * 1024 == (1024 + f.mantissa) * Pow2(f.exp - 15)
  {
    if 0 < Abs(i) < 1024 {
      ToHpfExact(i);
    }
  }

  /** The doctest of to_hpf. */
  lemma ToHpfSix()
    ensures ToHpfSpec(6) == Ok(17920)
    ensures Split(17920) == Fields(512, 17, 0)
  {
    Pow2Constants();
    Log2Unique(6, 2);
    assert Pow2(8) == 256;
    var low := Abs(6) % 1024;
    assert low == 6;
    assert Normalised(low) - 1024 == 512;
    assert 15 + Log2(low) == 17;
    assert Join(512, 17, 0) == 17920;
    SplitJoin(512, 17, 0);
  }
}
