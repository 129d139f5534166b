/** hpf_str: the fixed-width text rendering of a half-precision word, the
    sign digit, a space, the 5 exponent bits, a space and the 10 mantissa
    bits. The rendering is built from Python's `bin(n)[2:]` (Bin) and
    `str.zfill` (ZFill); ParseBinary reads binary digits back, which gives
    the rendering a partner to round-trip against. */
module Format {
  import opened Codec
  import opened Convert

  /** The character of a binary digit. */
  function Digit(b: int): char
    requires 0 <= b < 2
  {
    if b == 0 then '0' else '1'
  }

  /** The value of a binary digit character. */
  function DigitValue(c: char): int
  {
    if c == '1' then 1 else 0
  }

  predicate IsBinary(s: string)
  {
    forall k :: 0 <= k < |s| ==> s[k] == '0' || s[k] == '1'
  }

  /** bin(n)[2:]: the binary digits of n, most significant first, with no
      leading zero except for n == 0, which gives "0". */
  function Bin(n: nat): (s: string)
    ensures 1 <= |s| && IsBinary(s)
    ensures n > 0 ==> s[0] == '1'
  {
    if n < 2 then [Digit(n)] else Bin(n / 2) + [Digit(n % 2)]
  }

  /** k '0' characters. */
  function Zeros(k: nat): (z: string)
    ensures |z| == k
  {
    if k == 0 then [] else Zeros(k - 1) + "0"
  }

  /** str.zfill(width): pads on the left with '0' up to `width` characters,
      keeping a leading '+' or '-' in front of the padding; a string that is
      already `width` long or longer is returned unchanged. */
  function ZFill(s: string, width: nat): (r: string)
    ensures |r| == if |s| >= width then |s| else width
  {
    if |s| >= width then s
    else if |s| > 0 && (s[0] == '+' || s[0] == '-') then [s[0]] + Zeros(width - |s|) + s[1..]
    else Zeros(width - |s|) + s
  }

  /** The number a string of binary digits denotes, the last character being
      the least significant; any character but '1' counts as 0. */
  function ParseBinary(s: string): (v: nat)
    ensures v < Pow2(|s|)
  {
    if s == [] then 0 else 2 * ParseBinary(s[..|s| - 1]) + DigitValue(s[|s| - 1])
  }

  /** hpf_str(num). str(sign) is a single digit, because the sign field is
      0 or 1. Every field fits its width, so zfill always pads to exactly 5
      and 10 characters and the rendering is 18 characters long. */
  function HpfStr(num: int): (r: string)
    ensures |r| == 18 && r[1] == ' ' && r[7] == ' '
  {
    var f := Split(num);
    FieldWidths();
    var e := FieldText(f.exp, 5);
    var m := FieldText(f.mantissa, 10);
    [Digit(f.sign)] + " " + e + " " + m
  }

  lemma FieldWidths()
    ensures Pow2(5) == 32 && Pow2(10) == 1024
  {
    assert Pow2(5) == 32;
  }

  /** bin(v)[2:].zfill(w) for a field value below 2^w: exactly w binary
      digits that read back as v. */
  function FieldText(v: nat, w: nat): (s: string)
    requires 1 <= w && v < Pow2(w)
    ensures |s| == w && IsBinary(s) && ParseBinary(s) == v
  {
    FieldDigits(v, w);
    ZFill(Bin(v), w)
  }

  /** Reads the sign, exponent and mantissa digits back out of a rendering. */
  function ParseHpfStr(r: string): Fields
    requires |r| == 18
  {
    Fields(ParseBinary(r[8..]), ParseBinary(r[2..7]), ParseBinary(r[..1]))
  }

  // ---------------------------------------------------------------------
  // bin and zfill.

  /** bin(n)[2:] read back as binary is n. */
  lemma {:induction false} ParseBin(n: nat)
    ensures ParseBinary(Bin(n)) == n
  {
    if n >= 2 {
      var s := Bin(n / 2);
      var t := Bin(n);
      assert t == s + [Digit(n % 2)];
      assert t[..|t| - 1] == s;
      ParseBin(n / 2);
    }
  }

  /** A value below 2^w has at most w binary digits. */
  lemma {:induction false} BinFits(n: nat, w: nat)
    requires 1 <= w && n < Pow2(w)
    ensures |Bin(n)| <= w
  {
    if n >= 2 {
      assert Pow2(w) == 2 * Pow2(w - 1);
      assert Pow2(0) == 1;
      BinFits(n / 2, w - 1);
    }
  }

  /** A string of zeros reads as 0. */
  lemma {:induction false} ParseZeros(k: nat)
    ensures ParseBinary(Zeros(k)) == 0
  {
    if k > 0 {
      var z := Zeros(k);
      assert z[..k - 1] == Zeros(k - 1);
      ParseZeros(k - 1);
    }
  }

  /** Leading zeros do not change the value of a binary string. */
  lemma {:induction false} ParseZeroPadded(k: nat, s: string)
    ensures ParseBinary(Zeros(k) + s) == ParseBinary(s)
    decreases |s|
  {
    if s == [] {
      assert Zeros(k) + s == Zeros(k);
      ParseZeros(k);
    } else {
      var t := Zeros(k) + s;
      assert t[..|t| - 1] == Zeros(k) + s[..|s| - 1];
      assert t[|t| - 1] == s[|s| - 1];
      ParseZeroPadded(k, s[..|s| - 1]);
    }
  }

  lemma {:induction false} ZerosBinary(k: nat)
    ensures IsBinary(Zeros(k))
  {
    if k > 0 {
      ZerosBinary(k - 1);
    }
  }

  /** Both halves of a concatenation of binary strings are binary digits. */
  lemma ConcatBinary(a: string, b: string)
    requires IsBinary(a) && IsBinary(b)
    ensures IsBinary(a + b)
  {
    forall k | 0 <= k < |a + b|
      ensures (a + b)[k] == '0' || (a + b)[k] == '1'
    {
      if k >= |a| {
        assert (a + b)[k] == b[k - |a|];
      }
    }
  }

  /** zfill pads a string of binary digits with zeros only. */
  lemma ZFillDigits(s: string, w: nat)
    requires IsBinary(s) && 1 <= |s|
    ensures ZFill(s, w) == if |s| >= w then s else Zeros(w - |s|) + s
  {
    assert s[0] == '0' || s[0] == '1';
  }

  /** bin(v)[2:].zfill(w), for a value below 2^w, is exactly w binary digits
      that read back as v. */
  lemma FieldDigits(v: nat, w: nat)
    requires 1 <= w && v < Pow2(w)
    ensures |ZFill(Bin(v), w)| == w
    ensures IsBinary(ZFill(Bin(v), w))
    ensures ParseBinary(ZFill(Bin(v), w)) == v
  {
    var s := Bin(v);
    BinFits(v, w);
    ParseBin(v);
    ZFillDigits(s, w);
    if |s| < w {
      ParseZeroPadded(w - |s|, s);
      ZerosBinary(w - |s|);
      ConcatBinary(Zeros(w - |s|), s);
    }
  }

  // ---------------------------------------------------------------------
  // hpf_str.

  /** Apart from the two separating spaces, the rendering is binary digits,
      and the sign, exponent and mantissa read back as the fields of the
      word. */
  lemma HpfStrRoundTrip(num: int)
    ensures forall k :: 0 <= k < 18 && k != 1 && k != 7 ==> HpfStr(num)[k] == '0' || HpfStr(num)[k] == '1'
    ensures ParseHpfStr(HpfStr(num)) == Split(num)
  {
    var f := Split(num);
    FieldWidths();
    var e := FieldText(f.exp, 5);
    var m := FieldText(f.mantissa, 10);
    var r := HpfStr(num);
    assert r == [Digit(f.sign)] + " " + e + " " + m;
    assert r[..1] == [Digit(f.sign)];
    assert r[2..7] == e;
    assert r[8..] == m;
    assert [Digit(f.sign)][..0] == [];
    forall k | 0 <= k < 18 && k != 1 && k != 7
      ensures r[k] == '0' || r[k] == '1'
    {
      if 2 <= k < 7 {
        assert r[k] == e[k - 2];
      } else if 8 <= k {
        assert r[k] == m[k - 8];
      }
    }
  }

  /** Two 16-bit words with the same rendering are the same word. */
  lemma HpfStrInjective(w1: int, w2: int)
    requires 0 <= w1 < 65536 && 0 <= w2 < 65536
    requires HpfStr(w1) == HpfStr(w2)
    ensures w1 == w2
  {
    HpfStrRoundTrip(w1);
    HpfStrRoundTrip(w2);
    JoinSplit(w1);
    JoinSplit(w2);
  }

  /** The doctest of hpf_str. */
  lemma HpfStrSix()
    ensures HpfStr(ToHpfSpec(6).word) == "0 10001 1000000000"
  {
    ToHpfSix();
    Pow2Constants();
    ExponentSeventeen();
    MantissaFiveTwelve();
  }

  lemma ExponentSeventeen()
    ensures 17 < Pow2(5) && FieldText(17, 5) == "10001"
  {
    Pow2Constants();
    assert Bin(2) == "10";
    assert Bin(4) == "100";
    assert Bin(8) == "1000";
    assert Bin(17) == "10001";
  }

  lemma MantissaFiveTwelve()
    ensures 512 < Pow2(10) && FieldText(512, 10) == "1000000000"
  {
    Pow2Constants();
    assert Bin(2) == "10";
    assert Bin(4) == "100";
    assert Bin(8) == "1000";
    assert Bin(16) == "10000";
    assert Bin(32) == "100000";
    assert Bin(64) == "1000000";
    assert Bin(128) == "10000000";
    assert Bin(256) == "100000000";
    assert Bin(512) == "1000000000";
  }
}
