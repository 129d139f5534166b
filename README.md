# Half-precision integer toolkit (prototypes/hpf.py) in Dafny

`prototypes/hpf.py` works with the 16-bit half-precision field layout without
using floating point: 1 sign bit (bit 15), a 5-bit exponent biased by 15
(bits 10-14) and a 10-bit mantissa (bits 0-9) whose leading 1 is implicit.
It packs and unpacks the three fields, converts a small integer to the
layout with a normalising shift loop, multiplies two words by restoring the
implicit bits and shifting the product back, renders a word as text, and has
an addition stub. This project models each of these operations and proves
what they compute.

- `codec.dfy`, module `Codec`: `mask`, `hpf_split` and `hpf_join` (`Mask`,
  `Split`, `Join`), with the two round trips between words and fields.
  Python's `x & (2^k - 1)` is Euclidean `x % 2^k`, which is also right for
  negative `x`, and `x >> k` is `x / 2^k`. Integers are unbounded, as in
  Python.
- `convert.dfy`, module `Convert`: `to_hpf`. `ToHpf` is the method with the
  shift loop. `ToHpfSpec` is its closed form, built on `Normalised`
  (doubling up to bit 10) and `Log2`. The lemmas prove the conversion
  exact, i.e. `|i| * 2^10 == (1024 + m) * 2^(e - 15)`.
- `arith.dfy`, module `Arith`: `hpf_add` (`HpfAdd`) and `hpf_prod`. `HpfProd`
  is the method with the carry test and the right-shift loop; `HpfProdSpec`
  is its closed form. The lemmas give the fields of a product, and prove that
  the product of two converted integers is the converted product whenever
  that is below 1024 in magnitude. That covers every pair the harness `test`
  sweeps.
- `format.dfy`, module `Format`: `hpf_str` (`HpfStr`), built from models of
  `bin(n)[2:]` (`Bin`) and `str.zfill` (`ZFill`). `ParseBinary` reads binary
  digits back, and the rendering is proved to round-trip to the fields.

The model follows the code as written, including where it departs from
what a half-precision format would lead one to expect:
- `to_hpf(0)` is `15 << 15 == 491520`, not the all-zero word.
- `hpf_add` returns 0 rather than a sum.
- `hpf_prod` has no zero case.
- hpf.py has no comparison function, and its `hpf_div` cannot run (see "## Left out").

## Model

| member | source | states |
|---|---|---|
| Codec.Mask | prototypes/hpf.py:12-23 | mask(num, length) lies in [0, 2^length) |
| Codec.MaskKeepsLowBits | prototypes/hpf.py:12-23 | mask keeps every bit of num below `length` and clears every bit from `length` up |
| Codec.Split | prototypes/hpf.py:26-38 | the split fields are bounded: mantissa < 1024, exponent < 32, sign < 2 |
| Codec.SplitBits | prototypes/hpf.py:34-36 | bit j of the mantissa is bit j of num (j < 10), bit j of the exponent is bit 10 + j of num (j < 5), and the sign is bit 15 of num |
| Codec.SplitDecomposes | prototypes/hpf.py:34-38 | num is mantissa + exp*2^10 + sign*2^15 plus a multiple of 2^16 |
| Codec.SplitLow16 | prototypes/hpf.py:34-36 | hpf_split only looks at the low 16 bits of num |
| Codec.Join | prototypes/hpf.py:41-49 | every hpf_join result is in [0, 65536) |
| Codec.JoinBits | prototypes/hpf.py:49 | bits 0-9 of the word are bits 0-9 of m, bits 10-14 are bits 0-4 of e, bit 15 is bit 0 of s, and every higher bit is 0 |
| Codec.JoinSplit | prototypes/hpf.py:26-49 | hpf_join(hpf_split(w)) == w for every 16-bit w |
| Codec.SplitJoin | prototypes/hpf.py:26-49 | hpf_split(hpf_join(m, e, s)) == (m mod 1024, e mod 32, s mod 2) for all integers |
| Codec.SplitJoinInRange | prototypes/hpf.py:26-49 | fields already in range come back unchanged |
| Codec.JoinDropsImplicitBit | prototypes/hpf.py:49 | mask(m, 10) drops the implicit bit: joining m or m - 2^10 gives the same word |
| Codec.CodecExamples | prototypes/hpf.py:16-47 | the doctests mask(10,3)=2, mask(711,3)=7, mask(726,5)=22, hpf_split(9221)=(5,9,0), hpf_join(5,9,0)=9221 |
| Convert.Normalised | prototypes/hpf.py:83-85 | doubling a magnitude until bit 10 is reached gives a significand in [2^10, 2^11) |
| Convert.NormalisedFacts | prototypes/hpf.py:83-85 | for 1 <= n < 1024 the loop shifts n left by 10 - floor(log2 n), so significand * 2^floor(log2 n) == n * 2^10 |
| Convert.WordFields | prototypes/hpf.py:87-88 | the word to_hpf builds splits back into significand - 2^10, exponent 15 + floor(log2 n) and the sign |
| Convert.ToHpfSpec | prototypes/hpf.py:75-88 | to_hpf fails with "integer too large" exactly when i >= 1024 |
| Convert.ToHpf | prototypes/hpf.py:66-88 | the assertion, the zero case, the sign, the shift loop and the final mask compute ToHpfSpec(i) |
| Convert.ShiftedBit9 | prototypes/hpf.py:83 | bit 9 of the shifted mantissa is set exactly when the loop has shifted 9 - floor(log2(|i| mod 1024)) times |
| Convert.SignFromQuotient | prototypes/hpf.py:81 | (1 - i // abs(i)) // 2 is 1 for negative i and 0 for positive i |
| Convert.FinalShift | prototypes/hpf.py:87 | (mantissa << 1) & (2^10 - 1) after the loop is the significand minus its implicit bit |
| Convert.ToHpfZero | prototypes/hpf.py:76-77 | to_hpf(0) == 15 << 15 == 491520, which is outside 16 bits and splits to (0, 0, 1) |
| Convert.ConversionWord | prototypes/hpf.py:79-88 | for 0 < abs(i) < 1024, to_hpf(i) is the word of abs(i) with i's sign bit, and both guards agree |
| Convert.ToHpfExact | prototypes/hpf.py:66-88 | for 0 < abs(i) < 1024: 15 <= e <= 24, the sign bit is set iff i < 0, and abs(i) * 2^10 == (1024 + m) * 2^(e - 15) |
| Convert.ToHpfInjective | prototypes/hpf.py:66-88 | distinct integers in (-1024, 1024) convert to distinct words |
| Convert.LoopNeverExits | prototypes/hpf.py:83-85 | for negative i with abs(i) a multiple of 1024, bit 9 is never set after any number of shifts, so the loop does not end |
| Convert.ToHpfWrapsNegative | prototypes/hpf.py:75 | a negative i <= -1024 that passes the assertion converts like -(abs(i) mod 1024) |
| Convert.ToHpfMinus1025 | prototypes/hpf.py:75 | to_hpf(-1025) == to_hpf(-1) |
| Convert.ToHpfCheckedSound | prototypes/hpf.py:75 | with the guard abs(i) < 1024, conversion fails exactly when abs(i) >= 1024 and is exact whenever it succeeds on non-zero i |
| Convert.ToHpfSix | prototypes/hpf.py:70-73 | the doctests to_hpf(6) == 17920 and hpf_split(to_hpf(6)) == (512, 17, 0) |
| Arith.Xor | prototypes/hpf.py:117 | s1 ^ s2 on sign bits is 1 exactly when they differ |
| Arith.HpfAdd | prototypes/hpf.py:94-106 | hpf_add returns 0 for all inputs; the operand swap has no effect |
| Arith.HpfAddIsNotSum | prototypes/hpf.py:102-106 | hpf_add(to_hpf(1), to_hpf(1)) is not to_hpf(2) == 16384 |
| Arith.SignificandProduct | prototypes/hpf.py:112-115 | the product of the restored 11-bit significands lies in [2^20, 2^22) |
| Arith.HpfProd | prototypes/hpf.py:109-125 | the carry test on bit 21 and the right-shift loop compute HpfProdSpec(d1, d2) |
| Arith.ShiftLoopExit | prototypes/hpf.py:122-123 | the loop stops after exactly 10 + carry shifts, leaving the product >> (10 + carry) |
| Arith.SignificandTruncates | prototypes/hpf.py:119-123 | the significand left by the loop is in [2^10, 2^11) and is the product rounded down at scale 2^(10 + carry) |
| Arith.ProdFields | prototypes/hpf.py:109-125 | product sign = s1 xor s2; exponent = (e1 + e2 - 15 + carry) mod 32; (1024 + m) * 2^(10+carry) <= P < (1025 + m) * 2^(10+carry) |
| Arith.FieldsOfJoin | prototypes/hpf.py:125 | joining a significand in [2^10, 2^11) stores it without its implicit bit, the exponent mod 32 and the sign |
| Arith.ProdHasNoZeroCase | prototypes/hpf.py:109-125 | the product of two zero words, and of two to_hpf(0) words, is 17408, not zero |
| Arith.SignedProduct | prototypes/hpf.py:117 | abs(a*b) == abs(a)*abs(b), and the sign bit of a*b is the xor of the factors' sign bits |
| Arith.ProdOfWords | prototypes/hpf.py:148 | the words of magnitudes A and B multiply to the word of A*B with the xor of the sign bits |
| Arith.ProdOfFields | prototypes/hpf.py:109-125 | hpf_prod of two words is the word with the truncated significand product, the added unbiased exponents plus the carry, and the xor sign |
| Arith.ProdOfMagnitudes | prototypes/hpf.py:116-123 | for A*B < 1024 the exponents add up to that of A*B once the carry is counted, and the significand product truncates to A*B's significand |
| Arith.ProductBitLength | prototypes/hpf.py:119-120 | the bit length of A*B is the sum of the factors' bit lengths, or one more |
| Arith.ProdOfSignificands | prototypes/hpf.py:119-123 | the significand product is the product's significand shifted left by 10 + carry |
| Arith.CarryOfProduct | prototypes/hpf.py:119-123 | a significand shifted left by 10 + c has carry c and shifts back to the significand |
| Arith.ProdOfConversions | prototypes/hpf.py:148 | hpf_prod(to_hpf(a), to_hpf(b)) == to_hpf(a*b) for non-zero a, b with abs(a*b) < 1024 |
| Arith.TestHarness | prototypes/hpf.py:143-154 | test(a, b) holds for every pair 1 <= a, b <= 31 that the sweep tries |
| Format.Bin | prototypes/hpf.py:63 | bin(n)[2:] is non-empty binary digits with no leading zero unless n == 0 |
| Format.ParseBin | prototypes/hpf.py:63 | bin(n)[2:] read back as binary is n |
| Format.BinFits | prototypes/hpf.py:63 | a value below 2^w has at most w binary digits, so zfill(w) never truncates or overflows the width |
| Format.ZFill | prototypes/hpf.py:63 | zfill(width) returns max(len, width) characters |
| Format.ParseZeroPadded | prototypes/hpf.py:63 | the zeros zfill adds do not change the value |
| Format.FieldDigits | prototypes/hpf.py:63 | bin(v)[2:].zfill(w) for v < 2^w is exactly w binary digits reading back as v |
| Format.FieldText | prototypes/hpf.py:63 | each field text is w binary digits reading back as the field |
| Format.HpfStr | prototypes/hpf.py:55-63 | hpf_str is 18 characters long with spaces at positions 1 and 7 |
| Format.HpfStrRoundTrip | prototypes/hpf.py:55-63 | every other character is a binary digit, and the three digit groups read back as the sign, exponent and mantissa of hpf_split(num) |
| Format.HpfStrInjective | prototypes/hpf.py:55-63 | two 16-bit words with the same rendering are equal |
| Format.HpfStrSix | prototypes/hpf.py:59-60 | the doctest hpf_str(to_hpf(6)) == '0 10001 1000000000' |

## Left out

- `hpf_div` (prototypes/hpf.py:128-140): it reads the undefined name `num` on its first line, so every call raises NameError before it computes anything. No division is modelled.
- The module-level sweep (prototypes/hpf.py:151-154) and the `print` calls in `test` (prototypes/hpf.py:144-147) are console output. Only the equality `test` returns is kept, as `Arith.TestHarness`.
- IEEE 754 semantics (subnormals, infinities, NaN, rounding modes) are not in the source. Value claims are integer equations scaled by 2^10.
- Convert.ToHpf: requires `Halts(i)`. On a negative multiple of 1024 the Python loop runs forever, and a method must terminate. That case is stated instead by `Convert.LoopNeverExits`.
- Convert.ToHpfSpec: requires `Halts(i)` for the same reason.
- Arith.HpfAdd: the operand swap at prototypes/hpf.py:98-99 is modelled, but its result is unused and nothing states it.
- Format.ZFill: the sign case of `str.zfill` is modelled but never reached, because `bin(n)[2:]` of a field never starts with a sign.
- The AssertionError of `to_hpf` is an `IntegerTooLarge` outcome rather than an exception.

## Findings

| source | as written | input that shows it | evidently intended | confidence | as-written member | corrected member |
|---|---|---|---|---|---|---|
| prototypes/hpf.py:75 | `assert (i < 1024)` lets every negative i through, and for a negative multiple of 1024 the loop at lines 83-85 never ends | i = -1024 | reject abs(i) >= 1024 ("integer too large") | high (not executed) | Convert.LoopNeverExits | Convert.ToHpfCheckedSound |
| prototypes/hpf.py:75 | a negative i below -1024 that is not a multiple of 1024 is silently reduced to -(abs(i) mod 1024) | to_hpf(-1025) == to_hpf(-1) | reject abs(i) >= 1024 | high (not executed) | Convert.ToHpfMinus1025 | Convert.ToHpfCheckedSound |
