/** Decimal digit strings and the JVM's fixed-width integer arithmetic. */
module Numbers {

  const INT_MIN: int := -0x8000_0000
  const INT_MAX: int := 0x7FFF_FFFF
  const LONG_MIN: int := -0x8000_0000_0000_0000
  const LONG_MAX: int := 0x7FFF_FFFF_FFFF_FFFF

  predicate IsDigit(c: char) { '0' <= c <= '9' }

  predicate AllDigits(s: string) { forall i :: 0 <= i < |s| ==> IsDigit(s[i]) }

  /** The value of a run of ASCII decimal digits, most significant first. */
  function DigitsValue(s: string): (v: nat)
    requires AllDigits(s)
    ensures |s| > 0 ==> v < Pow10(|s|)
  {
    if s == [] then 0
    else DigitsValue(s[..|s| - 1]) * 10 + (s[|s| - 1] as int - '0' as int)
  }

  function Pow10(n: nat): (p: nat)
    ensures p >= 1
  {
    if n == 0 then 1 else 10 * Pow10(n - 1)
  }

  /** The decimal text of a non-negative number, as `StringBuilder.append`
      writes an `Int` or `Long`: no sign, no leading zeros. */
  function NatToString(n: nat): (s: string)
    ensures 0 < |s|
  {
    if n < 10 then ['0' + n as char] else NatToString(n / 10) + ['0' + (n % 10) as char]
  }

  /** Reading back the decimal text gives the number: only digits, no leading zero. */
  lemma {:induction false} NatToStringDigits(n: nat)
    ensures AllDigits(NatToString(n))
    ensures DigitsValue(NatToString(n)) == n
    ensures NatToString(n)[0] == '0' <==> n == 0
  {
    var s := NatToString(n);
    if n >= 10 {
      NatToStringDigits(n / 10);
      var p := NatToString(n / 10);
      assert s[..|s| - 1] == p;
      assert s[0] == p[0];
    }
  }

  const INT_MODULUS: int := 0x1_0000_0000
  const LONG_MODULUS: int := 0x1_0000_0000_0000_0000

  /** Kotlin `Int` arithmetic: the exact result brought into the 32-bit signed
      range by adding or subtracting 2^32. */
  function Int32(x: int): (r: int)
    ensures INT_MIN <= r <= INT_MAX
    ensures INT_MIN <= x <= INT_MAX ==> r == x
  {
    (x - INT_MIN) % INT_MODULUS + INT_MIN
  }

  function Int64(x: int): (r: int)
    ensures LONG_MIN <= r <= LONG_MAX
    ensures LONG_MIN <= x <= LONG_MAX ==> r == x
  {
    (x - LONG_MIN) % LONG_MODULUS + LONG_MIN
  }

  /** Adding a multiple of the modulus does not change the reduced value. */
  lemma Int32Shift(y: int, j: int)
    ensures Int32(y + j * INT_MODULUS) == Int32(y)
  {
  }

  lemma Int64Shift(y: int, j: int)
    ensures Int64(y + j * LONG_MODULUS) == Int64(y)
  {
  }

  /** Reducing an intermediate result does not change the reduced sum or product:
      `Int` and `Long` arithmetic step by step equals the exact arithmetic reduced once. */
  lemma Int32Add(a: int, b: int)
    ensures Int32(Int32(a) + b) == Int32(a + b)
  {
    var q := (a - INT_MIN) / INT_MODULUS;
    assert Int32(a) == a - q * INT_MODULUS;
    Int32Shift(a + b, -q);
  }

  lemma Int32Mul(a: int, b: int)
    ensures Int32(Int32(a) * b) == Int32(a * b)
  {
    var q := (a - INT_MIN) / INT_MODULUS;
    assert Int32(a) == a - q * INT_MODULUS;
    var qb := q * b;
    assert Int32(a) * b == a * b + (-qb) * INT_MODULUS;
    Int32Shift(a * b, -qb);
  }

  lemma Int32AddBoth(a: int, b: int)
    ensures Int32(Int32(a) + Int32(b)) == Int32(a + b)
  {
    Int32Add(a, Int32(b));
    Int32Add(b, a);
  }

  lemma Int64Add(a: int, b: int)
    ensures Int64(Int64(a) + b) == Int64(a + b)
  {
    var q := (a - LONG_MIN) / LONG_MODULUS;
    assert Int64(a) == a - q * LONG_MODULUS;
    Int64Shift(a + b, -q);
  }

  lemma Int64AddBoth(a: int, b: int)
    ensures Int64(Int64(a) + Int64(b)) == Int64(a + b)
  {
    Int64Add(a, Int64(b));
    Int64Add(b, a);
  }

  /** One `+=` step: a reduced sum plus a reduced term is the reduced exact sum. */
  lemma Int64Step(acc: int, exact: int, term: int, t: int)
    requires acc == Int64(exact) && term == Int64(t)
    ensures Int64(acc + term) == Int64(exact + t)
  {
    Int64AddBoth(exact, t);
  }

  lemma Int64Mul(a: int, b: int)
    ensures Int64(Int64(a) * b) == Int64(a * b)
  {
    var q := (a - LONG_MIN) / LONG_MODULUS;
    assert Int64(a) == a - q * LONG_MODULUS;
    var qb := q * b;
    assert Int64(a) * b == a * b + (-qb) * LONG_MODULUS;
    Int64Shift(a * b, -qb);
  }
}
