/**
 * Decimal notation of non-negative integers: the digit strings that
 * `BigInt.prototype.toString()` and `String(n)` produce, fixed-width digit
 * blocks (the fractional digits of a base-unit amount), and the arithmetic
 * facts about powers of ten that relate the two.
 */
module Decimal {
  import opened JsStrings

  function Pow10(n: nat): (r: nat)
    ensures r >= 1
  {
    if n == 0 then 1 else 10 * Pow10(n - 1)
  }

  lemma {:induction false} Pow10Add(a: nat, b: nat)
    ensures Pow10(a + b) == Pow10(a) * Pow10(b)
    decreases b
  {
    if b > 0 {
      Pow10Add(a, b - 1);
      calc {
        Pow10(a + b);
        10 * Pow10(a + b - 1);
        10 * (Pow10(a) * Pow10(b - 1));
        Pow10(a) * (10 * Pow10(b - 1));
      }
    }
  }

  lemma MulAtLeast(k: int, e: int)
    requires k >= 0 && e >= 1
    ensures k * e >= k
  {
    assert k * e == k * (e - 1) + k;
  }

  lemma MulSign(k: int, e: int)
    requires k > 0
    ensures e >= 1 ==> k * e >= k
    ensures e <= -1 ==> k * e <= -k
  {
    if e >= 1 {
      MulAtLeast(k, e);
    } else if e <= -1 {
      MulAtLeast(k, -e);
      assert k * e == -(k * -e);
    }
  }

  lemma MulNonneg(a: nat, b: nat)
    ensures a * b >= 0
  {
  }

  lemma Distribute(a: int, b: int, q: int, r2: int, r: int)
    ensures a * (b * q + r2) + r == (a * b) * q + (a * r2 + r)
  {
    assert a * (b * q + r2) == a * (b * q) + a * r2;
    assert a * (b * q) == (a * b) * q;
  }

  lemma ShiftDigit(x: int, p: int, y: int, d: int)
    ensures (x * p + y) * 10 + d == x * (10 * p) + (y * 10 + d)
  {
  }

  /** Euclidean division is determined by its quotient-remainder decomposition. */
  lemma DivMulAdd(k: nat, q: int, r: nat)
    requires 0 <= r < k
    ensures (k * q + r) / k == q && (k * q + r) % k == r
  {
    var n := k * q + r;
    var d, m := n / k, n % k;
    assert k * d + m == n;
    assert k * (d - q) == r - m;
    MulSign(k, d - q);
  }

  /** Dividing by `a` and then by `b` is dividing by `a * b`; the remainder is assembled from both. */
  lemma DivModNested(n: int, a: nat, b: nat)
    requires a > 0 && b > 0
    ensures n / a / b == n / (a * b)
    ensures n % (a * b) == a * ((n / a) % b) + n % a
  {
    var q, r := n / a, n % a;
    var q2, r2 := q / b, q % b;
    assert n == a * q + r;
    assert q == b * q2 + r2;
    Distribute(a, b, q2, r2, r);
    var low := a * r2 + r;
    assert n == (a * b) * q2 + low;
    assert 0 <= low < a * b by {
      MulAtLeast(a, b - r2);
      assert a * (b - r2) == a * b - a * r2;
      MulNonneg(a, r2);
    }
    DivMulAdd(a * b, q2, low);
  }

  predicate IsDigit(c: char) {
    '0' <= c <= '9'
  }

  predicate AllDigits(s: string) {
    forall i :: 0 <= i < |s| ==> IsDigit(s[i])
  }

  function DigitChar(d: nat): (c: char)
    requires d < 10
    ensures IsDigit(c)
    ensures c == '0' <==> d == 0
  {
    ('0' as int + d) as char
  }

  function DigitValue(c: char): (d: nat)
    requires IsDigit(c)
    ensures d < 10 && DigitChar(d) == c
  {
    c as int - '0' as int
  }

  /** The value a string of decimal digits denotes, most significant digit first. */
  function ValueOf(s: string): nat
    requires AllDigits(s)
  {
    if s == [] then 0 else ValueOf(s[..|s| - 1]) * 10 + DigitValue(s[|s| - 1])
  }

  /** `n.toString()` for a non-negative integer: digits, no leading zero. */
  function NatToString(n: nat): (r: string)
    ensures |r| >= 1 && AllDigits(r)
    ensures r[0] == '0' <==> n == 0
    ensures n == 0 <==> r == "0"
  {
    if n < 10 then [DigitChar(n)] else NatToString(n / 10) + [DigitChar(n % 10)]
  }

  /** `String(i)` for an integer: a minus sign before the magnitude's digits when negative. */
  function IntToString(i: int): (r: string)
    ensures |r| >= 1 && (r[0] == '-' <==> i < 0)
    ensures i >= 0 ==> (r[0] == '0' <==> i == 0)
    ensures i < 0 ==> |r| >= 2 && r[1] != '0'
    ensures i >= 0 ==> AllDigits(r) && ValueOf(r) == i
    ensures i < 0 ==> AllDigits(r[1..]) && ValueOf(r[1..]) == -i
  {
    if i < 0 then
      var digits := NatToString(-i);
      NatToStringRoundTrip(-i);
      assert ("-" + digits)[1..] == digits;
      "-" + digits
    else
      NatToStringRoundTrip(i);
      assert !IsDigit('-');
      NatToString(i)
  }

  /** Distinct integers are written as distinct texts. */
  lemma IntToStringInjective(i: int, j: int)
    requires IntToString(i) == IntToString(j)
    ensures i == j
  {
  }

  lemma {:induction false} ValueOfSnoc(s: string, c: char)
    requires AllDigits(s) && IsDigit(c)
    ensures AllDigits(s + [c]) && ValueOf(s + [c]) == ValueOf(s) * 10 + DigitValue(c)
  {
    assert (s + [c])[..|s|] == s;
  }

  lemma AllDigitsAppend(a: string, b: string)
    requires AllDigits(a) && AllDigits(b)
    ensures AllDigits(a + b)
  {
    assert forall i :: |a| <= i < |a + b| ==> (a + b)[i] == b[i - |a|];
  }

  /** The digits of `a` followed by those of `b` denote `a`'s value shifted left by `|b|` places, plus `b`'s. */
  lemma {:induction false} ValueOfAppend(a: string, b: string)
    requires AllDigits(a) && AllDigits(b)
    ensures AllDigits(a + b) && ValueOf(a + b) == ValueOf(a) * Pow10(|b|) + ValueOf(b)
    decreases |b|
  {
    AllDigitsAppend(a, b);
    if b == [] {
      assert a + b == a;
    } else {
      var init, c := b[..|b| - 1], b[|b| - 1];
      ValueOfAppend(a, init);
      assert a + b == (a + init) + [c];
      ValueOfSnoc(a + init, c);
      var x, y, p := ValueOf(a), ValueOf(init), Pow10(|init|);
      assert Pow10(|b|) == 10 * p;
      assert ValueOf(b) == y * 10 + DigitValue(c);
      assert ValueOf(a + b) == (x * p + y) * 10 + DigitValue(c);
      ShiftDigit(x, p, y, DigitValue(c));
    }
  }

  /** Reading back the digits of `n` gives `n`. */
  lemma {:induction false} NatToStringRoundTrip(n: nat)
    ensures ValueOf(NatToString(n)) == n
    decreases n
  {
    if n >= 10 {
      NatToStringRoundTrip(n / 10);
      ValueOfSnoc(NatToString(n / 10), DigitChar(n % 10));
    } else {
      assert [DigitChar(n)][..0] == [];
    }
  }

  function Zeros(n: nat): (r: string)
    ensures |r| == n && AllDigits(r)
  {
    Repeat('0', n)
  }

  lemma ZerosAdd(a: nat, b: nat)
    ensures Zeros(a) + Zeros(b) == Zeros(a + b)
  {
    assert forall i :: 0 <= i < a + b ==> (Zeros(a) + Zeros(b))[i] == '0';
  }

  /** The last `w` decimal digits of `n` (that is, of `n % 10^w`), zero-filled on the left. */
  function Fixed(n: int, w: nat): (r: string)
    ensures |r| == w && AllDigits(r)
    decreases w
  {
    if w == 0 then [] else Fixed(n / 10, w - 1) + [DigitChar(n % 10)]
  }

  /** A `w`-digit block denotes `n` modulo `10^w`. */
  lemma {:induction false} FixedValue(n: int, w: nat)
    ensures ValueOf(Fixed(n, w)) == n % Pow10(w)
    decreases w
  {
    if w > 0 {
      FixedValue(n / 10, w - 1);
      ValueOfSnoc(Fixed(n / 10, w - 1), DigitChar(n % 10));
      DivModNested(n, 10, Pow10(w - 1));
    }
  }

  /** The high `a` digits of an `(a + b)`-digit block are the block of `n / 10^b`; the low `b` are the block of `n`. */
  lemma {:induction false} FixedSplit(n: int, a: nat, b: nat)
    ensures Fixed(n, a + b) == Fixed(n / Pow10(b), a) + Fixed(n, b)
    decreases b
  {
    if b > 0 {
      FixedSplit(n / 10, a, b - 1);
      DivModNested(n, 10, Pow10(b - 1));
      assert a + b - 1 == a + (b - 1);
    }
  }

  /** A digit block is all zeros exactly when `10^w` divides `n`. */
  lemma {:induction false} FixedZeros(n: int, w: nat)
    ensures Fixed(n, w) == Zeros(w) <==> n % Pow10(w) == 0
    decreases w
  {
    if w > 0 {
      FixedZeros(n / 10, w - 1);
      DivModNested(n, 10, Pow10(w - 1));
      assert Zeros(w) == Zeros(w - 1) + ['0'];
      var low := (n / 10) % Pow10(w - 1);
      if n % Pow10(w) == 0 {
        assert 10 * low + n % 10 == 0;
      }
      if Fixed(n, w) == Zeros(w) {
        assert Fixed(n, w)[w - 1] == DigitChar(n % 10) == '0';
        assert Fixed(n, w)[..w - 1] == Fixed(n / 10, w - 1);
        assert Zeros(w)[..w - 1] == Zeros(w - 1);
      }
    }
  }

  /** Multiplying by `10^b` appends `b` zero digits. */
  lemma FixedShift(n: int, a: nat, b: nat)
    ensures Fixed(n * Pow10(b), a + b) == Fixed(n, a) + Zeros(b)
  {
    FixedSplit(n * Pow10(b), a, b);
    DivMulAdd(Pow10(b), n, 0);
    FixedZeros(n * Pow10(b), b);
  }

  /** Scaling up by `p` and down by `p * q` is scaling down by `q`. */
  lemma ScaleDown(f: nat, p: nat, q: nat)
    requires p > 0 && q > 0
    ensures f * p / (p * q) == f / q
  {
    MulNonneg(f, p);
    DivModNested(f * p, p, q);
    assert f * p == p * f;
    DivMulAdd(p, f, 0);
  }

  /** Scaling up by `p * q` and down by `p` is scaling up by `q`. */
  lemma ScaleUp(f: nat, p: nat, q: nat)
    requires p > 0
    ensures f * (p * q) / p == f * q
  {
    MulNonneg(f, q);
    assert f * (p * q) == p * (f * q);
    DivMulAdd(p, f * q, 0);
  }

  lemma Pow10Sub(n: nat, d: nat)
    requires d <= n
    ensures Pow10(n) == Pow10(d) * Pow10(n - d)
  {
    Pow10Add(d, n - d);
  }

  lemma FixedSplitAt(x: int, n: nat, d: nat)
    requires d <= n
    ensures Fixed(x, n) == Fixed(x / Pow10(n - d), d) + Fixed(x, n - d)
  {
    FixedSplit(x, d, n - d);
  }

  lemma FixedShiftTo(x: int, n: nat, d: nat)
    requires n <= d
    ensures Fixed(x * Pow10(d - n), d) == Fixed(x, n) + Zeros(d - n)
  {
    FixedShift(x, n, d - n);
  }

  /**
   * The first `d` digits of an `n`-digit block followed by zeros are the
   * `d`-digit block of `f * 10^d / 10^n`: the first `d` places of `f / 10^n`.
   */
  lemma FirstPlaces(f: nat, n: nat, d: nat)
    requires f < Pow10(n)
    ensures (Fixed(f, n) + Zeros(d))[..d] == Fixed(f * Pow10(d) / Pow10(n), d)
  {
    var block := Fixed(f, n);
    if d <= n {
      Pow10Sub(n, d);
      ScaleDown(f, Pow10(d), Pow10(n - d));
      FixedSplitAt(f, n, d);
      assert (block + Zeros(d))[..d] == block[..d];
    } else {
      Pow10Sub(d, n);
      ScaleUp(f, Pow10(n), Pow10(d - n));
      FixedShiftTo(f, n, d);
      assert (block + Zeros(d))[..d] == block + Zeros(d)[..d - n];
    }
  }

  /** `s` without its trailing `'0'` characters. */
  function StripTrailingZeros(s: string): (r: string)
    ensures |r| <= |s| && r == s[..|r|]
    ensures forall i :: |r| <= i < |s| ==> s[i] == '0'
    ensures r == [] || r[|r| - 1] != '0'
  {
    if |s| > 0 && s[|s| - 1] == '0' then StripTrailingZeros(s[..|s| - 1]) else s
  }

  /** What was stripped was zeros: putting them back restores `s`. */
  lemma StripRestore(s: string)
    ensures s == StripTrailingZeros(s) + Zeros(|s| - |StripTrailingZeros(s)|)
  {
    var r := StripTrailingZeros(s);
    assert forall i :: 0 <= i < |s| ==> s[i] == (r + Zeros(|s| - |r|))[i];
  }

  /** A block of zeros strips down to nothing. */
  lemma {:induction false} StripZeros(n: nat)
    ensures StripTrailingZeros(Zeros(n)) == []
  {
    if n > 0 {
      assert Zeros(n)[..n - 1] == Zeros(n - 1);
      StripZeros(n - 1);
    }
  }

  /** Only an all-zero block strips down to nothing. */
  lemma StripEmptyIffZeros(s: string)
    ensures StripTrailingZeros(s) == [] <==> s == Zeros(|s|)
  {
    if s == Zeros(|s|) {
      StripZeros(|s|);
    } else {
      StripRestore(s);
    }
  }
}
