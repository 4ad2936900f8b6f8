/**
 * The display formatters of the dashboard: `shortenAddress`, which cuts a
 * hex address down to a prefix, an ellipsis and a suffix, and
 * `formatBalance`, which shows a wei amount as ether with a fixed number
 * of decimal places. `formatBalance` relies on viem's `formatEther`,
 * modelled here as the exact decimal expansion of `wei / 10^18`.
 */
module Formatters {
  import opened Wrappers
  import opened JsStrings
  import opened Decimal

  /** What `shortenAddress` shows for a missing or empty address. */
  const Placeholder := "Unknown"
  const Ellipsis := "..."
  /** The default number of visible characters on each side. */
  const DefaultChars := 4
  /** The default number of decimal places `formatBalance` shows. */
  const DefaultDecimals := 4
  /** Ether has 18 decimals: one ether is 10^18 wei. */
  const EtherDecimals: nat := 18
  const WeiPerEther: nat := 1_000_000_000_000_000_000

  lemma WeiPerEtherIsPow10()
    ensures Pow10(EtherDecimals) == WeiPerEther
  {
    assert Pow10(3) == 1000;
    assert Pow10(6) == 1000000 by { Pow10Add(3, 3); }
    assert Pow10(9) == 1000000000 by { Pow10Add(6, 3); }
    assert Pow10(18) == WeiPerEther by { Pow10Add(9, 9); }
  }

  // ---------------------------------------------------------------------
  // shortenAddress
  // ---------------------------------------------------------------------

  /**
   * `shortenAddress(address, chars)`: the placeholder for a falsy address,
   * the address itself when it is at most `2 * chars + 2` long, otherwise
   * `address.slice(0, chars + 2) + "..." + address.slice(-chars)`.
   */
  function ShortenAddress(address: Option<string>, chars: int): (r: string)
    ensures !Truthy(address) ==> r == Placeholder
    ensures Truthy(address) && |address.value| <= 2 * chars + 2 ==> r == address.value
    ensures Truthy(address) && chars >= 1 && |address.value| > 2 * chars + 2 ==>
      && r == address.value[..chars + 2] + Ellipsis + address.value[|address.value| - chars..]
      && |r| == 2 * chars + 5
    ensures Truthy(address) && chars == 0 && |address.value| > 2 ==>
      r == address.value[..2] + Ellipsis + address.value
  {
    if !Truthy(address) then Placeholder
    else
      var a := address.value;
      var prefixLength := chars + 2;
      if |a| <= prefixLength + chars then a
      else Slice(a, 0, prefixLength) + Ellipsis + SliceFrom(a, -chars)
  }

  /**
   * Shortening a shortened address changes nothing, as long as at least one
   * character is kept at the end and, for a missing address, the
   * placeholder itself is short enough to be left alone (`chars >= 3`).
   */
  lemma ShortenIdempotent(address: Option<string>, chars: int)
    requires chars >= 1
    requires Truthy(address) || chars >= 3
    ensures ShortenAddress(Some(ShortenAddress(address, chars)), chars) == ShortenAddress(address, chars)
  {
    var r := ShortenAddress(address, chars);
    if Truthy(address) && |address.value| > 2 * chars + 2 {
      var a := address.value;
      assert r[..chars + 2] == a[..chars + 2];
      assert r[|r| - chars..] == a[|a| - chars..];
    }
  }

  /** With `chars = 0`, `slice(-0)` keeps the whole address, so a second pass grows it again. */
  lemma ShortenZeroCharsNotIdempotent()
    ensures ShortenAddress(Some("0xabc"), 0) == "0x...0xabc"
    ensures ShortenAddress(Some(ShortenAddress(Some("0xabc"), 0)), 0) == "0x...0x...0xabc"
  {
    assert SliceFrom("0xabc", 0) == "0xabc";
    assert Slice("0xabc", 0, 2) == "0x";
    var once := "0x...0xabc";
    assert SliceFrom(once, 0) == once;
    assert Slice(once, 0, 2) == "0x";
  }

  /** With `chars <= 2` the placeholder is itself long enough to be shortened. */
  lemma ShortenPlaceholderReshortened()
    ensures ShortenAddress(None, 2) == "Unknown"
    ensures ShortenAddress(Some(ShortenAddress(None, 2)), 2) == "Unkn...wn"
  {
    assert "Unknown"[..4] == "Unkn";
    assert "Unknown"[5..] == "wn";
  }

  // ---------------------------------------------------------------------
  // formatEther (viem), as a specification
  // ---------------------------------------------------------------------

  function Abs(v: int): nat {
    if v < 0 then -v else v
  }

  /** The part of `formatEther(v)` before the point: sign and whole ether. */
  function EtherWhole(v: int): (r: string)
    ensures |r| >= 1 && '.' !in r
    ensures r[0] == '-' <==> v < 0
  {
    var digits := NatToString(Abs(v) / WeiPerEther);
    assert '.' !in digits by { assert !IsDigit('.'); }
    if v < 0 then "-" + digits else digits
  }

  /** The 18 fractional digits of `v / 10^18`, trailing zeros removed. */
  function EtherFraction(v: int): (r: string)
    ensures |r| <= EtherDecimals && AllDigits(r) && '.' !in r
    ensures r == [] || r[|r| - 1] != '0'
  {
    var block := Fixed(Abs(v) % WeiPerEther, EtherDecimals);
    var r := StripTrailingZeros(block);
    assert AllDigits(r) && !IsDigit('.');
    r
  }

  /**
   * viem's `formatEther(v)`: the decimal expansion of `v / 10^18`, a `-` for
   * negative amounts, trailing fractional zeros removed and no `.` when the
   * fraction is zero.
   */
  function FormatEther(v: int): (r: string)
    ensures |r| >= 1 && (r[0] == '-' <==> v < 0)
    ensures '.' in r <==> Abs(v) % WeiPerEther != 0
  {
    var whole, fraction := EtherWhole(v), EtherFraction(v);
    EtherFractionEmptyIff(v);
    PointedText(whole, fraction);
    whole + (if fraction == "" then "" else "." + fraction)
  }

  /** A point-free part, then a point and a point-free fraction when there is one: the point appears exactly with the fraction. */
  lemma PointedText(a: string, b: string)
    requires '.' !in a && '.' !in b && |a| >= 1
    ensures var t := a + (if b == "" then "" else "." + b);
      |t| >= 1 && t[0] == a[0] && ('.' in t <==> b != "")
  {
    var t := a + (if b == "" then "" else "." + b);
    if b != "" {
      assert t[|a|] == '.';
      assert t == a + ['.'] + b;
      assert forall c :: c in t ==> c in a || c == '.' || c in b;
    }
  }

  /** `formatEther(v)` has a fraction exactly when `v` is not a whole number of ether. */
  lemma EtherFractionEmptyIff(v: int)
    ensures EtherFraction(v) == "" <==> Abs(v) % WeiPerEther == 0
  {
    var f := Abs(v) % WeiPerEther;
    StripEmptyIffZeros(Fixed(f, EtherDecimals));
    FixedZeros(f, EtherDecimals);
    WeiPerEtherIsPow10();
    DivMulAdd(WeiPerEther, 0, f);
    assert f % WeiPerEther == f;
  }

  /** A text made of a point-free part and an optional point-free fraction splits back into those parts. */
  lemma SplitPointed(a: string, b: string)
    requires '.' !in a && '.' !in b
    ensures Split(a + (if b == "" then "" else "." + b), '.') == if b == "" then [a] else [a, b]
  {
    if b == "" {
      assert a + "" == a;
      SplitNoSeparator(a, '.');
    } else {
      assert a + ("." + b) == a + ['.'] + b;
      SplitOnce(a, b, '.');
    }
  }

  /** `formatEther(v).split('.')` is the whole part alone, or the whole part and the fraction. */
  lemma FormatEtherSplit(v: int)
    ensures Split(FormatEther(v), '.') ==
      if EtherFraction(v) == "" then [EtherWhole(v)] else [EtherWhole(v), EtherFraction(v)]
  {
    SplitPointed(EtherWhole(v), EtherFraction(v));
  }

  /** Fraction digits right-padded with zeros to the 18 places of a wei amount. */
  function PaddedFraction(fraction: string): (r: string)
    requires AllDigits(fraction) && |fraction| <= EtherDecimals
    ensures AllDigits(r) && |r| == EtherDecimals
  {
    AllDigitsAppend(fraction, Zeros(EtherDecimals - |fraction|));
    fraction + Zeros(EtherDecimals - |fraction|)
  }

  /**
   * The digit blocks of an unsigned ether text: the digits before the first
   * `.` and the digits after it padded to 18 places, when both are digits
   * only, the first is not empty and the second has at most 18.
   */
  function EtherDigits(u: string): (r: Option<(string, string)>)
    ensures r.Some? ==> AllDigits(r.value.0) && AllDigits(r.value.1)
  {
    var k := IndexOf(u, '.');
    var whole := u[..k];
    var fraction := if k < |u| then u[k + 1..] else "";
    if whole == "" || !AllDigits(whole) || !AllDigits(fraction) || |fraction| > EtherDecimals then None
    else Some((whole, PaddedFraction(fraction)))
  }

  /** The wei amount two digit blocks denote once the point between them is removed. */
  function Wei(whole: string, padded: string): nat
    requires AllDigits(whole) && AllDigits(padded)
  {
    AllDigitsAppend(whole, padded);
    ValueOf(whole + padded)
  }

  /**
   * Reading an ether amount back to wei in the manner of viem's
   * `parseEther`, for the texts `formatEther` writes: an optional `-`, whole
   * digits and at most 18 fractional digits after an optional `.`. The
   * fraction is padded to 18 places and the digits on both sides of the
   * point are read as one integer; any other text reads as nothing.
   */
  function ParseEther(s: string): Option<int> {
    match EtherDigits(Unsigned(s))
    case None => None
    case Some((whole, padded)) =>
      var m: int := Wei(whole, padded);
      Some(if IsNegative(s) then -m else m)
  }

  predicate IsNegative(s: string) {
    |s| > 0 && s[0] == '-'
  }

  /** The text after a leading `-`, if any. */
  function Unsigned(s: string): string {
    if IsNegative(s) then s[1..] else s
  }

  /** An unsigned ether text: whole digits, then `.` and the fraction if there is one. */
  function UnsignedEtherText(digits: string, fraction: string): string {
    digits + (if fraction == "" then "" else "." + fraction)
  }

  /** The digit blocks of an unsigned ether text are its whole digits and its padded fraction. */
  lemma UnsignedEtherDigits(digits: string, fraction: string)
    requires digits != [] && AllDigits(digits) && AllDigits(fraction) && |fraction| <= EtherDecimals
    ensures EtherDigits(UnsignedEtherText(digits, fraction)) == Some((digits, PaddedFraction(fraction)))
    ensures !IsNegative(UnsignedEtherText(digits, fraction))
  {
    var u := UnsignedEtherText(digits, fraction);
    assert u[0] == digits[0] && IsDigit(digits[0]);
    assert '.' !in digits by { assert !IsDigit('.'); }
    if fraction == "" {
      assert u == digits;
      IndexOfAbsent(digits, '.');
    } else {
      assert u == digits + ['.'] + fraction;
      IndexOfFirst(digits, '.', fraction);
      assert u[..|digits|] == digits && u[|digits| + 1..] == fraction;
    }
  }

  /** Text without a leading `-` reads as the value of its digit blocks. */
  lemma ParseEtherUnsigned(u: string, whole: string, padded: string)
    requires !IsNegative(u) && EtherDigits(u) == Some((whole, padded))
    ensures ParseEther(u) == Some(Wei(whole, padded) as int)
  {
  }

  /** Dropping the `-` put in front of a text gives the text back. */
  lemma UnsignedOfNegated(u: string)
    ensures IsNegative("-" + u) && Unsigned("-" + u) == u
  {
    assert ("-" + u)[1..] == u;
  }

  /** A leading `-` negates what the rest of the text reads as. */
  lemma ParseEtherNegated(u: string, whole: string, padded: string)
    requires EtherDigits(u) == Some((whole, padded))
    ensures ParseEther("-" + u) == Some(-(Wei(whole, padded) as int))
  {
    UnsignedOfNegated(u);
    var t := "-" + u;
    assert EtherDigits(Unsigned(t)) == Some((whole, padded));
  }

  /** An optional `-` before an unsigned text sets the sign of what it reads as. */
  lemma ParseEtherSigned(negative: bool, u: string, whole: string, padded: string)
    requires !IsNegative(u) && EtherDigits(u) == Some((whole, padded))
    ensures var m: int := Wei(whole, padded);
      ParseEther((if negative then "-" else "") + u) == Some(if negative then -m else m)
  {
    if negative {
      ParseEtherNegated(u, whole, padded);
    } else {
      assert "" + u == u;
      ParseEtherUnsigned(u, whole, padded);
    }
  }

  lemma AppendAssoc(a: string, b: string, c: string)
    ensures (a + b) + c == a + (b + c)
  {
  }

  /** `formatEther(v)` is an unsigned ether text, after a `-` when `v` is negative. */
  lemma FormatEtherSigned(v: int)
    ensures FormatEther(v) ==
      (if v < 0 then "-" else "") + UnsignedEtherText(NatToString(Abs(v) / WeiPerEther), EtherFraction(v))
  {
    var digits, fraction := NatToString(Abs(v) / WeiPerEther), EtherFraction(v);
    var rest := if fraction == "" then "" else "." + fraction;
    if v < 0 {
      AppendAssoc("-", digits, rest);
    } else {
      assert "" + (digits + rest) == digits + rest;
    }
  }

  /** The two digit blocks of `formatEther(v)` denote `|v|` wei. */
  lemma EtherBlocksValue(v: int)
    ensures Wei(NatToString(Abs(v) / WeiPerEther), PaddedFraction(EtherFraction(v))) == Abs(v)
  {
    var q, f := Abs(v) / WeiPerEther, Abs(v) % WeiPerEther;
    var block := Fixed(f, EtherDecimals);
    StripRestore(block);
    assert PaddedFraction(EtherFraction(v)) == block;
    ValueOfAppend(NatToString(q), block);
    NatToStringRoundTrip(q);
    FixedValue(f, EtherDecimals);
    WeiPerEtherIsPow10();
    DivMulAdd(WeiPerEther, 0, f);
  }

  /**
   * `formatEther(v)` is an optional `-` before an unsigned text whose digit
   * blocks denote `|v|` wei.
   */
  lemma FormatEtherBlocks(v: int) returns (u: string, whole: string, padded: string)
    ensures FormatEther(v) == (if v < 0 then "-" else "") + u
    ensures !IsNegative(u) && EtherDigits(u) == Some((whole, padded))
    ensures Wei(whole, padded) == Abs(v)
  {
    var fraction := EtherFraction(v);
    whole, padded := NatToString(Abs(v) / WeiPerEther), PaddedFraction(fraction);
    u := UnsignedEtherText(whole, fraction);
    FormatEtherSigned(v);
    UnsignedEtherDigits(whole, fraction);
    EtherBlocksValue(v);
  }

  /** `formatEther` loses neither sign nor magnitude: its text reads back to the exact wei amount. */
  lemma FormatEtherRoundTrip(v: int)
    ensures ParseEther(FormatEther(v)) == Some(v)
  {
    var u, whole, padded := FormatEtherBlocks(v);
    ParseEtherSigned(v < 0, u, whole, padded);
  }

  // ---------------------------------------------------------------------
  // formatBalance
  // ---------------------------------------------------------------------

  /** The `TypeError` thrown by `fraction.slice` when `fraction` is undefined. */
  datatype FormatError = FractionUndefined

  /**
   * `formatBalance(amount, decimals)` as written: `"0"` for a falsy amount;
   * otherwise `formatEther(amount).split('.')` into `integer` and
   * `fraction`; the bare `integer` when both the fraction and `decimals`
   * are falsy; otherwise `integer + "." + fraction.slice(0, decimals)
   * .padEnd(decimals, '0')`, which throws when `fraction` is undefined.
   */
  function FormatBalance(amount: Option<int>, decimals: int): (r: Result<string, FormatError>)
    ensures amount.None? || amount.value == 0 ==> r == Ok("0")
  {
    if amount.None? || amount.value == 0 then Ok("0")
    else
      var parts := Split(FormatEther(amount.value), '.');
      var integer := parts[0];
      var fraction := if |parts| > 1 then Some(parts[1]) else None;
      if !Truthy(fraction) && decimals == 0 then Ok(integer)
      else if fraction.None? then Err(FractionUndefined)
      else Ok(integer + "." + PadEnd(Slice(fraction.value, 0, decimals), decimals, '0'))
  }

  /**
   * `formatBalance` with the fraction defaulting to the empty string
   * (`const [integer, fraction = ''] = ...`): a whole-ether amount then
   * shows as the integer followed by `decimals` zeros instead of throwing.
   */
  function FormatBalanceFixed(amount: Option<int>, decimals: int): (r: string)
    ensures amount.None? || amount.value == 0 ==> r == "0"
  {
    if amount.None? || amount.value == 0 then "0"
    else
      var parts := Split(FormatEther(amount.value), '.');
      var integer := parts[0];
      var fraction := if |parts| > 1 then parts[1] else "";
      if fraction == "" && decimals == 0 then integer
      else integer + "." + PadEnd(Slice(fraction, 0, decimals), decimals, '0')
  }

  /** The first `d` decimal places of `|v| / 10^18`, cut off and never rounded. */
  function TruncatedFraction(v: int, d: nat): (r: string)
    ensures |r| == d && AllDigits(r)
  {
    Fixed((Abs(v) % WeiPerEther) * Pow10(d) / WeiPerEther, d)
  }

  /** Cutting `t` to `d` characters and padding with zeros is reading `d` characters of `t` followed by zeros. */
  lemma PadSlicePrefix(t: string, n: nat, d: nat)
    requires d <= n
    ensures PadEnd(Slice(t, 0, d), d, '0') == (t + Zeros(n))[..d]
  {
    var lhs := PadEnd(Slice(t, 0, d), d, '0');
    var rhs := (t + Zeros(n))[..d];
    assert |lhs| == |rhs| == d;
    forall i | 0 <= i < d ensures lhs[i] == rhs[i] {
      if i < |t| {
        assert lhs[..|Slice(t, 0, d)|][i] == t[i];
      }
    }
  }

  /** Cutting a stripped fraction to `d` places and padding it back is reading `d` places of the full block. */
  lemma CutAndPad(block: string, d: nat)
    ensures PadEnd(Slice(StripTrailingZeros(block), 0, d), d, '0') == (block + Zeros(d))[..d]
  {
    var t := StripTrailingZeros(block);
    StripRestore(block);
    var k := |block| - |t|;
    ZerosAdd(k, d);
    AppendAssoc(t, Zeros(k), Zeros(d));
    PadSlicePrefix(t, k + d, d);
  }

  /**
   * The corrected `formatBalance` truncates: for a nonzero amount and
   * `d >= 1` decimals it shows `formatEther`'s integer part (sign included),
   * a point, and exactly the first `d` decimal places of the amount in
   * ether, padded with zeros and never rounded up.
   */
  lemma FormatBalanceFixedTruncates(v: int, d: nat)
    requires v != 0 && d >= 1
    ensures FormatBalanceFixed(Some(v), d) == EtherWhole(v) + "." + TruncatedFraction(v, d)
  {
    FormatEtherSplit(v);
    var f := Abs(v) % WeiPerEther;
    CutAndPad(Fixed(f, EtherDecimals), d);
    WeiPerEtherIsPow10();
    FirstPlaces(f, EtherDecimals, d);
  }

  /**
   * `formatBalance` as written throws exactly on a nonzero whole number of
   * ether with `decimals != 0`: `formatEther` then writes no point, so the
   * fraction is undefined.
   */
  lemma FormatBalanceThrowsOnlyOnWholeEther(amount: Option<int>, decimals: int)
    ensures FormatBalance(amount, decimals).Err? <==>
      amount.Some? && amount.value != 0 && decimals != 0 && Abs(amount.value) % WeiPerEther == 0
  {
    if amount.Some? && amount.value != 0 {
      FormatEtherSplit(amount.value);
      EtherFractionEmptyIff(amount.value);
    }
  }

  /** Where `formatBalance` as written does not throw, it shows what the corrected one shows. */
  lemma FormatBalanceAgreesWhenOk(amount: Option<int>, decimals: int)
    ensures FormatBalance(amount, decimals).Ok? ==>
      FormatBalance(amount, decimals).value == FormatBalanceFixed(amount, decimals)
  {
    if amount.Some? && amount.value != 0 {
      FormatEtherSplit(amount.value);
    }
  }

  /** With no decimals: the bare integer for whole ether, the integer and a dangling point otherwise. */
  lemma FormatBalanceNoDecimals(v: int)
    requires v != 0
    ensures FormatBalance(Some(v), 0) ==
      Ok(if Abs(v) % WeiPerEther == 0 then EtherWhole(v) else EtherWhole(v) + ".")
  {
    FormatEtherSplit(v);
    EtherFractionEmptyIff(v);
    var fraction := EtherFraction(v);
    if fraction != "" {
      assert Slice(fraction, 0, 0) == "";
      assert PadEnd("", 0, '0') == "";
      assert EtherWhole(v) + "." + "" == EtherWhole(v) + ".";
    }
  }

  /**
   * Where it does not throw and `decimals >= 1`, `formatBalance` as written
   * shows the integer part, a point and the first `decimals` places, cut off.
   */
  lemma FormatBalanceTruncates(v: int, d: nat)
    requires v != 0 && d >= 1 && Abs(v) % WeiPerEther != 0
    ensures FormatBalance(Some(v), d) == Ok(EtherWhole(v) + "." + TruncatedFraction(v, d))
  {
    FormatBalanceFixedTruncates(v, d);
    FormatBalanceThrowsOnlyOnWholeEther(Some(v), d);
    FormatBalanceAgreesWhenOk(Some(v), d);
  }

  /** An amount of at least one and less than two ether has whole part `1`. */
  lemma OneWholeEther(v: int)
    requires WeiPerEther <= v < 2 * WeiPerEther
    ensures EtherWhole(v) == "1"
  {
    assert Abs(v) / WeiPerEther == 1;
    assert NatToString(1) == "1";
  }

  lemma FixedOf99()
    ensures Fixed(99, 2) == "99"
  {
    assert DigitChar(9) == '9';
    assert Fixed(9, 1) == Fixed(0, 0) + "9" == "9";
  }

  /** The first two places of 1.999999 ether are `99`. */
  lemma TwoPlacesOfExample(v: int)
    requires v == 1999999000000000000
    ensures TruncatedFraction(v, 2) == "99"
  {
    assert Pow10(2) == 100;
    assert (Abs(v) % WeiPerEther) * Pow10(2) / WeiPerEther == 99;
    FixedOf99();
  }

  lemma OnePointNinetyNine()
    ensures "1" + "." + "99" == "1.99"
  {
  }

  /**
   * 1.999999 ether shown at two places is `1.99`: truncation, not rounding.
   * The amount is a parameter fixed by the precondition: written as a
   * literal inside `FormatBalance(...)`, it makes the verifier evaluate the
   * whole function on the constant, which costs far more than this proof.
   */
  lemma FormatBalanceNeverRoundsUp(v: int)
    requires v == 1999999000000000000
    ensures FormatBalance(Some(v), 2) == Ok("1.99")
  {
    FormatBalanceTruncates(v, 2);
    OneWholeEther(v);
    TwoPlacesOfExample(v);
    OnePointNinetyNine();
  }

  lemma FixedOf2345()
    ensures Fixed(2345, 4) == "2345"
  {
    assert DigitChar(2) == '2' && DigitChar(3) == '3' && DigitChar(4) == '4' && DigitChar(5) == '5';
    assert Fixed(2, 1) == Fixed(0, 0) + "2" == "2";
    assert Fixed(23, 2) == Fixed(2, 1) + "3" == "23";
    assert Fixed(234, 3) == Fixed(23, 2) + "4" == "234";
  }

  /** The first four places of 1.23456 ether are `2345`. */
  lemma FourPlacesOfExample(v: int)
    requires v == 1234560000000000000
    ensures TruncatedFraction(v, 4) == "2345"
  {
    assert Pow10(4) == 10000;
    assert (Abs(v) % WeiPerEther) * Pow10(4) / WeiPerEther == 2345;
    FixedOf2345();
  }

  lemma OnePoint2345()
    ensures "1" + "." + "2345" == "1.2345"
  {
  }

  /** 1.23456 ether at the default four places is `1.2345`; the amount is a parameter for the same reason. */
  lemma FormatBalanceDefaultExample(v: int)
    requires v == 1234560000000000000
    ensures FormatBalance(Some(v), DefaultDecimals) == Ok("1.2345")
  {
    FormatBalanceTruncates(v, DefaultDecimals);
    OneWholeEther(v);
    FourPlacesOfExample(v);
    OnePoint2345();
  }

  /** Any whole number of ether (one ether is `10^18` wei) at the default four places throws instead of showing `n.0000`. */
  lemma FormatBalanceWholeEtherThrows(n: nat)
    requires n >= 1
    ensures FormatBalance(Some(n * WeiPerEther), DefaultDecimals) == Err(FractionUndefined)
  {
    var v := n * WeiPerEther;
    MulAtLeast(n, WeiPerEther);
    DivMulAdd(WeiPerEther, n, 0);
    assert Abs(v) % WeiPerEther == 0;
    FormatBalanceThrowsOnlyOnWholeEther(Some(v), DefaultDecimals);
  }
}
