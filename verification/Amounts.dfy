/** Decimal amounts as text, and the inversion that balances a journal entry. */
module Amounts {
  import opened Texts

  predicate IsDigit(c: char) { '0' <= c <= '9' }

  predicate IsDigits(s: string) {
    s != [] && forall k | 0 <= k < |s| :: IsDigit(s[k])
  }

  /** Digits, with at most one dot that has digits on both sides. */
  predicate IsUnsigned(s: string) {
    var i := IndexOf(s, ".");
    if i < |s| then IsDigits(s[..i]) && IsDigits(s[i + 1..]) else IsDigits(s)
  }

  /** An unsigned amount, or one behind a single sign. */
  predicate IsAmount(s: string) {
    s != [] && (if s[0] == '-' || s[0] == '+' then IsUnsigned(s[1..]) else IsUnsigned(s))
  }

  function Digits(s: string): int {
    if s == [] then 0 else 10 * Digits(s[..|s| - 1]) + (s[|s| - 1] as int - '0' as int)
  }

  function Pow10(n: nat): (r: int)
    ensures r > 0
  {
    if n == 0 then 1 else 10 * Pow10(n - 1)
  }

  function Magnitude(s: string): real {
    var i := IndexOf(s, ".");
    if i < |s| then Digits(s[..i] + s[i + 1..]) as real / Pow10(|s| - i - 1) as real else Digits(s) as real
  }

  /** What an amount is worth. */
  function Worth(s: string): real {
    if StartsWith(s, "-") then -Magnitude(s[1..])
    else if StartsWith(s, "+") then Magnitude(s[1..])
    else Magnitude(s)
  }

  function InvertAmount(space: char -> bool, amount: string): string {
    var trimmed := Trim(space, amount);
    if StartsWith(trimmed, "-") then trimmed[1..]
    else if StartsWith(trimmed, "+") then "-" + trimmed[1..]
    else "-" + trimmed
  }

  lemma UnsignedHasNoSign(u: string)
    requires IsUnsigned(u)
    ensures u != [] && u[0] != '-' && u[0] != '+'
  {
    var i := IndexOf(u, ".");
    if i < |u| {
      assert u[..i][0] == u[0];
    }
  }

  /** An unsigned amount alone, and behind either sign. */
  lemma SignedWorth(u: string)
    requires IsUnsigned(u)
    ensures IsAmount(u) && Worth(u) == Magnitude(u)
    ensures IsAmount("-" + u) && Worth("-" + u) == -Magnitude(u)
    ensures Worth("+" + u) == Magnitude(u)
  {
    UnsignedHasNoSign(u);
    assert ("-" + u)[1..] == u && ("+" + u)[1..] == u;
    assert ("-" + u)[0] == '-' && ("+" + u)[0] == '+';
  }

  lemma SplitSign(s: string) returns (u: string)
    requires IsAmount(s)
    ensures IsUnsigned(u)
    ensures s[0] == '-' ==> s == "-" + u
    ensures s[0] == '+' ==> s == "+" + u
    ensures s[0] != '-' && s[0] != '+' ==> s == u
  {
    u := if s[0] == '-' || s[0] == '+' then s[1..] else s;
    assert s == [s[0]] + s[1..];
  }

  lemma InvertOfTrimmed(space: char -> bool, amount: string, u: string)
    requires u != [] && u[0] != '-' && u[0] != '+'
    ensures Trim(space, amount) == "-" + u ==> InvertAmount(space, amount) == u
    ensures Trim(space, amount) == "+" + u ==> InvertAmount(space, amount) == "-" + u
    ensures Trim(space, amount) == u ==> InvertAmount(space, amount) == "-" + u
  {
    assert ("-" + u)[1..] == u && ("+" + u)[1..] == u;
    assert ("-" + u)[0] == '-' && ("+" + u)[0] == '+';
  }

  /** The inverse of an amount is an amount worth the opposite. */
  lemma InverseBalances(space: char -> bool, amount: string)
    requires IsAmount(Trim(space, amount))
    ensures IsAmount(InvertAmount(space, amount))
    ensures Worth(InvertAmount(space, amount)) == -Worth(Trim(space, amount))
  {
    var u := SplitSign(Trim(space, amount));
    UnsignedHasNoSign(u);
    SignedWorth(u);
    InvertOfTrimmed(space, amount, u);
  }

  lemma InvertTwiceUnsigned(space: char -> bool, u: string)
    requires IsUnsigned(u) && !space('-') && forall c | IsDigit(c) :: !space(c)
    ensures InvertAmount(space, u) == "-" + u
    ensures InvertAmount(space, "-" + u) == u
  {
    UnsignedHasNoSign(u);
    InvertOfTrimmed(space, u, u);
    InvertOfTrimmed(space, "-" + u, u);
  }

  /** Inverting twice gives back the text, unless it spelled out a plus sign. */
  lemma InvertTwiceExactly(space: char -> bool, amount: string)
    requires Trim(space, amount) == amount && IsAmount(amount)
    requires !space('-') && forall c | IsDigit(c) :: !space(c)
    ensures InvertAmount(space, InvertAmount(space, amount)) == amount <==> amount[0] != '+'
  {
    var u := SplitSign(amount);
    UnsignedHasNoSign(u);
    InvertTwiceUnsigned(space, u);
    InvertOfTrimmed(space, amount, u);
    if amount[0] == '-' {
      assert InvertAmount(space, amount) == u;
    } else {
      assert InvertAmount(space, amount) == "-" + u;
      assert u == amount <==> amount[0] != '+';
    }
  }

  // ---------------------------------------------------------------------------------------------
  // Which texts are amounts, and of what worth
  // ---------------------------------------------------------------------------------------------

  lemma DigitChars(c: char)
    ensures IsDigit(c) <==> c in "0123456789"
  {
    var digits := "0123456789";
    assert '0' <= c <= '9' ==> digits[c as int - 48] == c;
  }

  lemma {:induction false} FirstDot(s: string)
    ensures var i := IndexOf(s, ".");
            (i < |s| ==> s[i] == '.') && forall k | 0 <= k < i :: s[k] != '.'
  {
    if s != [] {
      FirstDot(s[1..]);
      assert StartsWith(s, ".") <==> s[0] == '.';
    }
  }

  /** An unsigned amount is digits, or digits, a dot and digits. */
  lemma UnsignedExactly(s: string)
    ensures IsUnsigned(s)
       <==> IsDigits(s) || exists i :: 0 <= i < |s| && s[i] == '.' && IsDigits(s[..i]) && IsDigits(s[i + 1..])
  {
    FirstDot(s);
    if i :| 0 <= i < |s| && s[i] == '.' && IsDigits(s[..i]) && IsDigits(s[i + 1..]) {
      assert forall k | 0 <= k < i :: s[..i][k] == s[k];
      assert IndexOf(s, ".") == i;
    }
  }

  /** An amount has at most one sign, in front. */
  lemma AmountExactly(s: string)
    ensures IsAmount(s) <==> IsUnsigned(s) || (s != [] && (s[0] == '-' || s[0] == '+') && IsUnsigned(s[1..]))
  {
    if IsUnsigned(s) {
      UnsignedHasNoSign(s);
    }
  }

  function Numeral(n: nat): string {
    if n < 10 then ["0123456789"[n]] else Numeral(n / 10) + ["0123456789"[n % 10]]
  }

  lemma DigitValue(d: nat)
    requires d < 10
    ensures "0123456789"[d] as int == '0' as int + d
  {
  }

  /** Numbers written in decimal are read as what they are. */
  lemma {:induction false} DigitsOfNumeral(n: nat)
    ensures IsDigits(Numeral(n)) && Digits(Numeral(n)) == n
  {
    DigitValue(n % 10);
    if n >= 10 {
      DigitsOfNumeral(n / 10);
      assert Numeral(n)[..|Numeral(n)| - 1] == Numeral(n / 10);
    } else {
      assert Numeral(n)[..0] == [];
    }
  }

  lemma {:induction false} DigitsConcat(a: string, b: string)
    ensures Digits(a + b) == Digits(a) * Pow10(|b|) + Digits(b)
  {
    if b == [] {
      assert a + b == a;
    } else {
      var n := |b| - 1;
      assert (a + b)[..|a + b| - 1] == a + b[..n];
      DigitsConcat(a, b[..n]);
    }
  }

  lemma FractionSum(n: int, a: int, b: int, p: int)
    requires p > 0 && n == a * p + b
    ensures n as real / p as real == a as real + b as real / p as real
  {
    assert n as real == a as real * p as real + b as real;
  }

  lemma TwoDigits(s: string, n: nat)
    requires n < 100 && |s| == 2
    requires s[0] as int == '0' as int + n / 10 && s[1] as int == '0' as int + n % 10
    ensures IsDigits(s) && Digits(s) == n && Pow10(|s|) == 100
  {
    assert s[..1] == [s[0]] && [s[0]][..0] == [];
    assert Digits([s[0]]) == n / 10;
    assert Pow10(1) == 10 * Pow10(0);
  }

  lemma DotBetween(s: string, whole: string, fraction: string)
    requires IsDigits(whole) && s == whole + "." + fraction
    ensures IndexOf(s, ".") == |whole| && s[|whole|] == '.'
    ensures s[..|whole|] == whole && s[|whole| + 1..] == fraction
  {
    var i := |whole|;
    FirstDot(s);
    assert s[i] == '.';
    assert forall k | 0 <= k < i :: s[k] == whole[k];
  }

  lemma MagnitudeOfBoth(s: string, whole: string, fraction: string)
    requires IsDigits(whole) && s == whole + "." + fraction
    ensures Magnitude(s) == Digits(whole + fraction) as real / Pow10(|fraction|) as real
  {
    DotBetween(s, whole, fraction);
    assert |s| - |whole| - 1 == |fraction|;
  }

  lemma WholeMagnitude(whole: string)
    requires IsDigits(whole)
    ensures Magnitude(whole) == Digits(whole) as real
  {
    FirstDot(whole);
  }

  lemma SplitDigits(whole: string, fraction: string)
    ensures Digits(whole + fraction) as real / Pow10(|fraction|) as real
         == Digits(whole) as real + Digits(fraction) as real / Pow10(|fraction|) as real
  {
    DigitsConcat(whole, fraction);
    var n, p := Digits(whole + fraction), Pow10(|fraction|);
    FractionSum(n, Digits(whole), Digits(fraction), p);
  }

  /** A whole number is worth its digits; behind the dot each digit is worth a tenth of the one before. */
  lemma MagnitudeExactly(whole: string, fraction: string)
    requires IsDigits(whole) && IsDigits(fraction)
    ensures Magnitude(whole) == Digits(whole) as real
    ensures Magnitude(whole + "." + fraction)
         == Digits(whole) as real + Digits(fraction) as real / Pow10(|fraction|) as real
  {
    WholeMagnitude(whole);
    MagnitudeOfBoth(whole + "." + fraction, whole, fraction);
    SplitDigits(whole, fraction);
  }

  lemma BothDigits(s: string, whole: string, fraction: string)
    requires IsDigits(whole) && IsDigits(fraction) && s == whole + "." + fraction
    ensures IsUnsigned(s)
  {
    DotBetween(s, whole, fraction);
  }

  lemma Hundredths(a: int, b: int)
    ensures a as real + b as real / 100 as real == a as real + b as real / 100.0
  {
  }

  /** So many units and hundredths owed. */
  lemma OwedWorth(units: nat, hundredths: nat, fraction: string)
    requires hundredths < 100
    requires fraction == ["0123456789"[hundredths / 10], "0123456789"[hundredths % 10]]
    ensures var s := "-" + Numeral(units) + "." + fraction;
            IsAmount(s) && Worth(s) == -(units as real + hundredths as real / 100.0)
  {
    var whole := Numeral(units);
    var u := whole + "." + fraction;
    DigitsOfNumeral(units);
    DigitValue(hundredths / 10);
    DigitValue(hundredths % 10);
    TwoDigits(fraction, hundredths);
    MagnitudeExactly(whole, fraction);
    BothDigits(u, whole, fraction);
    SignedWorth(u);
    Hundredths(units, hundredths);
    assert "-" + whole + "." + fraction == "-" + u;
  }
}
