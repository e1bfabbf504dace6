/** Decimal text of integers as `printf`'s `%lld` writes it: an optional
    minus sign followed by the digits, without leading zeros. */
module Decimal {
  import opened Wrappers

  predicate IsDigit(c: char) {
    '0' <= c <= '9'
  }

  predicate AllDigits(s: string) {
    forall k :: 0 <= k < |s| ==> IsDigit(s[k])
  }

  /** A non-empty digit run with no superfluous leading zero. */
  predicate Canonical(s: string) {
    |s| >= 1 && AllDigits(s) && (s[0] == '0' ==> |s| == 1)
  }

  function Digit(d: nat): (c: char)
    requires d < 10
    ensures IsDigit(c)
  {
    (48 + d) as char
  }

  function DigitValue(c: char): (d: nat)
    requires IsDigit(c)
    ensures d < 10
    ensures Digit(d) == c
  {
    c as int - 48
  }

  function Pow10(k: nat): (p: nat)
    ensures p >= 1
  {
    if k == 0 then 1 else 10 * Pow10(k - 1)
  }

  lemma Pow10Nineteen()
    ensures Pow10(19) == 10_000_000_000_000_000_000
  {
    assert Pow10(4) == 10_000;
    assert Pow10(8) == 100_000_000;
    assert Pow10(12) == 1_000_000_000_000;
    assert Pow10(16) == 10_000_000_000_000_000;
  }

  /** The digits of `n`, most significant first. */
  function FormatNat(n: nat): (s: string)
    ensures Canonical(s)
    ensures s[0] == '0' <==> n == 0
    decreases n
  {
    if n < 10 then [Digit(n)] else FormatNat(n / 10) + [Digit(n % 10)]
  }

  /** The number a digit run denotes. */
  function ValueOf(s: string): nat
    requires AllDigits(s)
    decreases |s|
  {
    if |s| == 0 then 0
    else ValueOf(s[..|s| - 1]) * 10 + DigitValue(s[|s| - 1])
  }

  /** Reading the digits of `n` gives `n` back. */
  lemma {:induction false} ValueOfFormat(n: nat)
    ensures ValueOf(FormatNat(n)) == n
    decreases n
  {
    if n >= 10 {
      var s := FormatNat(n);
      ValueOfFormat(n / 10);
      assert s[..|s| - 1] == FormatNat(n / 10);
    }
  }

  /** A digit run whose first digit is not zero denotes at least
      `Pow10(|s| - 1)`. */
  lemma {:induction false} ValueOfLeading(s: string)
    requires |s| >= 1 && AllDigits(s) && s[0] != '0'
    ensures ValueOf(s) >= Pow10(|s| - 1)
    decreases |s|
  {
    if |s| > 1 {
      var front := s[..|s| - 1];
      ValueOfLeading(front);
    }
  }

  /** Appending digit `d` to the digits of `a` divides back exactly. */
  lemma AppendDigit(a: nat, d: nat)
    requires d < 10
    ensures (a * 10 + d) / 10 == a && (a * 10 + d) % 10 == d
  {
  }

  /** Writing the number a canonical digit run denotes gives the run back. */
  lemma {:induction false} FormatValueOf(s: string)
    requires Canonical(s)
    ensures FormatNat(ValueOf(s)) == s
    decreases |s|
  {
    if |s| == 1 {
      assert s == [s[0]];
    } else {
      var front := s[..|s| - 1];
      var d := DigitValue(s[|s| - 1]);
      FormatValueOf(front);
      ValueOfLeading(front);
      var v := ValueOf(s);
      assert v == ValueOf(front) * 10 + d;
      AppendDigit(ValueOf(front), d);
      assert FormatNat(v) == FormatNat(ValueOf(front)) + [Digit(d)];
      assert s == front + [s[|s| - 1]];
    }
  }

  /** A number below `Pow10(k)` has at most `k` digits. */
  lemma {:induction false} FormatNatLength(n: nat, k: nat)
    requires 1 <= k && n < Pow10(k)
    ensures |FormatNat(n)| <= k
    decreases n
  {
    if n >= 10 {
      FormatNatLength(n / 10, k - 1);
    }
  }

  /** The text `%lld` writes for `x`. */
  function FormatInt(x: int): (s: string)
    ensures |s| >= 1 && ' ' !in s
  {
    if x < 0 then "-" + FormatNat(-x) else FormatNat(x)
  }

  /** The integer a `%lld` text denotes; `None` for any other text. */
  function ParseInt(s: string): Option<int> {
    if |s| >= 2 && s[0] == '-' && Canonical(s[1..]) && s[1] != '0' then Some(0 - ValueOf(s[1..]))
    else if Canonical(s) then Some(ValueOf(s))
    else None
  }

  /** Parsing the text of `x` gives `x`. */
  lemma ParseFormatInt(x: int)
    ensures ParseInt(FormatInt(x)) == Some(x)
  {
    var s := FormatInt(x);
    if x < 0 {
      var t := FormatNat(-x);
      assert s[0] == '-' && s[1..] == t;
      assert Canonical(t) && t[0] != '0';
      ValueOfFormat(-x);
      assert ParseInt(s) == Some(0 - ValueOf(t));
    } else {
      ValueOfFormat(x);
    }
  }

  /** A text that parses is the text of the number it denotes. */
  lemma FormatParseInt(s: string)
    requires ParseInt(s).Some?
    ensures FormatInt(ParseInt(s).value) == s
  {
    if |s| >= 2 && s[0] == '-' && Canonical(s[1..]) && s[1] != '0' {
      assert ParseInt(s) == Some(0 - ValueOf(s[1..]));
      FormatNegative(s);
    } else {
      FormatValueOf(s);
    }
  }

  /** A minus sign before digits without a leading zero is the text of
      the negated number. */
  lemma FormatNegative(s: string)
    requires |s| >= 2 && s[0] == '-' && Canonical(s[1..]) && s[1] != '0'
    ensures FormatInt(0 - ValueOf(s[1..])) == s
  {
    var t := s[1..];
    FormatValueOf(t);
    ValueOfLeading(t);
    assert s == "-" + t;
  }

  const Int64Min: int := -0x8000_0000_0000_0000
  const Int64Max: int := 0x7fff_ffff_ffff_ffff

  /** The values a `long long` holds. */
  predicate InInt64(x: int) {
    Int64Min <= x <= Int64Max
  }

  /** A 64-bit signed integer takes at most 20 characters: a sign and 19
      digits. */
  lemma FormatIntLength(x: int)
    requires InInt64(x)
    ensures |FormatInt(x)| <= 20
  {
    Pow10Nineteen();
    if x < 0 {
      FormatNatLength(-x, 19);
    } else {
      FormatNatLength(x, 19);
    }
  }
}
