/**
 * The parts of Python's string built-ins that the normaliser relies on:
 * `str.lower()`, `str.replace()` of one character, `int(str)` and the syntax
 * that `float(str)` accepts.  Only ASCII behaviour is modelled.
 */
module PyText {
  import opened Wrappers

  predicate IsDigit(c: char) { '0' <= c <= '9' }

  /** Zero or more ASCII decimal digits. */
  predicate AllDigits(s: string) { forall i | 0 <= i < |s| :: IsDigit(s[i]) }

  /** One or more ASCII decimal digits. */
  predicate IsDigits(s: string) { |s| > 0 && AllDigits(s) }

  predicate IsSign(c: char) { c == '+' || c == '-' }

  // ---------------------------------------------------------------- str.lower()

  function LowerChar(c: char): char
  {
    if 'A' <= c <= 'Z' then (c as int + 32) as char else c
  }

  /** `s.lower()` for ASCII letters; every other character is kept. */
  function Lower(s: string): (r: string)
    ensures |r| == |s|
    ensures forall i | 0 <= i < |s| :: r[i] == LowerChar(s[i])
  {
    if s == [] then [] else [LowerChar(s[0])] + Lower(s[1..])
  }

  /** The only strings that lower-case to "k" are "k" and "K". */
  lemma LowerIsK(s: string)
    ensures Lower(s) == "k" <==> s == "k" || s == "K"
  {
  }

  // ------------------------------------------------------- str.replace(a, b)

  /** `s.replace(a, b)` for single characters: every occurrence is replaced. */
  function ReplaceChar(s: string, a: char, b: char): (r: string)
    ensures |r| == |s|
    ensures forall i | 0 <= i < |s| :: r[i] == (if s[i] == a then b else s[i])
    ensures a != b ==> a !in r
  {
    if s == [] then [] else [if s[0] == a then b else s[0]] + ReplaceChar(s[1..], a, b)
  }

  /** Replacing a character that does not occur leaves the string as it is. */
  lemma {:induction false} ReplaceAbsent(s: string, a: char, b: char)
    requires a !in s
    ensures ReplaceChar(s, a, b) == s
  {
    if s != [] {
      ReplaceAbsent(s[1..], a, b);
    }
  }

  // ------------------------------------------------------------------ int(str)

  function DigitValue(c: char): (d: nat)
    requires IsDigit(c)
    ensures d < 10
  {
    c as int - '0' as int
  }

  function DigitChar(d: nat): (c: char)
    requires d < 10
    ensures IsDigit(c) && DigitValue(c) == d
  {
    ('0' as int + d) as char
  }

  /** The value of a string of decimal digits, most significant first. */
  function DigitsValue(s: string): nat
    requires AllDigits(s)
  {
    if s == [] then 0 else DigitsValue(s[..|s| - 1]) * 10 + DigitValue(s[|s| - 1])
  }

  /** An optional sign followed by one or more decimal digits. */
  predicate IsIntLiteral(s: string)
  {
    if |s| > 0 && IsSign(s[0]) then IsDigits(s[1..]) else IsDigits(s)
  }

  /**
   * `int(s)` for a string: `None` where Python raises ValueError.
   * Leading zeros are accepted, as `int('007') == 7`.
   */
  function ParseInt(s: string): (r: Option<int>)
    ensures r.Some? <==> IsIntLiteral(s)
    ensures r.Some? ==> |s| > 0 && s[0] != '-' ==> r.value >= 0
    ensures r.Some? ==> |s| > 0 && s[0] == '-' ==> r.value <= 0
  {
    if !IsIntLiteral(s) then None
    else if s[0] == '-' then Some(0 - DigitsValue(s[1..]) as int)
    else if s[0] == '+' then Some(DigitsValue(s[1..]))
    else Some(DigitsValue(s))
  }

  /** `str(n)` for a non-negative integer: digits without leading zeros. */
  function FormatNat(n: nat): (s: string)
    ensures IsDigits(s)
    ensures s[0] == '0' ==> n == 0
  {
    if n < 10 then [DigitChar(n)] else FormatNat(n / 10) + [DigitChar(n % 10)]
  }

  /** `str(n)` for an integer. */
  function FormatInt(n: int): (s: string)
    ensures IsIntLiteral(s)
  {
    if n < 0 then "-" + FormatNat(-n) else FormatNat(n)
  }

  lemma {:induction false} DigitsValueOfFormatNat(n: nat)
    ensures DigitsValue(FormatNat(n)) == n
  {
    if n >= 10 {
      DigitsValueOfFormatNat(n / 10);
      var s := FormatNat(n);
      assert s[..|s| - 1] == FormatNat(n / 10);
    }
  }

  /** `int(str(n)) == n`: every integer written by `str` is read back by `int`. */
  lemma ParseFormatInt(n: int)
    ensures ParseInt(FormatInt(n)) == Some(n)
  {
    var s := FormatInt(n);
    if n < 0 {
      var d := FormatNat(-n);
      DigitsValueOfFormatNat(-n);
      assert s == "-" + d && s[0] == '-' && s[1..] == d;
    } else {
      DigitsValueOfFormatNat(n);
      assert IsDigits(s) && IsDigit(s[0]);
    }
  }

  // ---------------------------------------------------------- float(str) syntax

  /** The first index of `c` in `s`, or `|s|` when there is none. */
  function IndexOf(s: string, c: char): (i: nat)
    ensures i <= |s|
    ensures i < |s| ==> s[i] == c
    ensures forall j | 0 <= j < i :: s[j] != c
  {
    if s == [] then 0 else if s[0] == c then 0 else 1 + IndexOf(s[1..], c)
  }

  /** Digits with at most one decimal point and at least one digit: "1", "1.", ".5", "1.5". */
  predicate IsMantissa(m: string)
  {
    var p := IndexOf(m, '.');
    if p == |m| then IsDigits(m)
    else AllDigits(m[..p]) && AllDigits(m[p + 1..]) && |m| > 1
  }

  /** A mantissa, optionally followed by `e` or `E` and a signed integer exponent. */
  predicate IsFiniteLiteral(u: string)
  {
    var x := IndexOf(Lower(u), 'e');
    IsMantissa(u[..x]) && (x == |u| || IsIntLiteral(u[x + 1..]))
  }

  /**
   * The strings `float(s)` accepts (without surrounding whitespace or
   * underscores): an optional sign, then a finite literal or, in any case,
   * "inf", "infinity" or "nan".  Where this is false Python raises ValueError.
   */
  predicate IsFloatLiteral(s: string)
    ensures IsFloatLiteral(s) ==> |s| > 0
  {
    var u := if |s| > 0 && IsSign(s[0]) then s[1..] else s;
    IsFiniteLiteral(u) || Lower(u) in ["inf", "infinity", "nan"]
  }

  lemma LowerOfDigitsAndPoint(s: string)
    requires forall i | 0 <= i < |s| :: IsDigit(s[i]) || s[i] == '.'
    ensures Lower(s) == s
  {
  }

  /**
   * A decimal written with a comma, as the registry writes it, becomes after
   * `replace(',', '.')` a literal that `float()` accepts.
   */
  lemma DecimalCommaAccepted(a: string, b: string)
    requires IsDigits(a) && IsDigits(b)
    ensures ReplaceChar(a + "," + b, ',', '.') == a + "." + b
    ensures IsFloatLiteral(a + "." + b)
  {
    ReplaceAroundComma(a, b);
    PointDecimalIsFloat(a, b);
  }

  /** Digits, a point and digits make a finite float literal with no sign and no exponent. */
  lemma PointDecimalIsFloat(a: string, b: string)
    requires IsDigits(a) && IsDigits(b)
    ensures IsFloatLiteral(a + "." + b)
  {
    var t := a + "." + b;
    assert forall i | 0 <= i < |t| :: IsDigit(t[i]) || t[i] == '.';
    PointDecimalIsMantissa(a, b);
    LowerOfDigitsAndPoint(t);
    NoExponent(t);
    assert t[..|t|] == t;
    assert t[0] == a[0];
  }

  /** A text of digits and points has no exponent marker. */
  lemma NoExponent(t: string)
    requires forall i | 0 <= i < |t| :: IsDigit(t[i]) || t[i] == '.'
    ensures IndexOf(t, 'e') == |t|
  {
  }

  /** The one comma between two comma-free texts is the only character the replacement changes. */
  lemma ReplaceAroundComma(a: string, b: string)
    requires ',' !in a && ',' !in b
    ensures ReplaceChar(a + "," + b, ',', '.') == a + "." + b
  {
    var s := a + "," + b;
    assert forall i | 0 <= i < |s| :: ReplaceChar(s, ',', '.')[i] == (a + "." + b)[i];
  }

  lemma PointDecimalIsMantissa(a: string, b: string)
    requires IsDigits(a) && IsDigits(b)
    ensures IsMantissa(a + "." + b)
  {
  }

  /** Neither `int()` nor `float()` accepts an empty text or one that starts with `e`. */
  lemma LetterFirstIsNotNumber(s: string)
    requires s == [] || s[0] == 'e'
    ensures ParseInt(s) == None && !IsFloatLiteral(s)
  {
  }
}
