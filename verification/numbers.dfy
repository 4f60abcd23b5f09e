/** Number recognition and rounding used by filtering and aggregation.

    Python's `float(text)` is modelled on the ASCII decimal subset of its
    grammar: an optional sign, then digits `0`-`9` with an optional fractional
    part, at least one digit in all (`"100"`, `"-7.5"`, `".5"`, `"5."`).  The value is the exact
    rational the text denotes.  `round(x, 2)` is modelled as exact rounding of
    a real to the nearest hundredth, ties to the even hundredth. */
module Numbers {
  import opened Wrappers
  import Strings

  predicate IsDigit(c: char) {
    '0' <= c <= '9'
  }

  predicate AllDigits(s: string) {
    forall i :: 0 <= i < |s| ==> IsDigit(s[i])
  }

  /** The characters a recognised number may contain. */
  predicate IsNumeral(c: char) {
    IsDigit(c) || c == '.' || c == '+' || c == '-'
  }

  function DigitValue(c: char): (d: nat)
    requires IsDigit(c)
    ensures d < 10
  {
    c as int - '0' as int
  }

  function DigitChar(d: nat): (c: char)
    requires d < 10
    ensures IsDigit(c) && DigitValue(c) == d
  {
    ('0' as int + d) as char
  }

  function Pow10(k: nat): (p: nat)
    ensures p > 0
  {
    if k == 0 then 1 else 10 * Pow10(k - 1)
  }

  /** The value of a digit string read in base ten (most significant first). */
  function DigitsValue(ds: string): (n: nat)
    requires AllDigits(ds)
    ensures n < Pow10(|ds|)
  {
    if |ds| == 0 then 0
    else DigitsValue(ds[..|ds| - 1]) * 10 + DigitValue(ds[|ds| - 1])
  }

  /** The sign flag and the unsigned rest of a numeral. */
  function SplitSign(s: string): (bool, string)
  {
    if |s| > 0 && (s[0] == '-' || s[0] == '+') then (s[0] == '-', s[1..]) else (false, s)
  }

  predicate IsPoint(c: char) {
    c == '.'
  }

  /** The digits before and after the first `.` (no `.` means no fraction). */
  function SplitPoint(body: string): (string, string)
  {
    match Strings.FindFirst(body, IsPoint)
    case None => (body, "")
    case Some(k) => (body[..k], body[k + 1..])
  }

  /** `float(s)` restricted to decimal numerals: `None` where Python raises ValueError. */
  function ParseNum(s: string): Option<real>
  {
    var (negative, body) := SplitSign(s);
    var (whole, frac) := SplitPoint(body);
    if AllDigits(whole) && AllDigits(frac) && |whole| + |frac| > 0 then
      var magnitude := DigitsValue(whole) as real + DigitsValue(frac) as real / Pow10(|frac|) as real;
      Some(if negative then -magnitude else magnitude)
    else
      None
  }

  /** The sign written in front of a numeral, if any. */
  datatype Sign = Unsigned | Plus | Minus

  /** A decimal numeral as written: its sign, its whole digits and, when a point
      is written, the digits after it. */
  datatype Numeral = Numeral(sign: Sign, whole: string, point: bool, frac: string)

  /** Digits only, at least one digit in all, and no fraction without a point. */
  predicate WellFormed(n: Numeral) {
    && AllDigits(n.whole) && AllDigits(n.frac)
    && |n.whole| + |n.frac| > 0
    && (!n.point ==> n.frac == "")
  }

  function SignText(sign: Sign): string {
    match sign
    case Unsigned => ""
    case Plus => "+"
    case Minus => "-"
  }

  function NumeralText(n: Numeral): string {
    SignText(n.sign) + n.whole + (if n.point then "." + n.frac else "")
  }

  /** The value a numeral denotes: all its digits read as one integer, scaled
      down by one power of ten per fractional digit (`19.99` is 1999/100). */
  function NumeralValue(n: Numeral): real
    requires WellFormed(n)
  {
    var magnitude := DigitsValue(n.whole + n.frac) as real / Pow10(|n.frac|) as real;
    if n.sign == Minus then -magnitude else magnitude
  }

  /** Reading the digits of `a + b` is reading `a`, shifting by `|b|` places and adding `b`. */
  lemma {:induction false} DigitsValueConcat(a: string, b: string)
    requires AllDigits(a) && AllDigits(b)
    ensures AllDigits(a + b)
    ensures DigitsValue(a + b) == DigitsValue(a) * Pow10(|b|) + DigitsValue(b)
    decreases |b|
  {
    if |b| > 0 {
      var b' := b[..|b| - 1];
      var d := DigitValue(b[|b| - 1]);
      assert (a + b)[..|a + b| - 1] == a + b';
      assert (a + b)[|a + b| - 1] == b[|b| - 1];
      DigitsValueConcat(a, b');
      assert DigitsValue(a + b) == DigitsValue(a + b') * 10 + d;
      assert DigitsValue(b) == DigitsValue(b') * 10 + d;
      assert Pow10(|b|) == Pow10(|b'|) * 10;
      Regroup(DigitsValue(a), Pow10(|b'|), DigitsValue(b'), d);
    } else {
      assert a + b == a;
    }
  }

  lemma Regroup(x: int, p: int, y: int, d: int)
    ensures (x * p + y) * 10 + d == x * (p * 10) + (y * 10 + d)
  {
  }

  lemma CastProduct(a: nat, b: nat)
    ensures (a * b) as real == a as real * b as real
  {
  }

  lemma ShiftedQuotient(w: real, f: real, p: real)
    requires p > 0.0
    ensures (w * p + f) / p == w + f / p
  {
  }

  /** The text after the sign of a numeral. */
  function Body(n: Numeral): string {
    n.whole + (if n.point then "." + n.frac else "")
  }

  lemma SignOfNumeral(n: Numeral)
    requires WellFormed(n)
    ensures SplitSign(NumeralText(n)) == (n.sign == Minus, Body(n))
  {
    var body := Body(n);
    var s := NumeralText(n);
    assert s == SignText(n.sign) + body;
    if n.sign == Unsigned {
      assert s == body;
      if |n.whole| > 0 {
        assert body[0] == n.whole[0] && IsDigit(n.whole[0]);
      } else {
        assert body[0] == '.';
      }
    } else {
      assert s[1..] == body;
    }
  }

  lemma PointOfNumeral(n: Numeral)
    requires WellFormed(n)
    ensures SplitPoint(Body(n)) == (n.whole, n.frac)
  {
    var body := Body(n);
    if n.point {
      var k := |n.whole|;
      assert body[k] == '.' && body[..k] == n.whole && body[k + 1..] == n.frac;
      forall j | 0 <= j < k ensures !IsPoint(body[j]) {
        assert body[j] == n.whole[j] && IsDigit(n.whole[j]);
      }
      assert Strings.FindFirst(body, IsPoint) == Some(k);
    } else {
      assert body == n.whole;
      forall j | 0 <= j < |body| ensures !IsPoint(body[j]) {
        assert IsDigit(n.whole[j]);
      }
    }
  }

  lemma MagnitudeOfNumeral(n: Numeral)
    requires WellFormed(n)
    ensures DigitsValue(n.whole) as real + DigitsValue(n.frac) as real / Pow10(|n.frac|) as real
            == DigitsValue(n.whole + n.frac) as real / Pow10(|n.frac|) as real
  {
    DigitsValueConcat(n.whole, n.frac);
    ShiftedSum(DigitsValue(n.whole), DigitsValue(n.frac), Pow10(|n.frac|), DigitsValue(n.whole + n.frac));
  }

  lemma ShiftedSum(w: nat, f: nat, p: nat, total: nat)
    requires p > 0 && total == w * p + f
    ensures w as real + f as real / p as real == total as real / p as real
  {
    CastProduct(w, p);
    ShiftedQuotient(w as real, f as real, p as real);
  }

  /** Every well-formed numeral reads back as the value it denotes: with or
      without sign, with or without fractional digits. */
  lemma ParseNumeral(n: Numeral)
    requires WellFormed(n)
    ensures ParseNum(NumeralText(n)) == Some(NumeralValue(n))
  {
    SignOfNumeral(n);
    PointOfNumeral(n);
    MagnitudeOfNumeral(n);
  }

  /** The sign written at the front of `s`. */
  function LeadingSign(s: string): Sign {
    if |s| > 0 && s[0] == '-' then Minus
    else if |s| > 0 && s[0] == '+' then Plus
    else Unsigned
  }

  lemma SignPrefix(s: string)
    ensures s == SignText(LeadingSign(s)) + SplitSign(s).1
    ensures SplitSign(s).0 <==> LeadingSign(s) == Minus
  {
    if LeadingSign(s) != Unsigned {
      assert s == [s[0]] + s[1..];
    }
  }

  lemma PointPrefix(body: string)
    ensures Strings.FindFirst(body, IsPoint).None? ==> SplitPoint(body).1 == ""
    ensures body == SplitPoint(body).0
                    + (if Strings.FindFirst(body, IsPoint).Some? then "." + SplitPoint(body).1 else "")
  {
    match Strings.FindFirst(body, IsPoint)
    case None =>
    case Some(k) =>
      assert body == body[..k] + ("." + body[k + 1..]);
  }

  /** Conversely, text reads as a number only when it is the text of a well-formed
      numeral, and then it reads as that numeral's value. */
  lemma ParseNumReadsNumeral(s: string)
    requires ParseNum(s).Some?
    ensures exists n :: WellFormed(n) && NumeralText(n) == s && ParseNum(s) == Some(NumeralValue(n))
  {
    var n := ReadNumeral(s);
    ReadNumeralSpells(s);
    ReadNumeralWellFormed(s);
    ParseNumeral(n);
  }

  /** The numeral that `s` spells, read off by the same sign and point split the
      parser makes. */
  function ReadNumeral(s: string): Numeral {
    var body := SplitSign(s).1;
    Numeral(LeadingSign(s), SplitPoint(body).0, Strings.FindFirst(body, IsPoint).Some?, SplitPoint(body).1)
  }

  lemma ReadNumeralSpells(s: string)
    ensures NumeralText(ReadNumeral(s)) == s
  {
    SignPrefix(s);
    PointPrefix(SplitSign(s).1);
  }

  lemma ReadNumeralWellFormed(s: string)
    requires ParseNum(s).Some?
    ensures WellFormed(ReadNumeral(s))
  {
    PointPrefix(SplitSign(s).1);
  }

  /** The canonical decimal spelling of a natural number. */
  function NatToString(n: nat): (s: string)
    ensures |s| > 0 && AllDigits(s)
  {
    if n < 10 then [DigitChar(n)] else NatToString(n / 10) + [DigitChar(n % 10)]
  }

  lemma {:induction false} DigitsOfNat(n: nat)
    ensures DigitsValue(NatToString(n)) == n
  {
    if n >= 10 {
      var s := NatToString(n);
      DigitsOfNat(n / 10);
      assert s[..|s| - 1] == NatToString(n / 10);
    }
  }

  /** Around the first `.`, digit-only pieces leave only digits and that `.`. */
  lemma SplitPointChars(body: string)
    requires AllDigits(SplitPoint(body).0) && AllDigits(SplitPoint(body).1)
    ensures forall i :: 0 <= i < |body| ==> IsDigit(body[i]) || body[i] == '.'
    ensures |SplitPoint(body).0| + |SplitPoint(body).1| > 0 ==> exists i :: 0 <= i < |body| && IsDigit(body[i])
  {
    var whole := SplitPoint(body).0;
    var frac := SplitPoint(body).1;
    match Strings.FindFirst(body, IsPoint)
    case None =>
      assert whole == body;
    case Some(k) =>
      assert body == whole + ['.'] + frac;
      if |whole| > 0 {
        assert IsDigit(body[0]);
      } else if |frac| > 0 {
        assert IsDigit(body[k + 1]);
      }
  }

  /** Text that parses as a number consists of numeral characters and holds a digit:
      a product name such as `Apple` never does. */
  lemma ParseNumOnlyNumerals(s: string)
    requires ParseNum(s).Some?
    ensures forall i :: 0 <= i < |s| ==> IsNumeral(s[i])
    ensures exists i :: 0 <= i < |s| && IsDigit(s[i])
  {
    var body := SplitSign(s).1;
    SplitPointChars(body);
    var i :| 0 <= i < |body| && IsDigit(body[i]);
    if body == s {
      assert IsDigit(s[i]);
    } else {
      assert s == [s[0]] + body;
      assert IsDigit(s[i + 1]);
    }
  }

  /** The spelling of a natural number, optionally preceded by `-`, parses back to it. */
  lemma ParseNumOfNat(n: nat)
    ensures ParseNum(NatToString(n)) == Some(n as real)
    ensures ParseNum("-" + NatToString(n)) == Some(-(n as real))
  {
    var s := NatToString(n);
    DigitsOfNat(n);
    assert SplitPoint(s) == (s, "");
    assert SplitSign(s) == (false, s);
    assert SplitSign("-" + s) == (true, s) by {
      assert ("-" + s)[1..] == s;
    }
  }

  function Abs(x: real): real {
    if x < 0.0 then -x else x
  }

  /** The whole number of hundredths nearest to `x`; at a tie, the even one. */
  function RoundedHundredths(x: real): int
  {
    var scaled := x * 100.0;
    var f := scaled.Floor;
    var rest := scaled - f as real;
    if rest < 0.5 then f
    else if rest > 0.5 then f + 1
    else if f % 2 == 0 then f
    else f + 1
  }

  /** `x` rounded to two decimal places, ties to the even hundredth. */
  function Round2(x: real): (r: real)
    ensures (r * 100.0).Floor as real == r * 100.0
    ensures x - 0.005 <= r <= x + 0.005
  {
    var n := RoundedHundredths(x);
    HundredthsNear(x);
    assert (n as real / 100.0) * 100.0 == n as real;
    assert (n as real).Floor == n;
    n as real / 100.0
  }

  lemma HundredthsNear(x: real)
    ensures x * 100.0 - 0.5 <= RoundedHundredths(x) as real <= x * 100.0 + 0.5
  {
  }

  /** In hundredths: the chosen integer is at least as close to `scaled` as any other. */
  lemma NearestInteger(scaled: real, n: int, k: int)
    requires var f := scaled.Floor;
             var rest := scaled - f as real;
             (rest < 0.5 ==> n == f) && (rest > 0.5 ==> n == f + 1) && (rest == 0.5 ==> n == f || n == f + 1)
    ensures Abs(scaled - n as real) <= Abs(scaled - k as real)
  {
    var f := scaled.Floor;
    assert f as real <= scaled < f as real + 1.0;
    if k <= f {
      assert scaled - k as real >= scaled - f as real;
    } else {
      assert k as real - scaled >= f as real + 1.0 - scaled;
    }
  }

  /** `Round2(x)` is a hundredth nearest to `x`: no hundredth is closer. */
  lemma Round2Nearest(x: real, k: int)
    ensures Abs(x - Round2(x)) <= Abs(x - k as real / 100.0)
  {
    var n := RoundedHundredths(x);
    NearestInteger(x * 100.0, n, k);
    ScaleDistance(x, n);
    ScaleDistance(x, k);
  }

  lemma ScaleDistance(x: real, n: int)
    ensures Abs(x - n as real / 100.0) == Abs(x * 100.0 - n as real) / 100.0
  {
  }

  /** A tie between two hundredths goes to the even one. */
  lemma Round2TiesToEven(x: real)
    requires x * 100.0 - (x * 100.0).Floor as real == 0.5
    ensures RoundedHundredths(x) % 2 == 0
    ensures Abs(x - Round2(x)) == 0.005
  {
    ScaleDistance(x, RoundedHundredths(x));
  }

  /** A value that already is a whole number of hundredths is left unchanged. */
  lemma Round2OfHundredths(k: int)
    ensures Round2(k as real / 100.0) == k as real / 100.0
  {
    assert (k as real / 100.0) * 100.0 == k as real;
  }
}
