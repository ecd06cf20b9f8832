/** The textual form of an amount. Amounts travel inside a transaction
    string: the sender prints them with `std::to_string(double)` and the
    server reads them back with `istringstream >> double`. Both are modelled
    on exact reals: printing keeps six decimals, reading accepts the usual
    decimal notation and ignores whatever follows the number. */
module Amounts {
  import opened Common
  import opened Decimal

  /** `std::to_string(double)` prints like printf's "%f": six decimals. */
  const Decimals: nat := 6
  const Scale6: nat := 1000000

  function Abs(v: real): (a: real)
    ensures a >= 0.0 && (a == v || a == -v)
  {
    if v < 0.0 then -v else v
  }

  /** |v| counted in millionths, rounded to the nearest millionth (ties upward). */
  function Micros(v: real): (n: nat)
    ensures n as real - 0.5 <= Abs(v) * 1000000.0 < n as real + 0.5
  {
    var x := Abs(v) * 1000000.0 + 0.5;
    assert x.Floor as real > x - 1.0;
    x.Floor
  }

  /** The amount the six-decimal text of `v` denotes: `v` rounded to millionths.
      It is within half a millionth of `v`, keeps the sign of `v`, and equals
      `v` when `v` is already a whole number of millionths. */
  function Rounded(v: real): (r: real)
    ensures -0.0000005 <= r - v <= 0.0000005
    ensures r < 0.0 ==> v < 0.0
    ensures v < 0.0 ==> r <= 0.0
  {
    var n := Micros(v);
    var m := n as real / 1000000.0;
    assert n as real - 0.5 <= Abs(v) * 1000000.0 < n as real + 0.5;
    assert m - 0.0000005 <= Abs(v) < m + 0.0000005;
    if v < 0.0 then -m else m
  }

  /** A whole number of millionths is printed exactly. */
  lemma RoundedExact(v: real, k: int)
    requires v * 1000000.0 == k as real
    ensures Rounded(v) == v
  {
    var n := Micros(v);
    var a := if v < 0.0 then -k else k;
    assert Abs(v) * 1000000.0 == a as real;
    assert n as real - 0.5 <= a as real < n as real + 0.5;
    assert n == a;
  }

  /** `std::to_string(double)`: an optional '-' for a negative value, the
      integer part in decimal, a point, and exactly six fraction digits. */
  function FormatAmount(v: real): (s: string)
    ensures |s| > 0 && (s[0] == '-' <==> v < 0.0)
    ensures forall i :: 0 < i < |s| ==> s[i] != '-'
    ensures IsDigit(s[|s| - 1])
  {
    var digits := FixedPoint(Micros(v));
    if v < 0.0 then "-" + digits else digits
  }

  /** n millionths written with six decimals: integer part, point, fraction. */
  function FixedPoint(n: nat): (s: string)
    ensures |s| > 0 && IsDigit(s[0]) && IsDigit(s[|s| - 1])
    ensures forall i :: 0 <= i < |s| ==> s[i] != '-'
  {
    assert Pow10(Decimals) == Scale6;
    NatToString(n / Scale6) + "." + PadDigits(n % Scale6, Decimals)
  }

  /** The characters `isspace` accepts in the "C" locale. */
  predicate IsSpace(c: char) {
    c == ' ' || 9 <= c as int <= 13
  }

  /** The input left after the leading whitespace a formatted read skips. */
  function SkipSpace(s: string): (t: string)
    ensures |t| <= |s| && t == s[|s| - |t|..]
    ensures |t| == 0 || !IsSpace(t[0])
  {
    if |s| > 0 && IsSpace(s[0]) then SkipSpace(s[1..]) else s
  }

  /** The length of the run of digits at the front of `s`. */
  function DigitRun(s: string): (k: nat)
    ensures k <= |s| && AllDigits(s[..k])
    ensures k == |s| || !IsDigit(s[k])
  {
    if |s| > 0 && IsDigit(s[0]) then
      var n := 1 + DigitRun(s[1..]);
      assert s[..n] == [s[0]] + s[1..][..n - 1];
      n
    else 0
  }

  /** The exponent part `[eE][+-]?digits` at the front of `rest`: 0 when
      there is none, None when an `e` is not followed by digits (the
      reader collects the `e` and then rejects the whole token). */
  function Exponent(rest: string): Option<int>
  {
    if |rest| == 0 || (rest[0] != 'e' && rest[0] != 'E') then Some(0)
    else
      var u := rest[1..];
      var negative := |u| > 0 && u[0] == '-';
      var w := if |u| > 0 && (u[0] == '+' || u[0] == '-') then u[1..] else u;
      var k := DigitRun(w);
      if k == 0 then None
      else
        var e: int := Value(w[..k]);
        Some(if negative then -e else e)
  }

  /** The number written with integer digits `whole` and fraction digits `fraction`. */
  function Magnitude(whole: string, fraction: string): (m: real)
    requires AllDigits(whole) && AllDigits(fraction)
    ensures m >= 0.0
  {
    Value(whole) as real + Value(fraction) as real / Pow10(|fraction|) as real
  }

  /** m times ten to the power e. */
  function TimesPow10(m: real, e: int): (r: real)
    ensures m >= 0.0 ==> r >= 0.0
  {
    if e >= 0 then m * Pow10(e) as real else m / Pow10(-e) as real
  }

  /** The number part after the exponent has been applied, or None when
      the exponent is malformed. */
  function WithExponent(m: real, rest: string): Option<real>
  {
    match Exponent(rest)
    case None => None
    case Some(e) => Some(TimesPow10(m, e))
  }

  /** An unsigned number: integer digits, an optional point followed by
      fraction digits, at least one digit in all, then the exponent. */
  function ParseUnsigned(u: string): (r: Option<real>)
    ensures r.Some? ==> r.value >= 0.0
  {
    var i := DigitRun(u);
    if i < |u| && u[i] == '.' then
      var f := DigitRun(u[i + 1..]);
      if i + f == 0 then None
      else WithExponent(Magnitude(u[..i], u[i + 1..][..f]), u[i + 1..][f..])
    else if i == 0 then None
    else WithExponent(Magnitude(u[..i], ""), u[i..])
  }

  /** `istringstream >> double`: skip whitespace, read an optional sign and
      an unsigned number. Text after the number is left unread and does not
      make the read fail. */
  function ParseAmount(s: string): (r: Option<real>)
  {
    var t := SkipSpace(s);
    if |t| > 0 && t[0] == '-' then
      match ParseUnsigned(t[1..])
      case None => None
      case Some(m) => Some(-m)
    else if |t| > 0 && t[0] == '+' then ParseUnsigned(t[1..])
    else ParseUnsigned(t)
  }

  lemma {:induction false} DigitRunOfDigits(a: string, b: string)
    requires AllDigits(a)
    requires |b| == 0 || !IsDigit(b[0])
    ensures DigitRun(a + b) == |a|
    decreases |a|
  {
    if |a| > 0 {
      assert (a + b)[1..] == a[1..] + b;
      DigitRunOfDigits(a[1..], b);
    } else {
      assert a + b == b;
    }
  }

  /** Digits, a point and digits read back as the number they spell. */
  lemma ParseFixedPoint(w: string, frac: string)
    requires |w| > 0 && AllDigits(w) && AllDigits(frac)
    ensures ParseUnsigned(w + "." + frac) == Some(Magnitude(w, frac))
  {
    var u := w + "." + frac;
    assert u == w + ("." + frac);
    DigitRunOfDigits(w, "." + frac);
    var i := |w|;
    assert u[i] == '.';
    assert u[i + 1..] == frac;
    DigitRunOfDigits(frac, "");
    assert frac + "" == frac;
    assert u[i + 1..][..|frac|] == frac;
    assert u[i + 1..][|frac|..] == "";
    assert u[..i] == w;
    assert Exponent("") == Some(0);
  }

  /** A number that starts with a digit reads as the unsigned number it spells. */
  lemma ParsePlain(u: string, x: real)
    requires |u| > 0 && IsDigit(u[0])
    requires ParseUnsigned(u) == Some(x)
    ensures ParseAmount(u) == Some(x)
  {
  }

  /** ... and as its opposite after a '-'. */
  lemma ParseNegated(u: string, x: real)
    requires |u| > 0 && IsDigit(u[0])
    requires ParseUnsigned(u) == Some(x)
    ensures ParseAmount("-" + u) == Some(-x)
  {
    var t := "-" + u;
    assert SkipSpace(t) == t;
    assert t[1..] == u;
  }

  /** The six-decimal text of n millionths reads back as n millionths. */
  lemma ParseFixedPointText(n: nat)
    ensures ParseUnsigned(FixedPoint(n)) == Some(n as real / 1000000.0)
  {
    assert Pow10(Decimals) == Scale6;
    var q, r := n / Scale6, n % Scale6;
    ParseFixedPoint(NatToString(q), PadDigits(r, Decimals));
    assert n == q * 1000000 + r;
    assert q as real + r as real / 1000000.0 == n as real / 1000000.0;
  }

  /** The text `FormatAmount` builds from a sign and a count of millionths
      reads back as that signed count of millionths. */
  lemma ParseSignedFixedPoint(n: nat, negative: bool)
    ensures ParseAmount(if negative then "-" + FixedPoint(n) else FixedPoint(n))
         == Some(if negative then -(n as real / 1000000.0) else n as real / 1000000.0)
  {
    ParseFixedPointText(n);
    if negative {
      ParseNegated(FixedPoint(n), n as real / 1000000.0);
    } else {
      ParsePlain(FixedPoint(n), n as real / 1000000.0);
    }
  }

  /** Reading back what `FormatAmount` printed yields the amount rounded to
      millionths: the two are inverse up to that rounding. */
  lemma ParseFormatted(v: real)
    ensures ParseAmount(FormatAmount(v)) == Some(Rounded(v))
  {
    var n := Micros(v);
    ParseSignedFixedPoint(n, v < 0.0);
    assert FormatAmount(v) == if v < 0.0 then "-" + FixedPoint(n) else FixedPoint(n);
    assert Rounded(v) == if v < 0.0 then -(n as real / 1000000.0) else n as real / 1000000.0;
  }

  /** A number whose text has no '-' is never negative: a minus sign is the
      only way the reader produces a negative value. */
  lemma HyphenFreeIsNonNegative(s: string)
    requires forall i :: 0 <= i < |s| ==> s[i] != '-'
    ensures ParseAmount(s).Some? ==> ParseAmount(s).value >= 0.0
  {
  }
}
