/** Decimal rendering and parsing of numbers as the JavaScript runtime does it
    for the values this component handles: `Number.prototype.toString` on a
    positive integer, `toFixed(2)`, `Math.round`, `parseInt` and
    `parseFloat`. A JavaScript number is modelled by its exact value as a
    `real`; rounding is done on that exact value, as the standard requires. */
module Decimal {
  import opened Wrappers

  predicate IsDigit(c: char) {
    '0' <= c <= '9'
  }

  predicate AllDigits(s: string) {
    forall i :: 0 <= i < |s| ==> IsDigit(s[i])
  }

  function DigitValue(c: char): (d: nat)
    requires IsDigit(c)
    ensures d < 10
  {
    c as int - '0' as int
  }

  function DigitChar(d: nat): (c: char)
    requires d < 10
    ensures IsDigit(c) && DigitValue(c) == d
  {
    ('0' as int + d) as char
  }

  /** The decimal digits of `n` without leading zeros: the string
      `Number.prototype.toString` gives for a non-negative integer below
      10^21. */
  function NatToDecimal(n: nat): (s: string)
    ensures |s| >= 1 && AllDigits(s)
    ensures s[0] == '0' ==> n == 0 && s == "0"
  {
    if n < 10 then [DigitChar(n)] else NatToDecimal(n / 10) + [DigitChar(n % 10)]
  }

  /** The number a string of decimal digits denotes. */
  function DigitsValue(s: string): nat
    requires AllDigits(s)
  {
    if s == [] then 0 else DigitsValue(s[..|s| - 1]) * 10 + DigitValue(s[|s| - 1])
  }

  /** Reading back the digits `NatToDecimal` writes gives the number. */
  lemma {:induction false} DigitsValueOfDecimal(n: nat)
    ensures DigitsValue(NatToDecimal(n)) == n
  {
    if n >= 10 {
      var s := NatToDecimal(n);
      assert s[..|s| - 1] == NatToDecimal(n / 10);
      DigitsValueOfDecimal(n / 10);
    }
  }

  /** Writing a number in decimal is injective. */
  lemma NatToDecimalInjective(m: nat, n: nat)
    requires NatToDecimal(m) == NatToDecimal(n)
    ensures m == n
  {
    DigitsValueOfDecimal(m);
    DigitsValueOfDecimal(n);
  }

  /** The length of the run of digits `s` starts with. */
  function DigitRun(s: string): (k: nat)
    ensures k <= |s| && AllDigits(s[..k])
    ensures k < |s| ==> !IsDigit(s[k])
  {
    if s != [] && IsDigit(s[0]) then 1 + DigitRun(s[1..]) else 0
  }

  /** A digit run stops at the first non-digit. */
  lemma {:induction false} DigitRunOfPrefix(p: string, t: string)
    requires AllDigits(p)
    requires t == [] || !IsDigit(t[0])
    ensures DigitRun(p + t) == |p|
  {
    if p != [] {
      assert (p + t)[1..] == p[1..] + t;
      DigitRunOfPrefix(p[1..], t);
    } else {
      assert p + t == t;
    }
  }

  /** `parseInt(s)` on a string that begins with a digit: the value of the
      leading run of digits; `None` stands for `NaN`. */
  function ParseInt(s: string): (r: Option<int>)
    ensures r.Some? <==> |s| > 0 && IsDigit(s[0])
    ensures r.Some? ==> r.value >= 0
  {
    var k := DigitRun(s);
    if k == 0 then None else Some(DigitsValue(s[..k]))
  }

  /** `parseInt` reads back what `toString` writes. */
  lemma ParseIntOfDecimal(n: nat)
    ensures ParseInt(NatToDecimal(n)) == Some(n)
  {
    var s := NatToDecimal(n);
    DigitRunOfPrefix(s, []);
    assert s + [] == s;
    assert s[..|s|] == s;
    DigitsValueOfDecimal(n);
  }

  function Pow10(m: nat): (p: nat)
    ensures p >= 1
  {
    if m == 0 then 1 else 10 * Pow10(m - 1)
  }

  /** `parseFloat(s)` on a string that begins with a plain decimal literal
      (digits, optionally a point and more digits): its value; `None` stands
      for `NaN`. */
  function ParseFloat(s: string): (r: Option<real>)
    ensures r.Some? ==> r.value >= 0.0
  {
    var k := DigitRun(s);
    var m := if k < |s| && s[k] == '.' then DigitRun(s[k + 1..]) else 0;
    if k == 0 && m == 0 then None
    else
      var whole := DigitsValue(s[..k]) as real;
      var frac := if m == 0 then 0.0 else DigitsValue(s[k + 1..][..m]) as real / Pow10(m) as real;
      Some(whole + frac)
  }

  /** `Math.round`: the nearest integer, ties going towards +infinity. */
  function Round(x: real): (n: int)
    ensures n as real - 0.5 <= x < n as real + 0.5
  {
    (x + 0.5).Floor
  }

  /** The rounded value is the only integer within half of `x` below and
      under half above, so any rounding with that tie rule agrees. */
  lemma RoundUnique(x: real, n: int)
    requires n as real - 0.5 <= x < n as real + 0.5
    ensures n == Round(x)
  {
    var m := Round(x);
    assert (n - m) as real < 1.0 && (m - n) as real < 1.0;
  }

  /** Rounding is monotone. */
  lemma RoundMonotone(x: real, y: real)
    requires x <= y
    ensures Round(x) <= Round(y)
  {
  }

  function Abs(x: real): (a: real)
    ensures a >= 0.0 && (a == x || a == -x)
  {
    if x < 0.0 then -x else x
  }

  /** A number below 100 written with exactly two digits. */
  function TwoDigits(r: nat): (f: string)
    requires r < 100
    ensures |f| == 2 && AllDigits(f) && DigitsValue(f) == r
  {
    TwoDigitsValue(r / 10, r % 10);
    [DigitChar(r / 10), DigitChar(r % 10)]
  }

  lemma TwoDigitsValue(a: nat, b: nat)
    requires a < 10 && b < 10
    ensures DigitsValue([DigitChar(a), DigitChar(b)]) == 10 * a + b
  {
    var f := [DigitChar(a), DigitChar(b)];
    assert f[..|f| - 1] == [DigitChar(a)];
    assert [DigitChar(a)][..0] == [];
    assert DigitsValue([DigitChar(a)]) == a;
  }

  /** The shape `toFixed(2)` writes: an optional minus sign, a run of digits
      without leading zeros, a point and exactly two digits. */
  predicate IsFixed2(s: string) {
    var start := if |s| > 0 && s[0] == '-' then 1 else 0;
    && |s| >= start + 4
    && AllDigits(s[start..|s| - 3])
    && (s[start] == '0' ==> |s| == start + 4)
    && s[|s| - 3] == '.'
    && IsDigit(s[|s| - 2]) && IsDigit(s[|s| - 1])
  }

  /** A count of hundredths written with two decimals, `q.dd`. */
  function Hundredths(h: nat): (s: string)
    ensures |s| >= 4 && '-' !in s && '%' !in s && '.' in s
    ensures IsFixed2(s)
  {
    var s := NatToDecimal(h / 100) + ['.'] + TwoDigits(h % 100);
    assert s[|s| - 3] == '.';
    s
  }

  /** The value of the literal `w.f`. */
  function PointedValue(w: string, f: string): real
    requires AllDigits(w) && AllDigits(f)
  {
    DigitsValue(w) as real + DigitsValue(f) as real / Pow10(|f|) as real
  }

  /** `parseFloat` of digits, a point and more digits. */
  lemma ParseFloatOfPointed(w: string, f: string)
    requires |w| > 0 && AllDigits(w) && |f| > 0 && AllDigits(f)
    ensures ParseFloat(w + ['.'] + f) == Some(PointedValue(w, f))
  {
    var s := w + (['.'] + f);
    assert w + ['.'] + f == s;
    var k := |w|;
    assert DigitRun(s) == k by {
      DigitRunOfPrefix(w, ['.'] + f);
    }
    assert s[..k] == w;
    assert s[k] == '.';
    assert s[k + 1..] == f;
    assert DigitRun(f) == |f| by {
      DigitRunOfPrefix(f, []);
      assert f + [] == f;
    }
    assert f[..|f|] == f;
    var m := if k < |s| && s[k] == '.' then DigitRun(s[k + 1..]) else 0;
    assert m == |f|;
    var whole := DigitsValue(s[..k]) as real;
    var frac := if m == 0 then 0.0 else DigitsValue(s[k + 1..][..m]) as real / Pow10(m) as real;
    assert whole == DigitsValue(w) as real;
    assert frac == DigitsValue(f) as real / Pow10(|f|) as real;
    assert ParseFloat(s) == Some(whole + frac);
    assert ParseFloat(w + ['.'] + f) == Some(whole + frac);
    assert whole + frac == PointedValue(w, f);
  }

  /** The literal `Hundredths` writes denotes the count over 100. */
  lemma HundredthsValue(h: nat)
    ensures PointedValue(NatToDecimal(h / 100), TwoDigits(h % 100)) == h as real / 100.0
  {
    DigitsValueOfDecimal(h / 100);
    assert Pow10(2) == 100;
    assert h == 100 * (h / 100) + h % 100;
  }

  /** `parseFloat` reads back what `Hundredths` writes. */
  lemma ParseFloatOfHundredths(h: nat)
    ensures ParseFloat(Hundredths(h)) == Some(h as real / 100.0)
  {
    ParseFloatOfPointed(NatToDecimal(h / 100), TwoDigits(h % 100));
    HundredthsValue(h);
  }

  /** The number of hundredths `toFixed(2)` writes for a non-negative value:
      the nearest count, ties going up. */
  function Cents(x: real): (h: nat)
    requires x >= 0.0
    ensures h as real - 0.5 <= x * 100.0 < h as real + 0.5
  {
    Round(x * 100.0)
  }

  /** A non-negative value rounded to hundredths, as `toFixed(2)` rounds
      it. */
  function RoundedToCents(x: real): real
    requires x >= 0.0
  {
    Cents(x) as real / 100.0
  }

  /** `x.toFixed(2)` for |x| below 10^21: a minus sign for a negative value,
      then the magnitude rounded to hundredths and written `q.dd`. */
  function ToFixed2(x: real): (s: string)
    ensures |s| >= 4 && (s[0] == '-' <==> x < 0.0)
    ensures '%' !in s
    ensures IsFixed2(s)
  {
    var body := Hundredths(Cents(Abs(x)));
    if x < 0.0 then
      assert body[0] != '-' by {
        assert body[0] in body;
      }
      assert ("-" + body)[1..] == body;
      "-" + body
    else
      assert body[0] != '-' by {
        assert body[0] in body;
      }
      body
  }

  /** `toFixed(2)` of a non-negative value reads back, through `parseFloat`,
      as a number within half a hundredth of it. */
  lemma ToFixed2ReadBack(x: real)
    requires x >= 0.0
    ensures ParseFloat(ToFixed2(x)) == Some(RoundedToCents(x))
    ensures x - 0.005 < RoundedToCents(x) <= x + 0.005
  {
    ParseFloatOfHundredths(Cents(x));
  }
}
