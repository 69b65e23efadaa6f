/** The helpers and data shapes of the styles module: the class-name lookups
    `getSignalClassName` and `getValueClassName`, the formatters `formatPrice`
    and `formatPercentage`, `clampConfidence`, and the input and output record
    shapes of the transform. */
module Styles {
  import opened Wrappers
  import opened Text
  import opened Decimal

  /** The style class a signal strength is drawn with. */
  datatype SignalClass = SignalStrong | SignalModerate | SignalWeak {
    function Name(): string {
      match this
      case SignalStrong => "signalStrong"
      case SignalModerate => "signalModerate"
      case SignalWeak => "signalWeak"
    }
  }

  /** The style class of a signed difference. */
  datatype ValueClass = PositiveValue | NegativeValue {
    function Name(): string {
      match this
      case PositiveValue => "positiveValue"
      case NegativeValue => "negativeValue"
    }
  }

  /** `getSignalClassName`: the class of a strength label, compared after
      uppercasing; `MEDIUM` is an alias of `MODERATE`, and every other label,
      `WEAK` included, falls back to the weak class. */
  function GetSignalClassName(signalStrength: string): SignalClass {
    var normalized := Upper(signalStrength);
    if normalized == "STRONG" then SignalStrong
    else if normalized == "MODERATE" || normalized == "MEDIUM" then SignalModerate
    else SignalWeak
  }

  /** The lookup ignores case: uppercasing or (ASCII-)lowercasing the label
      first changes nothing. */
  lemma SignalClassIgnoresCase(s: string)
    ensures GetSignalClassName(Upper(s)) == GetSignalClassName(s)
    ensures GetSignalClassName(Lower(s)) == GetSignalClassName(s)
  {
    UpperIdempotent(s);
    UpperOfLower(s);
  }

  /** Each of the three canonical labels, in any case, gets its own class. */
  lemma SignalClassOfLabels(s: string)
    ensures Upper(s) == "STRONG" ==> GetSignalClassName(s) == SignalStrong
    ensures Upper(s) == "MODERATE" || Upper(s) == "MEDIUM" ==> GetSignalClassName(s) == SignalModerate
    ensures GetSignalClassName(s) == SignalWeak <==> Upper(s) !in ["STRONG", "MODERATE", "MEDIUM"]
  {
  }

  /** `formatPrice`: `toFixed(2)`, no sign handling of its own. */
  function FormatPrice(price: real): (r: string)
    ensures |r| >= 4 && (r[0] == '-' <==> price < 0.0)
    ensures IsFixed2(r)
  {
    ToFixed2(price)
  }

  /** A non-negative price reads back, through `parseFloat`, as the price
      rounded to cents. */
  lemma FormatPriceReadBack(price: real)
    requires price >= 0.0
    ensures ParseFloat(FormatPrice(price)) == Some(RoundedToCents(price))
  {
    ToFixed2ReadBack(price);
  }

  /** `formatPercentage`: the magnitude with two decimals, then `%`. */
  function FormatPercentage(value: real): (r: string)
    ensures |r| >= 5 && r[|r| - 1] == '%' && r[0] != '-'
    ensures IsFixed2(r[..|r| - 1])
  {
    var t := ToFixed2(Abs(value));
    assert (t + ['%'])[..|t|] == t;
    t + ['%']
  }

  /** Removing the first `%`, as the sort comparator does, and reading the
      rest back with `parseFloat` gives the magnitude rounded to hundredths. */
  lemma FormatPercentageReadBack(value: real)
    ensures ParseFloat(RemoveFirst(FormatPercentage(value), '%')) == Some(RoundedToCents(Abs(value)))
  {
    var digits := ToFixed2(Abs(value));
    ToFixed2ReadBack(Abs(value));
    PercentSuffixRemoved(digits);
  }

  lemma PercentSuffixRemoved(digits: string)
    requires '%' !in digits
    ensures RemoveFirst(digits + ['%'], '%') == digits
  {
    RemoveFirstAt(digits, '%', []);
    assert digits + ['%'] + [] == digits + ['%'];
    assert digits + [] == digits;
  }

  /** A value and its negation are shown alike. */
  lemma FormatPercentageIgnoresSign(value: real)
    ensures FormatPercentage(value) == FormatPercentage(-value)
  {
    assert Abs(value) == Abs(-value);
  }

  /** `getValueClassName`: zero counts as positive. */
  function GetValueClassName(value: real): (c: ValueClass)
    ensures c == PositiveValue <==> value >= 0.0
    ensures c.Name() == "positiveValue" || c.Name() == "negativeValue"
  {
    if value >= 0.0 then PositiveValue else NegativeValue
  }

  /** `clampConfidence`: into [0, 100], leaving values already there alone. */
  function ClampConfidence(confidence: real): (r: real)
    ensures 0.0 <= r <= 100.0
    ensures 0.0 <= confidence <= 100.0 ==> r == confidence
    ensures confidence < 0.0 ==> r == 0.0
    ensures confidence > 100.0 ==> r == 100.0
  {
    var m := if confidence < 100.0 then confidence else 100.0;
    if 0.0 < m then m else 0.0
  }

  /** Clamping twice is clamping once, and clamping keeps order. */
  lemma ClampProperties(a: real, b: real)
    ensures ClampConfidence(ClampConfidence(a)) == ClampConfidence(a)
    ensures a <= b ==> ClampConfidence(a) <= ClampConfidence(b)
  {
  }

  /** A JavaScript value as the validators see it: a finite number, a
      non-finite number (`NaN` or an infinity), a string, a boolean, or
      anything else (`undefined`, `null`, an object). */
  datatype JsValue = Num(x: real) | NonFinite | Str(s: string) | Bool(b: bool) | Other

  /** `HYGSignalData`, one untrusted input record. The declared field types
      are not enforced at run time, so every field is any value. */
  datatype HygSignalData = HygSignalData(
    priority: JsValue,
    buyDescription: JsValue,
    buyPrice: JsValue,
    sellDescription: JsValue,
    sellPrice: JsValue,
    priceDiff: JsValue,
    yieldDiff: JsValue,
    signalStrength: JsValue,
    confidence: JsValue,
    durationMatch: JsValue,
    sectorMatch: JsValue)

  /** A signed difference shown as its magnitude with a class for its sign. */
  datatype ValueCell = ValueCell(value: string, cssClass: ValueClass)

  datatype SignalCell = SignalCell(value: string, cssClass: SignalClass)

  datatype ConfidenceCell = ConfidenceCell(percentage: real, display: string)

  /** `TransformedSignalData`, one display record. */
  datatype TransformedSignalData = TransformedSignalData(
    index: string,
    buyBond: string,
    buyPrice: string,
    sellBond: string,
    sellPrice: string,
    priceDiff: ValueCell,
    yieldDiff: ValueCell,
    signal: SignalCell,
    confidence: ConfidenceCell,
    matches: string)
}
