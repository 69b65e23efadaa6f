/** The table component's record transform: `transformSignalData`, which
    validates one input record field by field and builds its display record
    or raises a `ValidationError`. The batch pipeline of
    `useTransformedSignals` that uses it is the module `TransformedSignals`. */
module SignalsTable {
  import opened Wrappers
  import opened Text
  import opened Decimal
  import opened Styles

  /** The fields a `ValidationError` can name. */
  datatype Field =
    | Priority | BuyDescription | BuyPrice | SellDescription | SellPrice
    | PriceDiff | YieldDiff | SignalStrength | Confidence
  {
    function Name(): string {
      match this
      case Priority => "priority"
      case BuyDescription => "buy_description"
      case BuyPrice => "buy_price"
      case SellDescription => "sell_description"
      case SellPrice => "sell_price"
      case PriceDiff => "price_diff"
      case YieldDiff => "yield_diff"
      case SignalStrength => "signal_strength"
      case Confidence => "confidence"
    }
  }

  /** `ValidationError`: the offending field and the raw value it held. */
  datatype ValidationError = ValidationError(field: Field, value: JsValue)

  datatype Side = Buy | Sell

  /** The glyphs marking a duration match and a sector match. */
  const DurationGlyph: char := '\U{23F1}'
  const SectorGlyph: char := '\U{1F3E2}'

  /** The strength labels the validator accepts, after uppercasing. */
  const ValidSignals: seq<string> := ["WEAK", "MODERATE", "STRONG"]

  // The validity rule of each field, stated on the raw value.

  /** `Number.isInteger`. */
  predicate IsInteger(x: real) {
    x.Floor as real == x
  }

  predicate ValidPriority(v: JsValue) {
    v.Num? && IsInteger(v.x) && v.x >= 1.0
  }

  predicate ValidDescription(v: JsValue) {
    v.Str? && exists i :: 0 <= i < |v.s| && !IsJsWhitespace(v.s[i])
  }

  predicate ValidPrice(v: JsValue) {
    v.Num? && v.x >= 0.0
  }

  predicate ValidSignal(v: JsValue) {
    v.Str? && Upper(v.s) in ValidSignals
  }

  /** `mapIndex`: a priority must be an integer of at least 1, and is shown
      in decimal without leading zeros. */
  function MapIndex(priority: JsValue): (r: Result<string, ValidationError>)
    ensures r.Success? <==> ValidPriority(priority)
    ensures r.Success? ==> |r.value| > 0 && AllDigits(r.value) && r.value[0] != '0'
    ensures r.Failure? ==> r.error == ValidationError(Priority, priority)
  {
    if priority.Num? && IsInteger(priority.x) && priority.x >= 1.0 then
      Success(NatToDecimal(priority.x.Floor))
    else
      Failure(ValidationError(Priority, priority))
  }

  /** `parseInt` reads the priority back from its index text. */
  lemma MapIndexReadBack(priority: JsValue)
    requires ValidPriority(priority)
    ensures ParseInt(MapIndex(priority).value) == Some(priority.x.Floor)
    ensures priority.x.Floor as real == priority.x
  {
    ParseIntOfDecimal(priority.x.Floor);
  }

  function DescriptionField(side: Side): Field {
    if side == Buy then BuyDescription else SellDescription
  }

  function PriceField(side: Side): Field {
    if side == Buy then BuyPrice else SellPrice
  }

  /** `mapBondDescription`: a description must be a string with a
      non-whitespace character; the result starts and ends with one. */
  function MapBondDescription(description: JsValue, side: Side): (r: Result<string, ValidationError>)
    ensures r.Success? <==> ValidDescription(description)
    ensures r.Success? ==>
      r.value != [] && !IsJsWhitespace(r.value[0]) && !IsJsWhitespace(r.value[|r.value| - 1])
    ensures r.Failure? ==> r.error == ValidationError(DescriptionField(side), description)
  {
    if !description.Str? then Failure(ValidationError(DescriptionField(side), description))
    else
      var t := Trim(description.s, IsJsWhitespace);
      TrimEmptyIff(description.s, IsJsWhitespace);
      if t == [] then Failure(ValidationError(DescriptionField(side), description))
      else Success(t)
  }

  /** The bond name is the piece of the description that starts where the
      leading whitespace ends. */
  lemma MapBondDescriptionTrims(description: JsValue, side: Side)
    requires ValidDescription(description)
    ensures var t, s, i := MapBondDescription(description, side).value, description.s, TrimOffset(description.s, IsJsWhitespace);
      i + |t| <= |s| && t == s[i..i + |t|]
  {
    var t := Trim(description.s, IsJsWhitespace);
    assert MapBondDescription(description, side) == Success(t);
  }

  /** Everything cut from the description on either side of the bond name is
      whitespace. */
  lemma MapBondDescriptionCuts(description: JsValue, side: Side)
    requires ValidDescription(description)
    ensures var t, s, i := MapBondDescription(description, side).value, description.s, TrimOffset(description.s, IsJsWhitespace);
      && (forall k :: 0 <= k < i ==> IsJsWhitespace(s[k]))
      && (forall k :: i + |t| <= k < |s| ==> IsJsWhitespace(s[k]))
  {
    assert MapBondDescription(description, side).value == Trim(description.s, IsJsWhitespace);
    TrimCutsWhitespace(description.s, IsJsWhitespace);
  }

  /** Trimming the bond name again changes nothing. */
  lemma MapBondDescriptionStable(description: JsValue, side: Side)
    requires ValidDescription(description)
    ensures var t := MapBondDescription(description, side).value;
      Trim(t, IsJsWhitespace) == t
  {
    var t := Trim(description.s, IsJsWhitespace);
    assert MapBondDescription(description, side).value == t;
    TrimIdempotent(description.s, IsJsWhitespace);
  }

  /** `mapPrice`: a price must be a finite number of at least 0 (0 itself
      is accepted); it is shown unsigned with two decimals. */
  function MapPrice(price: JsValue, side: Side): (r: Result<string, ValidationError>)
    ensures r.Success? <==> ValidPrice(price)
    ensures r.Success? ==> |r.value| >= 4 && r.value[0] != '-'
    ensures r.Success? ==> IsFixed2(r.value)
    ensures r.Failure? ==> r.error == ValidationError(PriceField(side), price)
  {
    if price.Num? && price.x >= 0.0 then
      Success(FormatPrice(price.x))
    else
      Failure(ValidationError(PriceField(side), price))
  }

  /** `parseFloat` reads a price back rounded to cents. */
  lemma MapPriceReadBack(price: JsValue, side: Side)
    requires ValidPrice(price)
    ensures ParseFloat(MapPrice(price, side).value) == Some(RoundedToCents(price.x))
    ensures price.x - 0.005 < RoundedToCents(price.x) <= price.x + 0.005
  {
    FormatPriceReadBack(price.x);
    ToFixed2ReadBack(price.x);
  }

  /** `mapPriceDiff`: any finite number; the text is the magnitude with two
      decimals, the class is the sign of the original, zero counting as
      positive. */
  function MapPriceDiff(priceDiff: JsValue): (r: Result<ValueCell, ValidationError>)
    ensures r.Success? <==> priceDiff.Num?
    ensures r.Success? ==>
      && |r.value.value| >= 4 && r.value.value[0] != '-'
      && (r.value.cssClass == PositiveValue <==> priceDiff.x >= 0.0)
    ensures r.Success? ==> IsFixed2(r.value.value)
    ensures r.Failure? ==> r.error == ValidationError(PriceDiff, priceDiff)
  {
    if priceDiff.Num? then
      Success(ValueCell(ToFixed2(Abs(priceDiff.x)), GetValueClassName(priceDiff.x)))
    else
      Failure(ValidationError(PriceDiff, priceDiff))
  }

  /** `parseFloat` reads a price difference back as its magnitude rounded to
      hundredths: the sign lives only in the class. */
  lemma MapPriceDiffReadBack(priceDiff: JsValue)
    requires priceDiff.Num?
    ensures ParseFloat(MapPriceDiff(priceDiff).value.value) == Some(RoundedToCents(Abs(priceDiff.x)))
  {
    ToFixed2ReadBack(Abs(priceDiff.x));
  }

  /** `mapYieldDiff`: as `MapPriceDiff`, with a `%` suffix. */
  function MapYieldDiff(yieldDiff: JsValue): (r: Result<ValueCell, ValidationError>)
    ensures r.Success? <==> yieldDiff.Num?
    ensures r.Success? ==>
      var t := r.value.value;
      && |t| >= 5 && t[0] != '-' && t[|t| - 1] == '%'
      && (r.value.cssClass == PositiveValue <==> yieldDiff.x >= 0.0)
    ensures r.Success? ==> var t := r.value.value; |t| >= 1 && IsFixed2(t[..|t| - 1])
    ensures r.Failure? ==> r.error == ValidationError(YieldDiff, yieldDiff)
  {
    if yieldDiff.Num? then
      Success(ValueCell(FormatPercentage(yieldDiff.x), GetValueClassName(yieldDiff.x)))
    else
      Failure(ValidationError(YieldDiff, yieldDiff))
  }

  /** Dropping the `%` and reading the rest with `parseFloat` gives the
      magnitude rounded to hundredths. */
  lemma MapYieldDiffReadBack(yieldDiff: JsValue)
    requires yieldDiff.Num?
    ensures ParseFloat(RemoveFirst(MapYieldDiff(yieldDiff).value.value, '%')) == Some(RoundedToCents(Abs(yieldDiff.x)))
  {
    FormatPercentageReadBack(yieldDiff.x);
  }

  /** A difference and its negation are shown with the same text; only the
      class tells them apart. */
  lemma DiffTextIgnoresSign(x: real)
    ensures MapPriceDiff(Num(-x)).value.value == MapPriceDiff(Num(x)).value.value
    ensures MapYieldDiff(Num(-x)).value.value == MapYieldDiff(Num(x)).value.value
    ensures x != 0.0 ==> MapPriceDiff(Num(-x)).value.cssClass != MapPriceDiff(Num(x)).value.cssClass
    ensures x != 0.0 ==> MapYieldDiff(Num(-x)).value.cssClass != MapYieldDiff(Num(x)).value.cssClass
  {
    assert Abs(-x) == Abs(x);
  }

  /** `mapSignalStrength`: a string whose uppercase form is one of the three
      labels; the result is that form with its style class. */
  function MapSignalStrength(signal: JsValue): (r: Result<SignalCell, ValidationError>)
    ensures r.Success? <==> ValidSignal(signal)
    ensures r.Success? ==>
      && r.value.value == Upper(signal.s) && r.value.value in ValidSignals
      && (r.value.value == "STRONG" ==> r.value.cssClass == SignalStrong)
      && (r.value.value == "MODERATE" ==> r.value.cssClass == SignalModerate)
      && (r.value.value == "WEAK" ==> r.value.cssClass == SignalWeak)
    ensures r.Failure? ==> r.error == ValidationError(SignalStrength, signal)
  {
    if signal.Str? && Upper(signal.s) in ValidSignals then
      var normalized := Upper(signal.s);
      UpperIdempotent(signal.s);
      Success(SignalCell(normalized, GetSignalClassName(normalized)))
    else
      Failure(ValidationError(SignalStrength, signal))
  }

  /** `mapConfidence`: any finite number, clamped into [0, 100] and shown as
      the nearest whole percent. */
  function MapConfidence(confidence: JsValue): (r: Result<ConfidenceCell, ValidationError>)
    ensures r.Success? <==> confidence.Num?
    ensures r.Success? ==>
      var c := r.value;
      && 0.0 <= c.percentage <= 100.0
      && (0.0 <= confidence.x <= 100.0 ==> c.percentage == confidence.x)
      && |c.display| >= 2 && c.display[|c.display| - 1] == '%'
    ensures r.Success? ==> r.value.percentage == ClampConfidence(confidence.x)
    ensures r.Success? ==>
      var d := r.value.display;
      |d| >= 2 && AllDigits(d[..|d| - 1]) && (d[0] == '0' ==> |d| == 2)
    ensures r.Failure? ==> r.error == ValidationError(Confidence, confidence)
  {
    if confidence.Num? then
      var clamped := ClampConfidence(confidence.x);
      var digits := NatToDecimal(Round(clamped));
      assert (digits + "%")[..|digits|] == digits;
      Success(ConfidenceCell(clamped, digits + "%"))
    else
      Failure(ValidationError(Confidence, confidence))
  }

  /** The percent text reads back, through `parseInt`, as the clamped
      confidence rounded to a whole number between 0 and 100. */
  lemma MapConfidenceReadBack(confidence: JsValue)
    requires confidence.Num?
    ensures var c := MapConfidence(confidence).value;
      && ParseInt(c.display) == Some(Round(c.percentage))
      && 0 <= Round(c.percentage) <= 100
  {
    var clamped := ClampConfidence(confidence.x);
    var rounded: nat := Round(clamped);
    var digits := NatToDecimal(rounded);
    var display := digits + "%";
    assert MapConfidence(confidence).value.display == display;
    ParseIntOfDecimal(rounded);
    DigitRunOfPrefix(digits, "%");
    DigitRunOfPrefix(digits, []);
    assert digits + [] == digits;
    assert display[..|digits|] == digits;
  }

  /** `mapMatches`: never fails. Each glyph appears exactly when its flag is
      the boolean `true`, and the two are separated by one space. */
  function MapMatches(durationMatch: JsValue, sectorMatch: JsValue): (r: string)
    ensures DurationGlyph in r <==> durationMatch == Bool(true)
    ensures SectorGlyph in r <==> sectorMatch == Bool(true)
    ensures ' ' in r <==> durationMatch == Bool(true) && sectorMatch == Bool(true)
    ensures r == [] <==> durationMatch != Bool(true) && sectorMatch != Bool(true)
    ensures durationMatch == Bool(true) && sectorMatch == Bool(true) ==> r == [DurationGlyph, ' ', SectorGlyph]
    ensures durationMatch == Bool(true) && sectorMatch != Bool(true) ==> r == [DurationGlyph]
    ensures durationMatch != Bool(true) && sectorMatch == Bool(true) ==> r == [SectorGlyph]
  {
    var duration := if durationMatch == Bool(true) then [[DurationGlyph]] else [];
    var sector := if sectorMatch == Bool(true) then [[SectorGlyph]] else [];
    var parts := duration + sector;
    var r := Join(parts, " ");
    if durationMatch == Bool(true) && sectorMatch == Bool(true) then
      assert parts == [[DurationGlyph], [SectorGlyph]];
      assert r == [DurationGlyph, ' ', SectorGlyph];
      r
    else if durationMatch == Bool(true) then
      assert r == [DurationGlyph];
      r
    else if sectorMatch == Bool(true) then
      assert r == [SectorGlyph];
      r
    else
      assert r == [];
      r
  }

  /** Where a field stands in validation order: the order the properties
      of the result object are written in. */
  function Position(f: Field): nat {
    match f
    case Priority => 0
    case BuyDescription => 1
    case BuyPrice => 2
    case SellDescription => 3
    case SellPrice => 4
    case PriceDiff => 5
    case YieldDiff => 6
    case SignalStrength => 7
    case Confidence => 8
  }

  predicate FieldValid(src: HygSignalData, f: Field) {
    match f
    case Priority => ValidPriority(src.priority)
    case BuyDescription => ValidDescription(src.buyDescription)
    case BuyPrice => ValidPrice(src.buyPrice)
    case SellDescription => ValidDescription(src.sellDescription)
    case SellPrice => ValidPrice(src.sellPrice)
    case PriceDiff => src.priceDiff.Num?
    case YieldDiff => src.yieldDiff.Num?
    case SignalStrength => ValidSignal(src.signalStrength)
    case Confidence => src.confidence.Num?
  }

  /** The first `n` fields in validation order are valid. */
  predicate ValidPrefix(src: HygSignalData, n: nat) {
    && (n > 0 ==> ValidPriority(src.priority))
    && (n > 1 ==> ValidDescription(src.buyDescription))
    && (n > 2 ==> ValidPrice(src.buyPrice))
    && (n > 3 ==> ValidDescription(src.sellDescription))
    && (n > 4 ==> ValidPrice(src.sellPrice))
    && (n > 5 ==> src.priceDiff.Num?)
    && (n > 6 ==> src.yieldDiff.Num?)
    && (n > 7 ==> ValidSignal(src.signalStrength))
    && (n > 8 ==> src.confidence.Num?)
  }

  /** The prefix, written out, says the same as "every field placed before
      position `n` is valid". */
  lemma ValidPrefixIff(src: HygSignalData, n: nat)
    ensures ValidPrefix(src, n) <==> forall f :: Position(f) < n ==> FieldValid(src, f)
  {
    if ValidPrefix(src, n) {
      forall f | Position(f) < n ensures FieldValid(src, f) {
      }
    } else {
      assert exists f :: Position(f) < n && !FieldValid(src, f) by {
        if n > 0 && !ValidPriority(src.priority) { assert Position(Priority) < n && !FieldValid(src, Priority); }
        else if n > 1 && !ValidDescription(src.buyDescription) { assert Position(BuyDescription) < n && !FieldValid(src, BuyDescription); }
        else if n > 2 && !ValidPrice(src.buyPrice) { assert Position(BuyPrice) < n && !FieldValid(src, BuyPrice); }
        else if n > 3 && !ValidDescription(src.sellDescription) { assert Position(SellDescription) < n && !FieldValid(src, SellDescription); }
        else if n > 4 && !ValidPrice(src.sellPrice) { assert Position(SellPrice) < n && !FieldValid(src, SellPrice); }
        else if n > 5 && !src.priceDiff.Num? { assert Position(PriceDiff) < n && !FieldValid(src, PriceDiff); }
        else if n > 6 && !src.yieldDiff.Num? { assert Position(YieldDiff) < n && !FieldValid(src, YieldDiff); }
        else if n > 7 && !ValidSignal(src.signalStrength) { assert Position(SignalStrength) < n && !FieldValid(src, SignalStrength); }
        else { assert Position(Confidence) < n && !FieldValid(src, Confidence); }
      }
    }
  }

  /** The error validation reports, stated on the raw record: the first
      field in validation order whose rule it breaks, with its value. */
  function FirstError(src: HygSignalData): Option<ValidationError> {
    if !ValidPriority(src.priority) then Some(ValidationError(Priority, src.priority))
    else if !ValidDescription(src.buyDescription) then Some(ValidationError(BuyDescription, src.buyDescription))
    else if !ValidPrice(src.buyPrice) then Some(ValidationError(BuyPrice, src.buyPrice))
    else if !ValidDescription(src.sellDescription) then Some(ValidationError(SellDescription, src.sellDescription))
    else if !ValidPrice(src.sellPrice) then Some(ValidationError(SellPrice, src.sellPrice))
    else if !src.priceDiff.Num? then Some(ValidationError(PriceDiff, src.priceDiff))
    else if !src.yieldDiff.Num? then Some(ValidationError(YieldDiff, src.yieldDiff))
    else if !ValidSignal(src.signalStrength) then Some(ValidationError(SignalStrength, src.signalStrength))
    else if !src.confidence.Num? then Some(ValidationError(Confidence, src.confidence))
    else None
  }

  /** The raw value a field's error reports. */
  function FieldValue(src: HygSignalData, f: Field): JsValue {
    match f
    case Priority => src.priority
    case BuyDescription => src.buyDescription
    case BuyPrice => src.buyPrice
    case SellDescription => src.sellDescription
    case SellPrice => src.sellPrice
    case PriceDiff => src.priceDiff
    case YieldDiff => src.yieldDiff
    case SignalStrength => src.signalStrength
    case Confidence => src.confidence
  }

  /** The display record of a record that passes validation, each field
      built by its own mapping. */
  function Display(src: HygSignalData): TransformedSignalData
    requires FirstError(src).None?
  {
    TransformedSignalData(
      MapIndex(src.priority).value,
      MapBondDescription(src.buyDescription, Buy).value,
      MapPrice(src.buyPrice, Buy).value,
      MapBondDescription(src.sellDescription, Sell).value,
      MapPrice(src.sellPrice, Sell).value,
      MapPriceDiff(src.priceDiff).value,
      MapYieldDiff(src.yieldDiff).value,
      MapSignalStrength(src.signalStrength).value,
      MapConfidence(src.confidence).value,
      MapMatches(src.durationMatch, src.sectorMatch))
  }

  /** `transformSignalData`: the fields are built in the order the result
      object lists them, and the first one that fails raises the error. A
      record transforms exactly when every field is valid; otherwise the error
      names the first invalid field in that order, with its raw value. */
  function TransformSignalData(src: HygSignalData): (r: Result<TransformedSignalData, ValidationError>)
    ensures r.Success? <==> FirstError(src).None?
    ensures r.Failure? ==> FirstError(src) == Some(r.error)
    ensures r.Success? ==> r.value == Display(src)
  {
    var index :- MapIndex(src.priority);
    var buyBond :- MapBondDescription(src.buyDescription, Buy);
    var buyPrice :- MapPrice(src.buyPrice, Buy);
    var sellBond :- MapBondDescription(src.sellDescription, Sell);
    var sellPrice :- MapPrice(src.sellPrice, Sell);
    var priceDiff :- MapPriceDiff(src.priceDiff);
    var yieldDiff :- MapYieldDiff(src.yieldDiff);
    var signal :- MapSignalStrength(src.signalStrength);
    var confidence :- MapConfidence(src.confidence);
    Success(TransformedSignalData(
      index, buyBond, buyPrice, sellBond, sellPrice, priceDiff, yieldDiff,
      signal, confidence, MapMatches(src.durationMatch, src.sectorMatch)))
  }

  /** `FirstError` reports nothing exactly when every field is valid, and
      otherwise names an invalid field, with its raw value, such that every
      field validated before it is valid. With the contract of
      `TransformSignalData` this is what the transform raises. */
  lemma FirstErrorIsFirstInvalid(src: HygSignalData)
    ensures FirstError(src).None? <==> forall f :: FieldValid(src, f)
    ensures FirstError(src).Some? ==>
      var e := FirstError(src).value;
      && !FieldValid(src, e.field)
      && e.value == FieldValue(src, e.field)
      && forall g :: Position(g) < Position(e.field) ==> FieldValid(src, g)
  {
    ValidPrefixIff(src, 9);
    assert forall f :: Position(f) < 9;
    var r := FirstError(src);
    assert r.None? <==> ValidPrefix(src, 9);
    if r.Some? {
      assert ValidPrefix(src, Position(r.value.field));
      ValidPrefixIff(src, Position(r.value.field));
    }
  }
}
