/** The body of the `useTransformedSignals` hook: transform a batch of
    records, drop the ones that fail, and sort the rest by a chosen column
    and direction. */
module TransformedSignals {
  import opened Wrappers
  import opened Text
  import opened Decimal
  import opened StableSort
  import opened FilterMap
  import opened Styles
  import opened SignalsTable

  /** The records that transform, in input order; the others are dropped. */
  function TransformAll(signals: seq<HygSignalData>): (r: seq<TransformedSignalData>)
    ensures |r| <= |signals|
  {
    KeepSuccesses(signals, TransformSignalData)
  }

  /** A display record survives exactly when some input record has every
      field valid and displays as it. */
  lemma TransformAllMembers(signals: seq<HygSignalData>, t: TransformedSignalData)
    ensures t in TransformAll(signals) <==>
      exists i :: 0 <= i < |signals| && FirstError(signals[i]).None? && Display(signals[i]) == t
  {
    KeepSuccessesMembers(signals, TransformSignalData, t);
  }

  /** The hook's transform step: every record is transformed, each failure
      is logged with its position and the error naming the first invalid
      field, and the surviving records are kept in input order. */
  method TransformBatch(signals: seq<HygSignalData>)
    returns (transformed: seq<TransformedSignalData>, failures: seq<(nat, ValidationError)>)
    ensures transformed == TransformAll(signals)
    ensures forall k :: 0 <= k < |failures| ==>
      failures[k].0 < |signals| && FirstError(signals[failures[k].0]) == Some(failures[k].1)
    ensures forall k, l :: 0 <= k < l < |failures| ==> failures[k].0 < failures[l].0
    ensures forall i :: 0 <= i < |signals| && FirstError(signals[i]).Some? ==>
      exists k :: 0 <= k < |failures| && failures[k].0 == i
    ensures |transformed| + |failures| == |signals|
  {
    transformed, failures := KeepSuccessesLogged(signals, TransformSignalData);
  }

  /** The sort keys the hook's comparator extracts. A `None` key stands for
      `NaN`. */
  function PriorityKey(t: TransformedSignalData): (k: Option<real>)
    ensures k.Some? <==> |t.index| > 0 && IsDigit(t.index[0])
    ensures k.Some? ==> k.value >= 0.0
  {
    match ParseInt(t.index)
    case Some(n) => Some(n as real)
    case None => None
  }

  function ConfidenceKey(t: TransformedSignalData): (k: Option<real>)
    ensures k.Some?
  {
    Some(t.confidence.percentage)
  }

  function PriceDiffKey(t: TransformedSignalData): (k: Option<real>)
    ensures k.Some? ==> k.value >= 0.0
  {
    ParseFloat(t.priceDiff.value)
  }

  function YieldDiffKey(t: TransformedSignalData): (k: Option<real>)
    ensures k.Some? ==> k.value >= 0.0
  {
    ParseFloat(RemoveFirst(t.yieldDiff.value, '%'))
  }

  /** The key a sort column selects; an unknown column sorts by priority. */
  function SortKeyFor(sortBy: string): TransformedSignalData -> Option<real> {
    if sortBy == "confidence" then ConfidenceKey
    else if sortBy == "price_diff" then PriceDiffKey
    else if sortBy == "yield_diff" then YieldDiffKey
    else PriorityKey
  }

  /** Only `DESC` reverses the comparator. */
  function DirectionOf(sortDirection: string): (d: Direction)
    ensures d == Descending <==> sortDirection == "DESC"
  {
    if sortDirection == "DESC" then Descending else Ascending
  }

  /** Both sort parameters present and non-empty (JavaScript truthiness). */
  predicate SortRequested(sortBy: Option<string>, sortDirection: Option<string>) {
    sortBy.Some? && sortBy.value != [] && sortDirection.Some? && sortDirection.value != []
  }

  /** The priority key of a display record is its source priority. */
  lemma DisplayPriorityKey(src: HygSignalData)
    requires FirstError(src).None?
    ensures PriorityKey(Display(src)) == Some(src.priority.x)
  {
    MapIndexReadBack(src.priority);
  }

  /** The confidence key is the clamped confidence. */
  lemma DisplayConfidenceKey(src: HygSignalData)
    requires FirstError(src).None?
    ensures ConfidenceKey(Display(src)) == Some(ClampConfidence(src.confidence.x))
  {
  }

  /** The price-difference key is the magnitude rounded to hundredths,
      whatever the sign. */
  lemma DisplayPriceDiffKey(src: HygSignalData)
    requires FirstError(src).None?
    ensures PriceDiffKey(Display(src)) == Some(RoundedToCents(Abs(src.priceDiff.x)))
  {
    MapPriceDiffReadBack(src.priceDiff);
  }

  /** The yield-difference key is the magnitude rounded to hundredths,
      whatever the sign. */
  lemma DisplayYieldDiffKey(src: HygSignalData)
    requires FirstError(src).None?
    ensures YieldDiffKey(Display(src)) == Some(RoundedToCents(Abs(src.yieldDiff.x)))
  {
    MapYieldDiffReadBack(src.yieldDiff);
  }

  /** Whatever the column, the key of a record that transforms is defined. */
  lemma KeyDefinedOnDisplay(src: HygSignalData, sortBy: string)
    requires FirstError(src).None?
    ensures SortKeyFor(sortBy)(Display(src)).Some?
  {
    if sortBy == "confidence" {
    } else if sortBy == "price_diff" {
      DisplayPriceDiffKey(src);
    } else if sortBy == "yield_diff" {
      DisplayYieldDiffKey(src);
    } else {
      DisplayPriorityKey(src);
    }
  }

  /** Every key is defined on every record that survives the transform. */
  lemma KeysDefined(signals: seq<HygSignalData>, sortBy: string)
    ensures AllKeysDefined(TransformAll(signals), SortKeyFor(sortBy))
  {
    var key := SortKeyFor(sortBy);
    forall i | 0 <= i < |signals| && TransformSignalData(signals[i]).Success?
      ensures key(TransformSignalData(signals[i]).value).Some?
    {
      KeyDefinedOnDisplay(signals[i], sortBy);
    }
    KeepSuccessesAll(signals, TransformSignalData, (t: TransformedSignalData) => key(t).Some?);
  }

  /** `useTransformedSignals`: the surviving records, sorted stably by the
      selected key and direction when both sort parameters are given, and in
      input order otherwise. */
  function UseTransformedSignals(signals: seq<HygSignalData>, sortBy: Option<string>, sortDirection: Option<string>)
    : (r: seq<TransformedSignalData>)
    ensures multiset(r) == multiset(TransformAll(signals))
    ensures !SortRequested(sortBy, sortDirection) ==> r == TransformAll(signals)
    ensures SortRequested(sortBy, sortDirection) ==>
      var key, dir := SortKeyFor(sortBy.value), DirectionOf(sortDirection.value);
      && Sorted(r, key, dir)
      && forall k :: Select(r, key, k) == Select(TransformAll(signals), key, k)
  {
    var transformed := TransformAll(signals);
    if SortRequested(sortBy, sortDirection) then
      KeysDefined(signals, sortBy.value);
      Sort(transformed, SortKeyFor(sortBy.value), DirectionOf(sortDirection.value))
    else
      transformed
  }

  /** The sorted output is the only stable sorted order: any arrangement of
      the surviving records that is sorted by the key and keeps records with
      equal keys in input order is the hook's output. */
  lemma SortedOutputIsUnique(signals: seq<HygSignalData>, sortBy: string, sortDirection: string,
                             b: seq<TransformedSignalData>)
    requires Sorted(b, SortKeyFor(sortBy), DirectionOf(sortDirection))
    requires forall k :: Select(b, SortKeyFor(sortBy), k) == Select(TransformAll(signals), SortKeyFor(sortBy), k)
    requires sortBy != [] && sortDirection != []
    ensures b == UseTransformedSignals(signals, Some(sortBy), Some(sortDirection))
  {
    KeysDefined(signals, sortBy);
    SortIsUnique(TransformAll(signals), b, SortKeyFor(sortBy), DirectionOf(sortDirection));
  }

  /** Sorting by price difference orders by magnitude: two records whose
      differences have the same magnitude, say a difference and its
      negation, get the same key. */
  lemma PriceDiffKeyIgnoresSign(a: HygSignalData, b: HygSignalData)
    requires FirstError(a).None? && FirstError(b).None?
    requires Abs(a.priceDiff.x) == Abs(b.priceDiff.x)
    ensures PriceDiffKey(Display(a)) == PriceDiffKey(Display(b))
  {
    DisplayPriceDiffKey(a);
    DisplayPriceDiffKey(b);
  }

  /** The same for the yield difference. */
  lemma YieldDiffKeyIgnoresSign(a: HygSignalData, b: HygSignalData)
    requires FirstError(a).None? && FirstError(b).None?
    requires Abs(a.yieldDiff.x) == Abs(b.yieldDiff.x)
    ensures YieldDiffKey(Display(a)) == YieldDiffKey(Display(b))
  {
    DisplayYieldDiffKey(a);
    DisplayYieldDiffKey(b);
  }
}
