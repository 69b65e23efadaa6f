/** How a table row colours its two difference cells. The row compares the
    cell's class name with the literal `positive`, which no class the
    transform produces is called; the corrected comparison uses the name
    `getValueClassName` actually returns. */
module SignalRow {
  import opened Styles
  import opened SignalsTable

  /** The colour style a difference cell is drawn with, as written: the
      positive style only when the class name is `positive`. */
  function DiffCellStyleAsWritten(cell: ValueCell): ValueClass {
    if cell.cssClass.Name() == "positive" then PositiveValue else NegativeValue
  }

  /** As written, every difference cell is drawn in the negative style,
      whatever its sign. */
  lemma DiffCellStyleAsWrittenAlwaysNegative(cell: ValueCell)
    ensures DiffCellStyleAsWritten(cell) == NegativeValue
  {
    assert cell.cssClass.Name()[|cell.cssClass.Name()| - 1] == 'e';
  }

  /** A concrete case: a price difference of 58.60 is classed positive by
      the transform but drawn in the negative style. */
  lemma PositiveDiffDrawnNegative()
    ensures MapPriceDiff(Num(58.60)).value.cssClass == PositiveValue
    ensures DiffCellStyleAsWritten(MapPriceDiff(Num(58.60)).value) == NegativeValue
  {
    DiffCellStyleAsWrittenAlwaysNegative(MapPriceDiff(Num(58.60)).value);
  }

  /** The evidently intended comparison, against `positiveValue`. */
  function DiffCellStyle(cell: ValueCell): ValueClass {
    if cell.cssClass.Name() == "positiveValue" then PositiveValue else NegativeValue
  }

  /** Corrected, a difference cell is drawn positive exactly when the
      difference is at least 0, for both columns. */
  lemma DiffCellStyleFollowsSign(x: real)
    ensures DiffCellStyle(MapPriceDiff(Num(x)).value) == PositiveValue <==> x >= 0.0
    ensures DiffCellStyle(MapYieldDiff(Num(x)).value) == PositiveValue <==> x >= 0.0
  {
    assert NegativeValue.Name() != "positiveValue";
  }
}
