/** The CSV-to-JSON converter: each `csv.DictReader` row is mapped to a
    signal record with per-column defaults, rows with malformed numbers,
    blank descriptions or prices `<= 0` are skipped, any other error
    ends the whole conversion, and the kept records are sorted by priority.

    Python's `float()` on a string is a parameter `parse` (`None` for the
    strings it rejects with `ValueError`); everything else is modelled. */
module CsvToJson {
  import opened Wrappers
  import opened Text
  import opened StableSort
  import Styles
  import SignalsTable

  /** The Python values the converter handles: a cell's text, `None`, and
      the integer and string defaults of `row.get`. */
  datatype PyValue = PyStr(s: string) | PyNone | PyInt(n: int) | PyBool(b: bool)

  /** A Python float: finite, `nan`, or an infinity. */
  datatype PyFloat = Finite(x: real) | NaN | Inf(negative: bool)

  /** One cell of a `csv.DictReader` row: its text, or `None` when the line
      has fewer fields than the header. */
  datatype Cell = Present(s: string) | ShortRow

  /** A row: the header's column names mapped to the row's cells. */
  type CsvRow = map<string, Cell>

  /** `row.get(column, default)`. */
  function Get(row: CsvRow, column: string, default: PyValue): (v: PyValue)
    ensures column !in row ==> v == default
    ensures column in row ==> v.PyStr? || v.PyNone?
  {
    if column in row then
      match row[column]
      case Present(s) => PyStr(s)
      case ShortRow => PyNone
    else default
  }

  /** `map_signal_strength`: a string is uppercased, anything else becomes
      `MODERATE`. The result is always in uppercase form. */
  function MapSignalStrength(v: PyValue): (r: string)
    ensures v.PyStr? ==> |r| >= |v.s|
    ensures !v.PyStr? ==> r == "MODERATE"
  {
    if v.PyStr? then Upper(v.s) else "MODERATE"
  }

  /** Mapping a label twice is mapping it once. */
  lemma MapSignalStrengthIdempotent(v: PyValue)
    ensures MapSignalStrength(PyStr(MapSignalStrength(v))) == MapSignalStrength(v)
  {
    if v.PyStr? {
      UpperIdempotent(v.s);
    } else {
      ModerateDefault();
    }
  }

  /** The words `map_boolean_match` accepts, compared after lowercasing. */
  const TruthyWords: seq<string> := ["true", "1", "yes"]

  /** `map_boolean_match`: a string is true when its lowercase form is one of
      `TruthyWords`; anything else is its Python truth value. */
  function MapBooleanMatch(v: PyValue): (r: bool)
    ensures v.PyStr? ==> (r <==> Lower(v.s) in TruthyWords)
    ensures v.PyNone? ==> !r
  {
    match v
    case PyStr(s) => Lower(s) in TruthyWords
    case PyNone => false
    case PyInt(n) => n != 0
    case PyBool(b) => b
  }

  /** Matching ignores case. */
  lemma MapBooleanMatchIgnoresCase(s: string)
    ensures MapBooleanMatch(PyStr(Lower(s))) == MapBooleanMatch(PyStr(s))
  {
    LowerIdempotent(s);
  }

  /** `TRUE` and `Yes` match; the column default `False` does not. */
  lemma MapBooleanMatchWords()
    ensures MapBooleanMatch(PyStr("TRUE")) && MapBooleanMatch(PyStr("Yes"))
    ensures !MapBooleanMatch(PyStr("False"))
  {
    var t := Lower("TRUE");
    assert t[0] == 't' && t[1] == 'r' && t[2] == 'u' && t[3] == 'e';
    assert t == "true";
    var y := Lower("Yes");
    assert y[0] == 'y' && y[1] == 'e' && y[2] == 's';
    assert y == "yes";
    var f := Lower("False");
    assert f[0] == 'f';
    assert f !in TruthyWords;
  }

  /** The two kinds of exception a row can raise: `ValueError` (and
      `KeyError`), which the row loop catches and skips the row for, and any
      other, which the outer handler catches, ending the conversion. */
  datatype Fault = RowError | Fatal

  /** `float(v)`. */
  function ToFloat(v: PyValue, parse: string -> Option<PyFloat>): (r: Result<PyFloat, Fault>)
    ensures v.PyInt? ==> r == Success(Finite(v.n as real))
    ensures v.PyNone? ==> r == Failure(Fatal)
    ensures v.PyStr? ==> (r.Failure? <==> parse(v.s).None?) && (r.Failure? ==> r.error == RowError)
  {
    match v
    case PyStr(s) => if parse(s).Some? then Success(parse(s).value) else Failure(RowError)
    case PyInt(n) => Success(Finite(n as real))
    case PyBool(b) => Success(Finite(if b then 1.0 else 0.0))
    case PyNone => Failure(Fatal)
  }

  /** What `float` gives for a string is what the parser reads from it. */
  lemma ToFloatReads(v: PyValue, parse: string -> Option<PyFloat>)
    ensures v.PyStr? && ToFloat(v, parse).Success? ==> Some(ToFloat(v, parse).value) == parse(v.s)
    ensures v.PyBool? ==> ToFloat(v, parse) == Success(Finite(if v.b then 1.0 else 0.0))
  {
  }

  /** `int(x)` on a finite real: truncation towards zero. */
  function Trunc(x: real): (n: int)
    ensures x >= 0.0 ==> n as real <= x < n as real + 1.0
    ensures x < 0.0 ==> n as real - 1.0 < x <= n as real
  {
    if x >= 0.0 then x.Floor else -((-x).Floor)
  }

  /** `int(f)` on a float: `nan` raises `ValueError`, an infinity raises
      `OverflowError`. */
  function IntOfFloat(f: PyFloat): (r: Result<int, Fault>)
    ensures r.Success? <==> f.Finite?
    ensures f.NaN? ==> r == Failure(RowError)
    ensures f.Inf? ==> r == Failure(Fatal)
  {
    match f
    case Finite(x) => Success(Trunc(x))
    case NaN => Failure(RowError)
    case Inf(_) => Failure(Fatal)
  }

  /** A finite float converts to its truncation. */
  lemma IntOfFloatTruncates(f: PyFloat)
    requires f.Finite?
    ensures IntOfFloat(f) == Success(Trunc(f.x))
  {
  }

  /** `v.strip()`: defined on strings only (`None` raises
      `AttributeError`). */
  function Strip(v: PyValue): (r: Result<string, Fault>)
    ensures r.Success? <==> v.PyStr?
    ensures r.Success? ==> r.value == [] || (!IsPyWhitespace(r.value[0]) && !IsPyWhitespace(r.value[|r.value| - 1]))
    ensures r.Failure? ==> r.error == Fatal
  {
    if v.PyStr? then Success(Trim(v.s, IsPyWhitespace)) else Failure(Fatal)
  }

  /** On a string, `strip` is the trim with Python's whitespace set. */
  lemma StripTrims(v: PyValue)
    requires v.PyStr?
    ensures Strip(v) == Success(Trim(v.s, IsPyWhitespace))
  {
  }

  /** One record of the JSON output. */
  datatype SignalRecord = SignalRecord(
    priority: int,
    buyDescription: string,
    buyPrice: PyFloat,
    sellDescription: string,
    sellPrice: PyFloat,
    priceDiff: PyFloat,
    yieldDiff: PyFloat,
    signalStrength: string,
    confidence: int,
    durationMatch: bool,
    sectorMatch: bool)

  /** `int(float(row.get(column, default)))`, used for the priority and
      the confidence. */
  function IntColumn(row: CsvRow, column: string, default: int, parse: string -> Option<PyFloat>)
    : (r: Result<int, Fault>)
    ensures column !in row ==> r == Success(default)
  {
    var f :- ToFloat(Get(row, column, PyInt(default)), parse);
    IntOfFloat(f)
  }

  /** What `int(float(s))` gives for a cell whose text `float` reads as
      `f`: the truncation of a finite value, a `ValueError` for text that
      is not a number or reads as `nan`, an `OverflowError` for an
      infinity. */
  predicate IntColumnOfCell(r: Result<int, Fault>, f: Option<PyFloat>) {
    match f
    case None => r == Failure(RowError)
    case Some(Finite(x)) => r == Success(Trunc(x))
    case Some(NaN) => r == Failure(RowError)
    case Some(Inf(_)) => r == Failure(Fatal)
  }

  /** A present cell's number is what `int(float(s))` makes of its text;
      the cell of a short line aborts the conversion. */
  lemma IntColumnReadsCell(row: CsvRow, column: string, default: int, parse: string -> Option<PyFloat>)
    requires column in row
    ensures row[column].ShortRow? ==> IntColumn(row, column, default, parse) == Failure(Fatal)
    ensures row[column].Present? ==> IntColumnOfCell(IntColumn(row, column, default, parse), parse(row[column].s))
  {
  }

  /** One side of the trade: the stripped description and the price. */
  datatype Side = Side(description: string, price: PyFloat)

  /** The description then the price of one side, in dict-literal order;
      missing columns give an empty description and a price of 0. */
  function SideOf(row: CsvRow, descriptionColumn: string, priceColumn: string, parse: string -> Option<PyFloat>)
    : (r: Result<Side, Fault>)
    ensures r.Success? ==>
      var d := r.value.description;
      d == [] || (!IsPyWhitespace(d[0]) && !IsPyWhitespace(d[|d| - 1]))
    ensures descriptionColumn !in row ==> r.Success? ==> r.value.description == []
    ensures priceColumn !in row ==> r.Success? ==> r.value.price == Finite(0.0)
  {
    var descriptionCell := Get(row, descriptionColumn, PyStr(""));
    assert descriptionColumn !in row ==> Strip(descriptionCell) == Success([]) by {
      if descriptionColumn !in row {
        assert Trim("", IsPyWhitespace) == [];
      }
    }
    var description :- Strip(descriptionCell);
    var priceCell := Get(row, priceColumn, PyInt(0));
    assert priceColumn !in row ==> ToFloat(priceCell, parse) == Success(Finite(0.0));
    var price :- ToFloat(priceCell, parse);
    Success(Side(description, price))
  }

  /** A side read from present cells holds the description's text,
      stripped, and the price `float` reads; it fails exactly when the price
      text is not a number, or when the description cell belongs to a short
      line. */
  lemma SideOfReadsCells(row: CsvRow, descriptionColumn: string, priceColumn: string,
                         parse: string -> Option<PyFloat>)
    ensures var r := SideOf(row, descriptionColumn, priceColumn, parse);
      && (descriptionColumn in row && row[descriptionColumn].ShortRow? ==> r == Failure(Fatal))
      && (descriptionColumn in row && row[descriptionColumn].Present? && r.Success? ==>
            r.value.description == Trim(row[descriptionColumn].s, IsPyWhitespace))
      && (priceColumn in row && row[priceColumn].Present? && r.Success? ==>
            Some(r.value.price) == parse(row[priceColumn].s))
      && ((descriptionColumn !in row || row[descriptionColumn].Present?) &&
          priceColumn in row && row[priceColumn].Present? ==>
            (r.Success? <==> parse(row[priceColumn].s).Some?))
  {
  }

  /** The price and yield differentials, missing ones reading as 0. */
  function DiffsOf(row: CsvRow, parse: string -> Option<PyFloat>): (r: Result<(PyFloat, PyFloat), Fault>)
    ensures "price_differential" !in row ==> r.Success? ==> r.value.0 == Finite(0.0)
    ensures "yield_differential" !in row ==> r.Success? ==> r.value.1 == Finite(0.0)
    ensures "price_differential" !in row && "yield_differential" !in row ==> r.Success?
  {
    var priceDiff :- ToFloat(Get(row, "price_differential", PyInt(0)), parse);
    var yieldDiff :- ToFloat(Get(row, "yield_differential", PyInt(0)), parse);
    Success((priceDiff, yieldDiff))
  }

  /** Differentials read from present cells are what `float` reads. */
  lemma DiffsOfReadsCells(row: CsvRow, parse: string -> Option<PyFloat>)
    ensures var r := DiffsOf(row, parse);
      && ("price_differential" in row && row["price_differential"].Present? && r.Success? ==>
            Some(r.value.0) == parse(row["price_differential"].s))
      && ("yield_differential" in row && row["yield_differential"].Present? && r.Success? ==>
            Some(r.value.1) == parse(row["yield_differential"].s))
  {
  }

  /** The record built from the column results in dict-literal order: the
      first failure among them is the row's exception, as it is the first one
      Python raises. */
  function Assemble(priority: Result<int, Fault>, buy: Result<Side, Fault>, sell: Result<Side, Fault>,
                    diffs: Result<(PyFloat, PyFloat), Fault>, confidence: Result<int, Fault>,
                    signalStrength: string, durationMatch: bool, sectorMatch: bool)
    : (r: Result<SignalRecord, Fault>)
    ensures r.Success? <==> priority.Success? && buy.Success? && sell.Success? && diffs.Success? && confidence.Success?
    ensures r.Success? ==>
      && r.value.priority == priority.value && r.value.confidence == confidence.value
      && r.value.buyDescription == buy.value.description && r.value.buyPrice == buy.value.price
      && r.value.sellDescription == sell.value.description && r.value.sellPrice == sell.value.price
      && r.value.priceDiff == diffs.value.0 && r.value.yieldDiff == diffs.value.1
      && r.value.signalStrength == signalStrength
      && r.value.durationMatch == durationMatch && r.value.sectorMatch == sectorMatch
  {
    var p :- priority;
    var b :- buy;
    var s :- sell;
    var d :- diffs;
    var c :- confidence;
    Success(SignalRecord(
      p, b.description, b.price, s.description, s.price, d.0, d.1,
      signalStrength, c, durationMatch, sectorMatch))
  }

  /** The fault of a failed record is that of the first failed column, in
      dict-literal order. */
  lemma AssembleFirstFault(priority: Result<int, Fault>, buy: Result<Side, Fault>, sell: Result<Side, Fault>,
                           diffs: Result<(PyFloat, PyFloat), Fault>, confidence: Result<int, Fault>,
                           signalStrength: string, durationMatch: bool, sectorMatch: bool)
    ensures var r := Assemble(priority, buy, sell, diffs, confidence, signalStrength, durationMatch, sectorMatch);
      && (priority.Failure? ==> r == Failure(priority.error))
      && (priority.Success? && buy.Failure? ==> r == Failure(buy.error))
      && (priority.Success? && buy.Success? && sell.Failure? ==> r == Failure(sell.error))
      && (priority.Success? && buy.Success? && sell.Success? && diffs.Failure? ==> r == Failure(diffs.error))
      && (priority.Success? && buy.Success? && sell.Success? && diffs.Success? && confidence.Failure? ==>
            r == Failure(confidence.error))
  {
  }

  /** The per-row mapping: each column read with its default, the fields
      combined in the order the dict literal lists them. A missing
      `execution_priority` defaults to the 1-based row number. */
  function MapRow(row: CsvRow, rowNum: nat, parse: string -> Option<PyFloat>): Result<SignalRecord, Fault> {
    Assemble(
      IntColumn(row, "execution_priority", rowNum, parse),
      SideOf(row, "buy_description", "buy_price", parse),
      SideOf(row, "sell_description", "sell_price", parse),
      DiffsOf(row, parse),
      IntColumn(row, "confidence_score", 50, parse),
      MapSignalStrength(Get(row, "signal_strength", PyStr("MODERATE"))),
      MapBooleanMatch(Get(row, "duration_match", PyStr("False"))),
      MapBooleanMatch(Get(row, "sector_match", PyStr("False"))))
  }

  /** The uppercase form of the strength default is itself. */
  lemma ModerateDefault()
    ensures Upper("MODERATE") == "MODERATE"
  {
    UpperOfAsciiCapitals("MODERATE");
  }

  /** Columns the header lacks take their defaults: the row number for the
      priority, `MODERATE` for the strength, 50 for the confidence, false for
      both matches, 0 for the prices. */
  lemma MapRowDefaults(row: CsvRow, rowNum: nat, parse: string -> Option<PyFloat>)
    requires MapRow(row, rowNum, parse).Success?
    ensures var rec := MapRow(row, rowNum, parse).value;
      && ("execution_priority" !in row ==> rec.priority == rowNum)
      && ("signal_strength" !in row ==> rec.signalStrength == "MODERATE")
      && ("confidence_score" !in row ==> rec.confidence == 50)
      && ("duration_match" !in row ==> !rec.durationMatch)
      && ("sector_match" !in row ==> !rec.sectorMatch)
      && ("buy_price" !in row ==> rec.buyPrice == Finite(0.0))
      && ("sell_price" !in row ==> rec.sellPrice == Finite(0.0))
  {
    ModerateDefault();
    MapBooleanMatchWords();
  }

  /** A mapped record holds the numbers its row's cells say: the
      truncated number for the priority and the confidence. A cell of a
      short line aborts instead. */
  lemma MapRowReadsNumbers(row: CsvRow, rowNum: nat, parse: string -> Option<PyFloat>)
    requires MapRow(row, rowNum, parse).Success?
    ensures var rec := MapRow(row, rowNum, parse).value;
      && ("execution_priority" in row ==>
            row["execution_priority"].Present? &&
            IntColumnOfCell(Success(rec.priority), parse(row["execution_priority"].s)))
      && ("confidence_score" in row ==>
            row["confidence_score"].Present? &&
            IntColumnOfCell(Success(rec.confidence), parse(row["confidence_score"].s)))
  {
    var priority := IntColumn(row, "execution_priority", rowNum, parse);
    var confidence := IntColumn(row, "confidence_score", 50, parse);
    assert priority.Success? && confidence.Success?;
    if "execution_priority" in row {
      IntColumnReadsCell(row, "execution_priority", rowNum, parse);
    }
    if "confidence_score" in row {
      IntColumnReadsCell(row, "confidence_score", 50, parse);
    }
  }

  /** A mapped record holds the buy side as its cells say: the stripped
      description and the float read for the price. */
  lemma MapRowReadsBuySide(row: CsvRow, rowNum: nat, parse: string -> Option<PyFloat>)
    requires MapRow(row, rowNum, parse).Success?
    ensures var rec := MapRow(row, rowNum, parse).value;
      && ("buy_description" in row ==>
            row["buy_description"].Present? &&
            rec.buyDescription == Trim(row["buy_description"].s, IsPyWhitespace))
      && ("buy_price" in row ==>
            row["buy_price"].Present? && Some(rec.buyPrice) == parse(row["buy_price"].s))
  {
    var buy := SideOf(row, "buy_description", "buy_price", parse);
    assert buy.Success?;
    SideOfReadsCells(row, "buy_description", "buy_price", parse);
  }

  /** A mapped record holds the sell side as its cells say. */
  lemma MapRowReadsSellSide(row: CsvRow, rowNum: nat, parse: string -> Option<PyFloat>)
    requires MapRow(row, rowNum, parse).Success?
    ensures var rec := MapRow(row, rowNum, parse).value;
      && ("sell_description" in row ==>
            row["sell_description"].Present? &&
            rec.sellDescription == Trim(row["sell_description"].s, IsPyWhitespace))
      && ("sell_price" in row ==>
            row["sell_price"].Present? && Some(rec.sellPrice) == parse(row["sell_price"].s))
  {
    var sell := SideOf(row, "sell_description", "sell_price", parse);
    assert sell.Success?;
    SideOfReadsCells(row, "sell_description", "sell_price", parse);
  }

  /** A mapped record holds the differentials its cells say. */
  lemma MapRowReadsDiffs(row: CsvRow, rowNum: nat, parse: string -> Option<PyFloat>)
    requires MapRow(row, rowNum, parse).Success?
    ensures "price_differential" in row ==>
      row["price_differential"].Present? &&
      Some(MapRow(row, rowNum, parse).value.priceDiff) == parse(row["price_differential"].s)
    ensures "yield_differential" in row ==>
      row["yield_differential"].Present? &&
      Some(MapRow(row, rowNum, parse).value.yieldDiff) == parse(row["yield_differential"].s)
  {
    var diffs := DiffsOf(row, parse);
    DiffsOfReadsCells(row, parse);
    assert diffs.Success?;
  }

  /** The strength and match columns: a present cell is uppercased or
      matched against the accepted words; the cell of a short line gives
      `MODERATE` and false. */
  lemma MapRowReadsLabels(row: CsvRow, rowNum: nat, parse: string -> Option<PyFloat>)
    requires MapRow(row, rowNum, parse).Success?
    ensures var rec := MapRow(row, rowNum, parse).value;
      && ("signal_strength" in row ==>
            rec.signalStrength == if row["signal_strength"].Present? then Upper(row["signal_strength"].s) else "MODERATE")
      && ("duration_match" in row ==>
            (rec.durationMatch <==> row["duration_match"].Present? && Lower(row["duration_match"].s) in TruthyWords))
      && ("sector_match" in row ==>
            (rec.sectorMatch <==> row["sector_match"].Present? && Lower(row["sector_match"].s) in TruthyWords))
  {
  }

  /** A price strictly above 0; `nan` is not. */
  predicate IsPositive(p: PyFloat) {
    match p
    case Finite(x) => x > 0.0
    case NaN => false
    case Inf(negative) => !negative
  }

  /** The price skip test as written, `price <= 0`, which is false for
      `nan`. */
  predicate PriceRejectedAsWritten(p: PyFloat) {
    match p
    case Finite(x) => x <= 0.0
    case NaN => false
    case Inf(negative) => negative
  }

  /** The price skip test as intended: the price is not above 0. */
  predicate PriceRejected(p: PyFloat) {
    !IsPositive(p)
  }

  /** The two tests agree on every price except `nan`, which only the
      intended one rejects. */
  lemma PriceTestsDifferOnlyOnNaN(p: PyFloat)
    ensures p != NaN ==> (PriceRejectedAsWritten(p) <==> PriceRejected(p))
    ensures !PriceRejectedAsWritten(NaN) && PriceRejected(NaN)
  {
  }

  /** Why a row left no record. */
  datatype SkipReason = MalformedValue | MissingDescriptions | InvalidPrices

  /** What happens to one row. */
  datatype RowOutcome = Kept(record: SignalRecord) | Skipped(reason: SkipReason) | Aborted

  /** The fate of a mapped row under a given price test: a fatal exception
      ends the conversion, a `ValueError` skips the row, then the description
      test and the price test run in that order. */
  function Outcome(mapped: Result<SignalRecord, Fault>, priceRejected: PyFloat -> bool): (r: RowOutcome)
    ensures r.Aborted? <==> mapped == Failure(Fatal)
    ensures r == Skipped(MalformedValue) <==> mapped == Failure(RowError)
    ensures r == Skipped(MissingDescriptions) <==>
      mapped.Success? && (mapped.value.buyDescription == [] || mapped.value.sellDescription == [])
    ensures r.Kept? <==> (
      && mapped.Success? && mapped.value.buyDescription != [] && mapped.value.sellDescription != []
      && !priceRejected(mapped.value.buyPrice) && !priceRejected(mapped.value.sellPrice))
    ensures r.Kept? ==> r.record == mapped.value
  {
    match mapped
    case Failure(Fatal) => Aborted
    case Failure(RowError) => Skipped(MalformedValue)
    case Success(rec) =>
      if rec.buyDescription == [] || rec.sellDescription == [] then Skipped(MissingDescriptions)
      else if priceRejected(rec.buyPrice) || priceRejected(rec.sellPrice) then Skipped(InvalidPrices)
      else Kept(rec)
  }

  /** A mapped record whose descriptions were stripped. */
  predicate Stripped(rec: SignalRecord) {
    && (rec.buyDescription == [] ||
        (!IsPyWhitespace(rec.buyDescription[0]) && !IsPyWhitespace(rec.buyDescription[|rec.buyDescription| - 1])))
    && (rec.sellDescription == [] ||
        (!IsPyWhitespace(rec.sellDescription[0]) && !IsPyWhitespace(rec.sellDescription[|rec.sellDescription| - 1])))
  }

  /** Every mapped record has stripped descriptions. */
  lemma MapRowStripped(row: CsvRow, rowNum: nat, parse: string -> Option<PyFloat>)
    requires MapRow(row, rowNum, parse).Success?
    ensures Stripped(MapRow(row, rowNum, parse).value)
  {
  }

  /** A record that passes the skip tests as written: both descriptions
      non-blank and without surrounding whitespace, and neither price
      rejected by `price <= 0`, so each is above 0 or `nan`. */
  predicate PassesSkipTests(rec: SignalRecord) {
    && rec.buyDescription != [] && rec.sellDescription != []
    && Stripped(rec)
    && !PriceRejectedAsWritten(rec.buyPrice) && !PriceRejectedAsWritten(rec.sellPrice)
  }

  /** A record as the converter means to keep it: both descriptions
      non-blank and without surrounding whitespace, both prices above 0. */
  predicate KeptRecordValid(rec: SignalRecord) {
    && rec.buyDescription != [] && rec.sellDescription != []
    && Stripped(rec)
    && IsPositive(rec.buyPrice) && IsPositive(rec.sellPrice)
  }

  /** The skip tests as written: a mapped record is kept exactly when both
      descriptions are non-blank and neither price is `<= 0`. */
  function ClassifyAsWritten(mapped: Result<SignalRecord, Fault>): (r: RowOutcome)
    ensures r.Aborted? <==> mapped == Failure(Fatal)
    ensures r == Skipped(MalformedValue) <==> mapped == Failure(RowError)
    ensures r.Kept? <==> (
      && mapped.Success? && mapped.value.buyDescription != [] && mapped.value.sellDescription != []
      && !PriceRejectedAsWritten(mapped.value.buyPrice) && !PriceRejectedAsWritten(mapped.value.sellPrice))
    ensures r.Kept? ==> r.record == mapped.value
    ensures r.Kept? && Stripped(mapped.value) ==> PassesSkipTests(r.record)
  {
    Outcome(mapped, PriceRejectedAsWritten)
  }

  /** The skip tests with the intended price test: a mapped record is kept
      exactly when both descriptions are non-blank and both prices are above
      0. */
  function Classify(mapped: Result<SignalRecord, Fault>): (r: RowOutcome)
    ensures r.Aborted? <==> mapped == Failure(Fatal)
    ensures r == Skipped(MalformedValue) <==> mapped == Failure(RowError)
    ensures r.Kept? <==> (
      && mapped.Success? && mapped.value.buyDescription != [] && mapped.value.sellDescription != []
      && IsPositive(mapped.value.buyPrice) && IsPositive(mapped.value.sellPrice))
    ensures r.Kept? ==> r.record == mapped.value
    ensures r.Kept? && Stripped(mapped.value) ==> KeptRecordValid(r.record)
  {
    Outcome(mapped, PriceRejected)
  }

  /** A record the tests as written keep although its buy price is `nan`,
      breaking the promise that both prices are above 0; the intended test
      skips it. */
  lemma NaNPriceKeptAsWritten(rec: SignalRecord)
    requires rec.buyDescription != [] && rec.sellDescription != []
    requires rec.buyPrice == NaN && IsPositive(rec.sellPrice)
    ensures ClassifyAsWritten(Success(rec)) == Kept(rec)
    ensures !IsPositive(ClassifyAsWritten(Success(rec)).record.buyPrice)
    ensures Classify(Success(rec)) == Skipped(InvalidPrices)
  {
  }

  /** A row whose numeric columns other than the prices are absent, whose
      descriptions are not blank, whose buy price reads as `nan` and whose
      sell price reads as 10. */
  predicate NaNPriceRowShape(row: CsvRow, parse: string -> Option<PyFloat>) {
    && "execution_priority" !in row && "confidence_score" !in row
    && "price_differential" !in row && "yield_differential" !in row
    && "buy_description" in row && row["buy_description"].Present?
    && Trim(row["buy_description"].s, IsPyWhitespace) != []
    && "sell_description" in row && row["sell_description"].Present?
    && Trim(row["sell_description"].s, IsPyWhitespace) != []
    && "buy_price" in row && row["buy_price"].Present? && parse(row["buy_price"].s) == Some(NaN)
    && "sell_price" in row && row["sell_price"].Present? && parse(row["sell_price"].s) == Some(Finite(10.0))
  }

  /** Such a row is kept by the loop with a `nan` price, and skipped by
      the intended test. */
  lemma NaNPriceRow(row: CsvRow, parse: string -> Option<PyFloat>)
    requires NaNPriceRowShape(row, parse)
    ensures MapRow(row, 1, parse).Success?
    ensures ConvertRow(row, 1, parse) == Kept(MapRow(row, 1, parse).value)
    ensures MapRow(row, 1, parse).value.buyPrice == NaN
    ensures ConvertRowIntended(row, 1, parse) == Skipped(InvalidPrices)
  {
    NaNRowMaps(row, parse);
    NaNPriceKeptAsWritten(MapRow(row, 1, parse).value);
  }

  lemma NaNRowMaps(row: CsvRow, parse: string -> Option<PyFloat>)
    requires NaNPriceRowShape(row, parse)
    ensures MapRow(row, 1, parse).Success?
    ensures var rec := MapRow(row, 1, parse).value;
      rec.buyDescription != [] && rec.sellDescription != [] && rec.buyPrice == NaN && IsPositive(rec.sellPrice)
  {
    var buy := SideOf(row, "buy_description", "buy_price", parse);
    var sell := SideOf(row, "sell_description", "sell_price", parse);
    assert buy.Success? && buy.value.price == NaN && buy.value.description != [];
    assert sell.Success? && sell.value.price == Finite(10.0) && sell.value.description != [];
    var priority := IntColumn(row, "execution_priority", 1, parse);
    var confidence := IntColumn(row, "confidence_score", 50, parse);
    var diffs := DiffsOf(row, parse);
    assert priority.Success? && confidence.Success? && diffs.Success?;
  }

  /** The whole conversion of that one row: the program returns the record
      with its `nan` price, where the intended converter returns `None`. */
  lemma NaNPriceConversion(row: CsvRow, parse: string -> Option<PyFloat>)
    requires NaNPriceRowShape(row, parse)
    ensures MapRow(row, 1, parse).Success?
    ensures ConvertCsvToJson([row], parse) == Some([MapRow(row, 1, parse).value])
    ensures ConvertCsvToJson([row], parse).value[0].buyPrice == NaN
    ensures ConvertCsvToJsonIntended([row], parse) == None
  {
    NaNPriceRow(row, parse);
    ConvertOneKept(row, parse, MapRow(row, 1, parse).value);
    ConvertIntendedOneSkipped(row, parse, InvalidPrices);
  }

  /** A lone row the loop keeps is the whole result. */
  lemma ConvertOneKept(row: CsvRow, parse: string -> Option<PyFloat>, rec: SignalRecord)
    requires ConvertRow(row, 1, parse) == Kept(rec)
    ensures ConvertCsvToJson([row], parse) == Some([rec])
  {
    NumberedMapOne(row, 1, Converter(parse));
    assert RowOutcomes([row], parse) == [Kept(rec)];
    FinishOne(rec);
  }

  /** A lone row the intended test skips leaves nothing. */
  lemma ConvertIntendedOneSkipped(row: CsvRow, parse: string -> Option<PyFloat>, reason: SkipReason)
    requires ConvertRowIntended(row, 1, parse) == Skipped(reason)
    ensures ConvertCsvToJsonIntended([row], parse) == None
  {
    NumberedMapOne(row, 1, IntendedConverter(parse));
    assert IntendedOutcomes([row], parse) == [Skipped(reason)];
    FinishSkipped(reason);
  }

  /** A single kept record is the whole result. */
  lemma FinishOne(rec: SignalRecord)
    ensures Finish([Kept(rec)]) == Some([rec])
  {
    CollectOne(rec);
    var r := Finish([Kept(rec)]).value;
    assert multiset(r) == multiset([rec]);
    assert |r| == |multiset(r)| == 1;
    assert r[0] in multiset(r);
    assert r == [r[0]];
  }

  /** Collecting a single kept record gives it alone. */
  lemma CollectOne(rec: SignalRecord)
    ensures Collect([Kept(rec)]) == Some([rec])
  {
    var outcomes := [Kept(rec)];
    assert outcomes[1..] == [];
    assert Collect(outcomes[1..]) == Some([]);
    assert [rec] + [] == [rec];
  }

  /** A single skipped row leaves nothing to convert. */
  lemma FinishSkipped(reason: SkipReason)
    ensures Finish([Skipped(reason)]) == None
  {
    assert !([Skipped(reason)][0].Kept?);
  }

  /** One row as the loop handles it. */
  function ConvertRow(row: CsvRow, rowNum: nat, parse: string -> Option<PyFloat>): RowOutcome {
    ClassifyAsWritten(MapRow(row, rowNum, parse))
  }

  /** A row the loop keeps yields a record that passes the skip tests. */
  lemma ConvertRowKeepsChecked(row: CsvRow, rowNum: nat, parse: string -> Option<PyFloat>)
    ensures ConvertRow(row, rowNum, parse).Kept? ==> PassesSkipTests(ConvertRow(row, rowNum, parse).record)
  {
    if MapRow(row, rowNum, parse).Success? {
      MapRowStripped(row, rowNum, parse);
    }
  }

  /** Each row's outcome, rows being numbered from 1 as `enumerate(reader,
      1)` numbers them. */
  function RowOutcomes(rows: seq<CsvRow>, parse: string -> Option<PyFloat>): (r: seq<RowOutcome>)
    ensures |r| == |rows|
    ensures forall i :: 0 <= i < |rows| ==> r[i] == ConvertRow(rows[i], i + 1, parse)
  {
    NumberedMap(rows, 1, Converter(parse))
  }

  /** `ConvertRow` with the float parser fixed, as a function value. */
  function Converter(parse: string -> Option<PyFloat>): (f: (CsvRow, nat) -> RowOutcome)
    ensures forall row, n :: f(row, n) == ConvertRow(row, n, parse)
  {
    (row: CsvRow, n: nat) => ConvertRow(row, n, parse)
  }

  /** `f` applied to each element and its number, counting from `first`. */
  function NumberedMap<A, B>(xs: seq<A>, first: nat, f: (A, nat) -> B): (r: seq<B>)
    ensures |r| == |xs|
    ensures forall i :: 0 <= i < |xs| ==> r[i] == f(xs[i], first + i)
  {
    seq(|xs|, i requires 0 <= i < |xs| => f(xs[i], first + i))
  }

  /** Numbering a single element. */
  lemma NumberedMapOne<A, B>(x: A, first: nat, f: (A, nat) -> B)
    ensures NumberedMap([x], first, f) == [f(x, first)]
  {
    assert [x][0] == x;
  }

  /** Every row the loop keeps passes the skip tests. */
  lemma RowOutcomesKeepChecked(rows: seq<CsvRow>, parse: string -> Option<PyFloat>)
    ensures forall i :: 0 <= i < |rows| && RowOutcomes(rows, parse)[i].Kept? ==>
      PassesSkipTests(RowOutcomes(rows, parse)[i].record)
  {
    forall i | 0 <= i < |rows|
      ensures RowOutcomes(rows, parse)[i].Kept? ==> PassesSkipTests(RowOutcomes(rows, parse)[i].record)
    {
      ConvertRowKeepsChecked(rows[i], i + 1, parse);
    }
  }

  /** The loop over the outcomes: the kept records in row order, or `None`
      once a row aborts the conversion. */
  function Collect(outcomes: seq<RowOutcome>): (r: Option<seq<SignalRecord>>)
    ensures r.None? <==> exists i :: 0 <= i < |outcomes| && outcomes[i].Aborted?
    ensures r.Some? ==> |r.value| <= |outcomes|
  {
    if outcomes == [] then Some([])
    else
      var rest := Collect(outcomes[1..]);
      assert forall i :: 0 < i < |outcomes| ==> outcomes[i] == outcomes[1..][i - 1];
      match outcomes[0]
      case Aborted => None
      case Skipped(_) => rest
      case Kept(rec) => if rest.Some? then Some([rec] + rest.value) else None
  }

  /** The collected records are exactly the kept ones, in row order. */
  lemma {:induction false} CollectMembers(outcomes: seq<RowOutcome>, rec: SignalRecord)
    requires Collect(outcomes).Some?
    ensures rec in Collect(outcomes).value <==> exists i :: 0 <= i < |outcomes| && outcomes[i] == Kept(rec)
  {
    if outcomes != [] {
      CollectMembers(outcomes[1..], rec);
      if exists i :: 0 <= i < |outcomes| && outcomes[i] == Kept(rec) {
        var i :| 0 <= i < |outcomes| && outcomes[i] == Kept(rec);
        if i > 0 {
          assert outcomes[1..][i - 1] == outcomes[i];
        }
      }
      if exists i :: 0 <= i < |outcomes[1..]| && outcomes[1..][i] == Kept(rec) {
        var i :| 0 <= i < |outcomes[1..]| && outcomes[1..][i] == Kept(rec);
        assert outcomes[i + 1] == outcomes[1..][i];
      }
    }
  }

  /** Nothing is collected exactly when no row is kept. */
  lemma {:induction false} CollectEmpty(outcomes: seq<RowOutcome>)
    requires Collect(outcomes).Some?
    ensures Collect(outcomes).value == [] <==> forall i :: 0 <= i < |outcomes| ==> !outcomes[i].Kept?
  {
    if outcomes != [] {
      CollectEmpty(outcomes[1..]);
      assert forall i :: 0 < i < |outcomes| ==> outcomes[i] == outcomes[1..][i - 1];
    }
  }

  /** The sort key, `lambda x: x['priority']`. */
  function PriorityKey(rec: SignalRecord): Option<real> {
    Some(rec.priority as real)
  }

  /** Records compare by key exactly as their priorities compare. */
  lemma PriorityKeyOrder(a: SignalRecord, b: SignalRecord)
    ensures PriorityKey(a).Some? && PriorityKey(b).Some?
    ensures PriorityKey(a).value <= PriorityKey(b).value <==> a.priority <= b.priority
  {
  }

  /** The end of the conversion, given each row's fate: `None` when a row
      aborts or no row is kept; otherwise the kept records, stably sorted by
      priority, ascending. */
  function Finish(outcomes: seq<RowOutcome>): (r: Option<seq<SignalRecord>>)
    ensures r.None? <==>
      (exists i :: 0 <= i < |outcomes| && outcomes[i].Aborted?) || (forall i :: 0 <= i < |outcomes| ==> !outcomes[i].Kept?)
    ensures r.Some? ==> var kept := Collect(outcomes).value;
      && r.value != []
      && multiset(r.value) == multiset(kept)
      && Sorted(r.value, PriorityKey, Ascending)
      && forall k :: Select(r.value, PriorityKey, k) == Select(kept, PriorityKey, k)
  {
    match Collect(outcomes)
    case None => None
    case Some(kept) =>
      CollectEmpty(outcomes);
      if kept == [] then None
      else
        assert AllKeysDefined(kept, PriorityKey);
        Some(Sort(kept, PriorityKey, Ascending))
  }

  /** A property every kept row has holds for every record of the result. */
  lemma FinishKeepsProperty(outcomes: seq<RowOutcome>, p: SignalRecord -> bool)
    requires forall i :: 0 <= i < |outcomes| && outcomes[i].Kept? ==> p(outcomes[i].record)
    ensures Finish(outcomes).Some? ==>
      forall j :: 0 <= j < |Finish(outcomes).value| ==> p(Finish(outcomes).value[j])
  {
    if Finish(outcomes).Some? {
      var kept := Collect(outcomes).value;
      var r := Finish(outcomes).value;
      forall j | 0 <= j < |r|
        ensures p(r[j])
      {
        assert r[j] in multiset(kept);
        CollectMembers(outcomes, r[j]);
        var i :| 0 <= i < |outcomes| && outcomes[i] == Kept(r[j]);
        assert p(outcomes[i].record);
      }
    }
  }

  /** The result is the only stable sort of the kept records by priority. */
  lemma FinishOrderIsUnique(outcomes: seq<RowOutcome>, b: seq<SignalRecord>)
    requires Finish(outcomes).Some?
    requires Sorted(b, PriorityKey, Ascending)
    requires forall k :: Select(b, PriorityKey, k) == Select(Collect(outcomes).value, PriorityKey, k)
    ensures b == Finish(outcomes).value
  {
    var kept := Collect(outcomes).value;
    assert AllKeysDefined(kept, PriorityKey);
    SortIsUnique(kept, b, PriorityKey, Ascending);
  }

  /** `convert_csv_to_json`: `None` when a row aborts the conversion or no
      row is kept; otherwise the kept records, stably sorted by priority,
      ascending. */
  function ConvertCsvToJson(rows: seq<CsvRow>, parse: string -> Option<PyFloat>): (r: Option<seq<SignalRecord>>)
    ensures var outcomes := RowOutcomes(rows, parse);
      r.None? <==>
        (exists i :: 0 <= i < |outcomes| && outcomes[i].Aborted?) || (forall i :: 0 <= i < |outcomes| ==> !outcomes[i].Kept?)
    ensures r.Some? ==> var kept := Collect(RowOutcomes(rows, parse)).value;
      && r.value != []
      && multiset(r.value) == multiset(kept)
      && Sorted(r.value, PriorityKey, Ascending)
      && forall k :: Select(r.value, PriorityKey, k) == Select(kept, PriorityKey, k)
  {
    Finish(RowOutcomes(rows, parse))
  }

  /** Every record the converter returns passes the skip tests: non-blank,
      stripped descriptions, and prices that are above 0 or `nan`. */
  lemma ConvertedRecordsChecked(rows: seq<CsvRow>, parse: string -> Option<PyFloat>)
    ensures ConvertCsvToJson(rows, parse).Some? ==>
      forall j :: 0 <= j < |ConvertCsvToJson(rows, parse).value| ==>
        PassesSkipTests(ConvertCsvToJson(rows, parse).value[j])
  {
    RowOutcomesKeepChecked(rows, parse);
    FinishKeepsProperty(RowOutcomes(rows, parse), PassesSkipTests);
  }

  /** The sorted output is the only stable sort of the kept records by
      priority. */
  lemma ConvertedOrderIsUnique(rows: seq<CsvRow>, parse: string -> Option<PyFloat>, b: seq<SignalRecord>)
    requires ConvertCsvToJson(rows, parse).Some?
    requires Sorted(b, PriorityKey, Ascending)
    requires forall k :: Select(b, PriorityKey, k) == Select(Collect(RowOutcomes(rows, parse)).value, PriorityKey, k)
    ensures b == ConvertCsvToJson(rows, parse).value
  {
    FinishOrderIsUnique(RowOutcomes(rows, parse), b);
  }

  /** One row with the intended price test. */
  function ConvertRowIntended(row: CsvRow, rowNum: nat, parse: string -> Option<PyFloat>): RowOutcome {
    Classify(MapRow(row, rowNum, parse))
  }

  /** A row the intended test keeps yields a valid record. */
  lemma ConvertRowKeepsValid(row: CsvRow, rowNum: nat, parse: string -> Option<PyFloat>)
    ensures ConvertRowIntended(row, rowNum, parse).Kept? ==>
      KeptRecordValid(ConvertRowIntended(row, rowNum, parse).record)
  {
    if MapRow(row, rowNum, parse).Success? {
      MapRowStripped(row, rowNum, parse);
    }
  }

  /** `ConvertRowIntended` with the float parser fixed, as a function
      value. */
  function IntendedConverter(parse: string -> Option<PyFloat>): (f: (CsvRow, nat) -> RowOutcome)
    ensures forall row, n :: f(row, n) == ConvertRowIntended(row, n, parse)
  {
    (row: CsvRow, n: nat) => ConvertRowIntended(row, n, parse)
  }

  /** Each row's outcome under the intended price test. */
  function IntendedOutcomes(rows: seq<CsvRow>, parse: string -> Option<PyFloat>): (r: seq<RowOutcome>)
    ensures |r| == |rows|
    ensures forall i :: 0 <= i < |rows| ==> r[i] == ConvertRowIntended(rows[i], i + 1, parse)
  {
    NumberedMap(rows, 1, IntendedConverter(parse))
  }

  /** Every row the intended test keeps is valid. */
  lemma IntendedOutcomesKeepValid(rows: seq<CsvRow>, parse: string -> Option<PyFloat>)
    ensures forall i :: 0 <= i < |rows| && IntendedOutcomes(rows, parse)[i].Kept? ==>
      KeptRecordValid(IntendedOutcomes(rows, parse)[i].record)
  {
    forall i | 0 <= i < |rows|
      ensures IntendedOutcomes(rows, parse)[i].Kept? ==> KeptRecordValid(IntendedOutcomes(rows, parse)[i].record)
    {
      ConvertRowKeepsValid(rows[i], i + 1, parse);
    }
  }

  /** The conversion with the intended price test `not price > 0`. */
  function ConvertCsvToJsonIntended(rows: seq<CsvRow>, parse: string -> Option<PyFloat>)
    : (r: Option<seq<SignalRecord>>)
    ensures var outcomes := IntendedOutcomes(rows, parse);
      r.None? <==>
        (exists i :: 0 <= i < |outcomes| && outcomes[i].Aborted?) || (forall i :: 0 <= i < |outcomes| ==> !outcomes[i].Kept?)
    ensures r.Some? ==> var kept := Collect(IntendedOutcomes(rows, parse)).value;
      && r.value != []
      && multiset(r.value) == multiset(kept)
      && Sorted(r.value, PriorityKey, Ascending)
      && forall k :: Select(r.value, PriorityKey, k) == Select(kept, PriorityKey, k)
  {
    Finish(IntendedOutcomes(rows, parse))
  }

  /** Every record the intended converter returns has non-blank, stripped
      descriptions and prices above 0. */
  lemma ConvertedRecordsValid(rows: seq<CsvRow>, parse: string -> Option<PyFloat>)
    ensures ConvertCsvToJsonIntended(rows, parse).Some? ==>
      forall j :: 0 <= j < |ConvertCsvToJsonIntended(rows, parse).value| ==>
        KeptRecordValid(ConvertCsvToJsonIntended(rows, parse).value[j])
  {
    IntendedOutcomesKeepValid(rows, parse);
    FinishKeepsProperty(IntendedOutcomes(rows, parse), KeptRecordValid);
  }

  /** A mapped row none of whose prices reads as `nan`. */
  predicate NoNaNPrice(mapped: Result<SignalRecord, Fault>) {
    mapped.Success? ==> mapped.value.buyPrice != NaN && mapped.value.sellPrice != NaN
  }

  /** Without a `nan` price, both price tests give a row the same fate. */
  lemma ClassifyAgrees(mapped: Result<SignalRecord, Fault>)
    requires NoNaNPrice(mapped)
    ensures ClassifyAsWritten(mapped) == Classify(mapped)
  {
    if mapped.Success? {
      PriceTestsDifferOnlyOnNaN(mapped.value.buyPrice);
      PriceTestsDifferOnlyOnNaN(mapped.value.sellPrice);
    }
  }

  /** The two converters agree on every input without a `nan` price. */
  lemma ConvertersAgreeWithoutNaN(rows: seq<CsvRow>, parse: string -> Option<PyFloat>)
    requires forall i :: 0 <= i < |rows| ==> NoNaNPrice(MapRow(rows[i], i + 1, parse))
    ensures ConvertCsvToJson(rows, parse) == ConvertCsvToJsonIntended(rows, parse)
  {
    OutcomesAgree(rows, parse);
    assert RowOutcomes(rows, parse) == IntendedOutcomes(rows, parse);
  }

  lemma OutcomesAgree(rows: seq<CsvRow>, parse: string -> Option<PyFloat>)
    requires forall i :: 0 <= i < |rows| ==> NoNaNPrice(MapRow(rows[i], i + 1, parse))
    ensures forall i :: 0 <= i < |rows| ==> RowOutcomes(rows, parse)[i] == IntendedOutcomes(rows, parse)[i]
  {
    forall i | 0 <= i < |rows|
      ensures RowOutcomes(rows, parse)[i] == IntendedOutcomes(rows, parse)[i]
    {
      ClassifyAgrees(MapRow(rows[i], i + 1, parse));
    }
  }

  /** The two programs differ on a price of exactly 0: the table accepts it,
      the converter skips the row. */
  lemma ZeroPriceDisagreement()
    ensures SignalsTable.MapPrice(Styles.Num(0.0), SignalsTable.Buy).Success?
    ensures PriceRejectedAsWritten(Finite(0.0)) && PriceRejected(Finite(0.0))
  {
  }

  /** Every finite price the converter keeps passes the table's price
      check. */
  lemma KeptPricesPassTableCheck(rec: SignalRecord)
    requires PassesSkipTests(rec)
    ensures rec.buyPrice.Finite? ==> SignalsTable.ValidPrice(Styles.Num(rec.buyPrice.x))
    ensures rec.sellPrice.Finite? ==> SignalsTable.ValidPrice(Styles.Num(rec.sellPrice.x))
  {
  }

  /** A description made of one character is blank to a side exactly when
      that side counts the character as whitespace. */
  lemma LoneCharBlank(c: char, ws: char -> bool)
    ensures Trim([c], ws) == [] <==> ws(c)
  {
    TrimEmptyIff([c], ws);
  }

  /** The two programs strip different characters: a description that is a
      lone byte order mark (U+FEFF) is blank to the table but not to the
      converter, and one that is a lone information separator (U+001C to
      U+001F) or next-line character (U+0085) the other way round. */
  lemma WhitespaceDisagreement(c: char)
    ensures c == '\U{FEFF}' ==> Trim([c], IsJsWhitespace) == [] && Trim([c], IsPyWhitespace) != []
    ensures ('\U{1C}' <= c <= '\U{1F}' || c == '\U{85}') ==>
      Trim([c], IsPyWhitespace) == [] && Trim([c], IsJsWhitespace) != []
  {
    LoneCharBlank(c, IsJsWhitespace);
    LoneCharBlank(c, IsPyWhitespace);
  }
}
