# HYG signals table and CSV converter, in Dafny

This project models the data path of the HYG relative-value signals table, written in Dafny.

## What is modelled

A signal pairs an HYG bond to sell with one to buy. It carries two prices, a price and a yield differential, a strength label (`WEAK`, `MODERATE`, `STRONG`), a confidence score and two match flags. The pieces modelled are:

- **The converter** (`convert_csv_to_json.py`). It reads the signal engine's CSV rows and maps each one to a record. Rows with a blank description, a price `<= 0` or a malformed number are skipped, and the kept records are sorted by priority. `ConvertCsvToJson` is the program as written, so a row whose price reads as `nan` is kept. `ConvertCsvToJsonIntended` is the same conversion with the evidently intended test "both prices above 0"; the two agree on every file without a `nan` price (see Findings).
- **The transform** (`transformSignalData` in `HYGSignalsTable.tsx`). It validates one untrusted input record field by field, in a fixed order. Either it throws a `ValidationError` naming the first bad field, or it builds the display record.
- **The hook** (`useTransformedSignals`). It transforms a batch and drops the records that fail, logging them. When a sort column and a direction are both given, it sorts the survivors with a stable sort.
- **The style helpers** (`katana-hyg-signals-styles.css.ts`): `getSignalClassName`, `formatPrice`, `formatPercentage`, `getValueClassName`, `clampConfidence`, and the record shapes `HYGSignalData` and `TransformedSignalData`.

The modules are:

- `Wrappers`: the `Option` and `Result` types.
- `Text`: trimming with JavaScript's and Python's whitespace sets, case mapping, removal of the first occurrence of a character, and `join`.
- `Decimal`: `toString` of a priority, `toFixed(2)`, `Math.round`, `parseInt` and `parseFloat`.
- `StableSort`: a stable insertion sort driven by the hook's comparator.
- `FilterMap`: map-then-filter-out-failures.
- `Styles`: the style helpers.
- `SignalsTable`: the nine field mappers and `transformSignalData`.
- `TransformedSignals`: the hook's body.
- `SignalRow`: the choice of style for a differential cell in the row renderer.
- `CsvToJson`: the converter.

Modelling conventions:

- **JavaScript numbers** are their exact values as `real`. `NaN` and the infinities are a single `NonFinite` value, because every mapper rejects them alike.
- **Rounding.** Both round the exact value. `toFixed(2)` rounds the magnitude and then prefixes `-` for a negative value, so a tie goes away from zero. `Math.round` sends a tie towards +infinity.
- **Python floats** are `Finite(x)`, `NaN` or `Inf(sign)`.
- **Python's `float()` on a string** is a parameter `parse` of the conversion.
- **Python exceptions.** A `ValueError` in a row skips that row. A `TypeError`, `AttributeError` or `OverflowError` escapes the per-row handler and makes the whole conversion return `None`. A `TypeError` or `AttributeError` comes from the `None` cell of a short CSV line; an `OverflowError` comes from `int(float('inf'))`.

Where the code and its design notes disagree, the model follows the code:

- **No default sort.** The hook sorts only when both `sortBy` and `sortDirection` are non-empty. Otherwise the records keep their input order; the hook itself does not sort them by priority. The table component passes `sortBy = 'priority'` and `sortDirection = 'ASC'` by default (`HYGSignalsTable.tsx:254-255`), so a table rendered without sort props is still sorted by priority, ascending.
- **Class names.** The differential classes are `positiveValue` and `negativeValue`, not `positive` and `negative`. The row renderer compares against the latter; see Findings.
- **Differentials sort by magnitude.** A differential is shown without its sign, and the sort reads the shown text back. So sorting by `price_diff` or `yield_diff` orders by magnitude, rounded to hundredths.
- **Price 0.** `mapPrice` accepts 0, although its message says "positive". The converter rejects 0.
- **Whitespace.** The table and the converter strip different whitespace sets: `trim` removes U+FEFF, while `strip` removes U+001C..U+001F and U+0085.

## Model

| member | source | states |
|---|---|---|
| Text.TrimStart | HYGSignalsTable.tsx:39 | the result is a suffix of the input that does not start with whitespace, and every character dropped is whitespace |
| Text.TrimEnd | HYGSignalsTable.tsx:39 | the result is a prefix of the input that does not end with whitespace, and every character dropped is whitespace |
| Text.Trim | HYGSignalsTable.tsx:36-39 | `trim()` returns the contiguous piece of the input starting at the trim offset, and that piece neither starts nor ends with whitespace |
| Text.TrimCutsWhitespace | HYGSignalsTable.tsx:39 | everything `trim()` removes, before and after the kept piece, is whitespace |
| Text.TrimEmptyIff | HYGSignalsTable.tsx:36 | the trimmed text is empty exactly when every character of the input is whitespace |
| Text.TrimIdempotent | HYGSignalsTable.tsx:39 | trimming a trimmed string changes nothing |
| Text.UpperChar | katana-hyg-signals-styles.css.ts:351 | one character uppercases to one to three characters, none of them an ASCII lowercase letter |
| Text.Upper | HYGSignalsTable.tsx:71 | uppercasing never shortens a string (sharp s becomes `SS`) |
| Text.UpperIsFixed | HYGSignalsTable.tsx:74 | every character of an uppercased string is left alone by uppercasing |
| Text.UpperAppend | HYGSignalsTable.tsx:71 | uppercasing distributes over concatenation |
| Text.UpperOfFixed | HYGSignalsTable.tsx:71 | a string of characters that uppercasing leaves alone is its own uppercase form |
| Text.UpperOfAsciiCapitals | katana-hyg-signals-styles.css.ts:351-357 | a label written in ASCII capitals, such as `STRONG`, is its own uppercase form |
| Text.UpperIdempotent | HYGSignalsTable.tsx:74-77 | uppercasing an uppercased label changes nothing |
| Text.LowerChar | convert_csv_to_json.py:21 | a lowercased character is not an ASCII capital and has the same uppercase form as the original |
| Text.Lower | convert_csv_to_json.py:21 | lowercasing keeps the length and lowercases each character in place |
| Text.LowerIdempotent | convert_csv_to_json.py:21 | lowercasing a lowercased string changes nothing |
| Text.UpperOfLower | convert_csv_to_json.py:21 | lowercasing first does not change the uppercase form |
| Text.RemoveFirst | HYGSignalsTable.tsx:148 | `replace('%', '')` leaves a string without `%` unchanged and otherwise removes exactly one character |
| Text.RemoveFirstCount | HYGSignalsTable.tsx:148 | the character removed is one occurrence of `%`; all other characters are kept |
| Text.RemoveFirstAt | HYGSignalsTable.tsx:148 | it is the first occurrence that goes, and everything before and after it stays in place |
| Text.Join | HYGSignalsTable.tsx:100 | joining no parts gives the empty string, one part gives that part, and two parts give the first, the separator and the second |
| Text.JoinEnds | HYGSignalsTable.tsx:100 | a joined string begins with the first part and ends with the last |
| Decimal.NatToDecimal | HYGSignalsTable.tsx:32 | `toString` of a non-negative integer is a non-empty string of digits that starts with `0` only for 0 itself |
| Decimal.DigitsValueOfDecimal | HYGSignalsTable.tsx:32 | the digits `toString` writes denote the number |
| Decimal.NatToDecimalInjective | HYGSignalsTable.tsx:32 | different priorities are shown as different index strings |
| Decimal.DigitRun | HYGSignalsTable.tsx:136 | the leading digit run consists of digits and stops at the first non-digit |
| Decimal.DigitRunOfPrefix | HYGSignalsTable.tsx:136 | a digit run followed by a non-digit is read exactly to its end |
| Decimal.ParseInt | HYGSignalsTable.tsx:136 | `parseInt` gives a number exactly when the string starts with a digit, and that number is non-negative |
| Decimal.ParseIntOfDecimal | HYGSignalsTable.tsx:136 | `parseInt(n.toString())` gives back `n` |
| Decimal.ParseFloat | HYGSignalsTable.tsx:144 | `parseFloat` of an unsigned literal is never negative |
| Decimal.ParseFloatOfPointed | HYGSignalsTable.tsx:144 | `parseFloat` of digits, a point and digits is the value of that decimal literal |
| Decimal.Round | HYGSignalsTable.tsx:88 | `Math.round` gives the nearest integer, and a tie goes up |
| Decimal.RoundUnique | HYGSignalsTable.tsx:88 | any integer within half below and less than half above a value is its `Math.round`, so the rounding is unique |
| Decimal.RoundMonotone | HYGSignalsTable.tsx:88 | rounding keeps order |
| Decimal.Abs | HYGSignalsTable.tsx:54 | the magnitude is non-negative and equals the value or its negation |
| Decimal.TwoDigits | katana-hyg-signals-styles.css.ts:368 | a number below 100 is written as exactly two digits that denote it |
| Decimal.Hundredths | katana-hyg-signals-styles.css.ts:368 | a count of hundredths is written unsigned as digits without leading zeros, a point and exactly two digits, with no `%` |
| Decimal.HundredthsValue | katana-hyg-signals-styles.css.ts:368 | the literal written for a count of hundredths denotes that count over 100 |
| Decimal.ParseFloatOfHundredths | katana-hyg-signals-styles.css.ts:368 | `parseFloat` reads back the count of hundredths over 100 |
| Decimal.Cents | katana-hyg-signals-styles.css.ts:368 | the number of hundredths `toFixed(2)` writes is within half a hundredth of the value |
| Decimal.ToFixed2 | katana-hyg-signals-styles.css.ts:368 | `toFixed(2)` is an optional minus sign, digits without leading zeros, a point and exactly two digits; the sign appears exactly for a negative value |
| Decimal.ToFixed2ReadBack | katana-hyg-signals-styles.css.ts:368 | `parseFloat(x.toFixed(2))` is `x` rounded to hundredths, which lies within half a hundredth of `x` |
| Styles.GetSignalClassName | katana-hyg-signals-styles.css.ts:350-363 | the class of an uppercased strength label; it has no contract of its own, and its meaning is stated by `SignalClassIgnoresCase` and `SignalClassOfLabels` |
| Styles.SignalClassIgnoresCase | katana-hyg-signals-styles.css.ts:350-363 | the class of a label does not depend on its case |
| Styles.SignalClassOfLabels | katana-hyg-signals-styles.css.ts:352-362 | `STRONG` maps to strong, `MODERATE` and `MEDIUM` to moderate, in any case; every other label maps to weak, and only those |
| Styles.FormatPrice | katana-hyg-signals-styles.css.ts:368 | a formatted price has the `toFixed(2)` shape, with a minus sign exactly when the price is negative |
| Styles.FormatPriceReadBack | katana-hyg-signals-styles.css.ts:368 | a non-negative formatted price reads back as the price rounded to cents |
| Styles.FormatPercentage | katana-hyg-signals-styles.css.ts:369 | a formatted percentage is the unsigned `toFixed(2)` shape of the magnitude (digits without leading zeros, a point, two digits) followed by `%` |
| Styles.FormatPercentageReadBack | katana-hyg-signals-styles.css.ts:369 | removing the `%` and reading the rest back gives the magnitude rounded to hundredths |
| Styles.FormatPercentageIgnoresSign | katana-hyg-signals-styles.css.ts:369 | a value and its negation are formatted alike |
| Styles.GetValueClassName | katana-hyg-signals-styles.css.ts:370 | the class is positive exactly when the value is at least 0, and its name is `positiveValue` or `negativeValue` |
| Styles.ClampConfidence | katana-hyg-signals-styles.css.ts:371 | the result lies in [0, 100]; values already there are unchanged, and values below or above go to the nearer bound |
| Styles.ClampProperties | katana-hyg-signals-styles.css.ts:371 | clamping is idempotent and monotone |
| SignalsTable.MapIndex | HYGSignalsTable.tsx:28-33 | succeeds exactly for an integer of at least 1, giving a digit string without a leading zero; otherwise the error names the priority field and its value |
| SignalsTable.MapIndexReadBack | HYGSignalsTable.tsx:32 | the index string reads back with `parseInt` as the priority itself |
| SignalsTable.MapBondDescription | HYGSignalsTable.tsx:35-40 | succeeds exactly for a string with a non-whitespace character; the name neither starts nor ends with whitespace; otherwise the error names the side's description field |
| SignalsTable.MapBondDescriptionTrims | HYGSignalsTable.tsx:39 | the bond name is the contiguous piece of the description starting where the leading whitespace ends |
| SignalsTable.MapBondDescriptionCuts | HYGSignalsTable.tsx:39 | all that is cut from the description, on either side of the name, is whitespace |
| SignalsTable.MapBondDescriptionStable | HYGSignalsTable.tsx:39 | trimming a bond name again changes nothing |
| SignalsTable.MapPrice | HYGSignalsTable.tsx:42-47 | succeeds exactly for a finite number of at least 0; the text has the unsigned `toFixed(2)` shape (digits without leading zeros, a point, two digits); otherwise the error names the side's price field |
| SignalsTable.MapPriceReadBack | HYGSignalsTable.tsx:46 | the price text reads back as the price rounded to cents, within half a cent of it |
| SignalsTable.MapPriceDiff | HYGSignalsTable.tsx:49-57 | succeeds exactly for a finite number; the text has the unsigned `toFixed(2)` shape, and the class is positive exactly when the difference is at least 0 |
| SignalsTable.MapPriceDiffReadBack | HYGSignalsTable.tsx:54 | the text reads back as the magnitude rounded to cents |
| SignalsTable.MapYieldDiff | HYGSignalsTable.tsx:59-67 | succeeds exactly for a finite number; the text is the unsigned `toFixed(2)` shape followed by `%`, and the class follows the sign |
| SignalsTable.MapYieldDiffReadBack | HYGSignalsTable.tsx:64 | with the `%` removed, the text reads back as the magnitude rounded to hundredths |
| SignalsTable.DiffTextIgnoresSign | HYGSignalsTable.tsx:49-67 | a differential and its negation are shown with the same text; only the class tells them apart when they are non-zero |
| SignalsTable.MapSignalStrength | HYGSignalsTable.tsx:69-79 | succeeds exactly for a string whose uppercase form is one of the three labels; the value is that form, and the class matches the label |
| SignalsTable.MapConfidence | HYGSignalsTable.tsx:81-90 | succeeds exactly for a finite number; the percentage is the clamped confidence, which lies in [0, 100] and equals the input when that is in range, and the display is a whole number in decimal digits without a leading zero, followed by `%` |
| SignalsTable.MapConfidenceReadBack | HYGSignalsTable.tsx:88 | the display reads back as the rounded percentage, an integer between 0 and 100 |
| SignalsTable.MapMatches | HYGSignalsTable.tsx:92-101 | the text is the duration glyph, a space and the sector glyph when both flags are the boolean `true`, the one glyph when only one is, and empty when neither is |
| SignalsTable.ValidPrefixIff | HYGSignalsTable.tsx:103-114 | "the first n checks pass" means every field placed before position n is valid |
| SignalsTable.TransformSignalData | HYGSignalsTable.tsx:27-115 | succeeds exactly when no field is invalid, giving the display record; otherwise the error is the first invalid field in evaluation order |
| SignalsTable.FirstErrorIsFirstInvalid | HYGSignalsTable.tsx:103-114 | there is no error exactly when all fields are valid; an error names an invalid field and its raw value, and every field before it is valid |
| FilterMap.KeepSuccesses | HYGSignalsTable.tsx:120-127 | map-then-filter never yields more records than it was given |
| FilterMap.KeepSuccessesAppend | HYGSignalsTable.tsx:120-127 | filtering distributes over concatenation, so survivors keep their input order |
| FilterMap.KeepSuccessesMembers | HYGSignalsTable.tsx:120-127 | a result is kept exactly when some input produced it successfully |
| FilterMap.KeepSuccessesAll | HYGSignalsTable.tsx:120-127 | a property of every successful result holds for every kept result |
| FilterMap.KeepSuccessesLogged | HYGSignalsTable.tsx:120-127 | returns the kept results and, in increasing index order, exactly the failing indices with their errors; kept plus failed equals the input count |
| TransformedSignals.TransformAll | HYGSignalsTable.tsx:120-127 | the survivors of the transform, never more than the input records |
| TransformedSignals.TransformAllMembers | HYGSignalsTable.tsx:120-127 | a display record survives exactly when some input record is fully valid and displays as it |
| TransformedSignals.TransformBatch | HYGSignalsTable.tsx:120-127 | every dropped record is logged with its index and first validation error, in index order; no valid record is logged |
| TransformedSignals.PriorityKey | HYGSignalsTable.tsx:135-138 | the priority key is defined exactly when the index starts with a digit, and is never negative |
| TransformedSignals.ConfidenceKey | HYGSignalsTable.tsx:139-142 | the confidence key is always defined |
| TransformedSignals.PriceDiffKey | HYGSignalsTable.tsx:143-146 | the price-differential key, when defined, is never negative |
| TransformedSignals.YieldDiffKey | HYGSignalsTable.tsx:147-150 | the yield-differential key, when defined, is never negative |
| TransformedSignals.SortKeyFor | HYGSignalsTable.tsx:134-154 | the key of a sort column, an unknown column sorting by priority; it has no contract of its own, and `KeyDefinedOnDisplay` states that its key is defined on every display record |
| TransformedSignals.DirectionOf | HYGSignalsTable.tsx:157 | the comparator is reversed exactly when the direction is `DESC` |
| TransformedSignals.SortRequested | HYGSignalsTable.tsx:130 | both sort parameters are present and non-empty; it has no contract of its own, and `UseTransformedSignals` states what it decides |
| TransformedSignals.DisplayPriorityKey | HYGSignalsTable.tsx:135-138 | the priority sort key of a display record is the source priority |
| TransformedSignals.DisplayConfidenceKey | HYGSignalsTable.tsx:139-142 | the confidence sort key is the clamped source confidence |
| TransformedSignals.DisplayPriceDiffKey | HYGSignalsTable.tsx:143-146 | the price-differential sort key is the magnitude of the differential, rounded to cents |
| TransformedSignals.DisplayYieldDiffKey | HYGSignalsTable.tsx:147-150 | the yield-differential sort key is the magnitude of the differential, rounded to hundredths |
| TransformedSignals.KeyDefinedOnDisplay | HYGSignalsTable.tsx:134-154 | any sort column, unknown ones included, gives every display record a numeric key |
| TransformedSignals.KeysDefined | HYGSignalsTable.tsx:134-154 | no surviving record has a `NaN` key, so the comparator is a total preorder on the batch |
| TransformedSignals.UseTransformedSignals | HYGSignalsTable.tsx:118-163 | the output is a permutation of the survivors; without both sort parameters it is the survivors in input order; with them it is sorted and stable for every key |
| TransformedSignals.SortedOutputIsUnique | HYGSignalsTable.tsx:130-159 | any sorted, stable rearrangement of the survivors is the hook's output |
| TransformedSignals.PriceDiffKeyIgnoresSign | HYGSignalsTable.tsx:143-146 | two records whose price differentials have the same magnitude get the same sort key |
| TransformedSignals.YieldDiffKeyIgnoresSign | HYGSignalsTable.tsx:147-150 | two records whose yield differentials have the same magnitude get the same sort key |
| StableSort.Compare | HYGSignalsTable.tsx:156 | the comparator gives -1, 0 or 1, and 0 whenever a key is `NaN` |
| StableSort.Cmp | HYGSignalsTable.tsx:156-157 | the comparator gives -1, 0 or 1 in either direction, and 0 whenever a key is `NaN` |
| StableSort.CmpMeaning | HYGSignalsTable.tsx:156-157 | on numeric keys, "not after" means the keys are in order for the direction, and `DESC` negates the result |
| StableSort.SelectMembers | HYGSignalsTable.tsx:131-158 | the equal-key subsequence holds exactly the elements with that key |
| StableSort.SelectAppend | HYGSignalsTable.tsx:131-158 | the equal-key subsequence distributes over concatenation |
| StableSort.Insert | HYGSignalsTable.tsx:131-158 | insertion adds exactly the one element |
| StableSort.InsertSorted | HYGSignalsTable.tsx:131-158 | inserting into a sorted sequence keeps it sorted |
| StableSort.SelectInsert | HYGSignalsTable.tsx:131-158 | insertion puts the new element after all elements with an equal key |
| StableSort.Sort | HYGSignalsTable.tsx:131-158 | the result is a permutation; when every key is numeric it is sorted, and each group of equal keys keeps its input order |
| StableSort.InsertStep | HYGSignalsTable.tsx:131-158 | one insertion step keeps the sort's invariants |
| StableSort.InsertStepSorted | HYGSignalsTable.tsx:131-158 | one insertion step keeps the result sorted |
| StableSort.InsertStepStable | HYGSignalsTable.tsx:131-158 | one insertion step keeps every equal-key group in input order |
| StableSort.SortedBySelectUnique | HYGSignalsTable.tsx:131-158 | two sorted sequences with the same equal-key groups are equal |
| StableSort.HeadKeyBound | HYGSignalsTable.tsx:131-158 | the first element of a sorted sequence has a key no later than the first element of any rearrangement |
| StableSort.SortIsUnique | HYGSignalsTable.tsx:131-158 | the sort's result is the only sorted, stable rearrangement, so any stable sort gives it |
| StableSort.Reverse | HYGSignalsTable.tsx:157 | reversal keeps the length and mirrors the positions |
| StableSort.ReverseAppend | HYGSignalsTable.tsx:157 | reversing a concatenation reverses the order of the parts |
| StableSort.SelectReverse | HYGSignalsTable.tsx:157 | the equal-key groups of a reversal are the reversed groups |
| StableSort.DistinctKeysSelectSmall | HYGSignalsTable.tsx:157 | with distinct keys, every equal-key group has at most one element |
| StableSort.DescendingReversesAscending | HYGSignalsTable.tsx:157 | with distinct keys, `DESC` is the reverse of `ASC` |
| SignalRow.DiffCellStyleAsWritten | HYGSignalsTable.tsx:208 | the differential cell style as written, comparing with `positive`; it has no contract of its own, and `DiffCellStyleAsWrittenAlwaysNegative` states its outcome |
| SignalRow.DiffCellStyleAsWrittenAlwaysNegative | HYGSignalsTable.tsx:208 | as written, every differential cell is drawn in the negative style |
| SignalRow.PositiveDiffDrawnNegative | HYGSignalsTable.tsx:205-211 | a positive differential of 58.60 gets the positive class but is drawn in the negative style |
| SignalRow.DiffCellStyleFollowsSign | HYGSignalsTable.tsx:205-219 | corrected, a cell is drawn positive exactly when the differential is at least 0, in both columns |
| CsvToJson.Get | convert_csv_to_json.py:52-62 | an absent column gives the default, and a present one gives its text or `None` |
| CsvToJson.MapSignalStrength | convert_csv_to_json.py:12-16 | a string is uppercased, so it never gets shorter; any other value gives `MODERATE` |
| CsvToJson.MapSignalStrengthIdempotent | convert_csv_to_json.py:12-16 | mapping a mapped strength again changes nothing |
| CsvToJson.MapBooleanMatch | convert_csv_to_json.py:18-22 | a string is true exactly when its lowercase form is `true`, `1` or `yes`; `None` is false |
| CsvToJson.MapBooleanMatchIgnoresCase | convert_csv_to_json.py:21 | the answer does not depend on the case of the text |
| CsvToJson.MapBooleanMatchWords | convert_csv_to_json.py:21 | `TRUE` and `Yes` are true, and the default `False` is false |
| CsvToJson.ToFloat | convert_csv_to_json.py:54 | `float()` of an integer default is that number; of `None` it is fatal; of text it fails, skipping the row, exactly when the text is not a float literal |
| CsvToJson.ToFloatReads | convert_csv_to_json.py:54 | `float()` of text is the value the float parser reads from it, and of a boolean it is 1 or 0 |
| CsvToJson.Trunc | convert_csv_to_json.py:52 | `int()` truncates towards zero |
| CsvToJson.IntOfFloat | convert_csv_to_json.py:52 | `int()` succeeds exactly on finite floats; `nan` skips the row, and an infinity is fatal |
| CsvToJson.IntOfFloatTruncates | convert_csv_to_json.py:52 | `int()` of a finite float is that float truncated towards zero |
| CsvToJson.Strip | convert_csv_to_json.py:53 | `strip()` succeeds exactly on text, and the result neither starts nor ends with Python whitespace; on `None` it is fatal |
| CsvToJson.StripTrims | convert_csv_to_json.py:53 | `strip()` of text removes exactly the leading and trailing Python whitespace |
| CsvToJson.IntColumn | convert_csv_to_json.py:52 | an absent priority or confidence column gives its default |
| CsvToJson.IntColumnReadsCell | convert_csv_to_json.py:52 | a present priority or confidence cell gives `int(float(text))`: the truncation of a finite value, a skipped row for text that is not a number or reads as `nan`, a fatal error for an infinity; the `None` cell of a short line is fatal |
| CsvToJson.SideOf | convert_csv_to_json.py:53-56 | the description is stripped; an absent description column gives an empty one, and an absent price column gives 0 |
| CsvToJson.SideOfReadsCells | convert_csv_to_json.py:53-56 | a present description cell gives its stripped text and a present price cell the float read from it; the side fails exactly when that price text is not a number; the description cell of a short line is fatal |
| CsvToJson.DiffsOf | convert_csv_to_json.py:57-58 | absent differential columns give 0 and cannot fail |
| CsvToJson.DiffsOfReadsCells | convert_csv_to_json.py:57-58 | present differential cells give the floats read from their text |
| CsvToJson.Assemble | convert_csv_to_json.py:51-63 | the record is built exactly when every field converts, and each field of the record is the value its conversion gave |
| CsvToJson.AssembleFirstFault | convert_csv_to_json.py:51-63 | a row whose fields do not all convert raises the error of the first failing field in dict-literal order |
| CsvToJson.MapRow | convert_csv_to_json.py:51-63 | the dict literal for one row, each column read with its default; it has no contract of its own, and what it yields is stated by `MapRowDefaults`, the `MapRowReads` lemmas and `MapRowStripped` |
| CsvToJson.MapRowDefaults | convert_csv_to_json.py:51-63 | each absent column takes its documented default: row number, 0, `MODERATE`, 50, false |
| CsvToJson.MapRowReadsNumbers | convert_csv_to_json.py:52-60 | in a mapped record the priority and the confidence are `int(float(text))` of their present cells; a mapped row has no `None` cell in those columns |
| CsvToJson.MapRowReadsBuySide | convert_csv_to_json.py:53-54 | in a mapped record the buy description is its cell stripped, and the buy price is the float read from its cell |
| CsvToJson.MapRowReadsSellSide | convert_csv_to_json.py:55-56 | in a mapped record the sell description is its cell stripped, and the sell price is the float read from its cell |
| CsvToJson.MapRowReadsDiffs | convert_csv_to_json.py:57-58 | in a mapped record the differentials are the floats read from their present cells |
| CsvToJson.MapRowReadsLabels | convert_csv_to_json.py:59-62 | in a mapped record the strength is its cell uppercased, or `MODERATE` for a short line, and each match flag is true exactly when its cell lowercased is `true`, `1` or `yes` |
| CsvToJson.PriceTestsDifferOnlyOnNaN | convert_csv_to_json.py:70 | the skip test as written and the intended "not positive" test agree except on `nan`, which only the intended one rejects |
| CsvToJson.Outcome | convert_csv_to_json.py:65-78 | given a price test: a fatal error aborts, a value error skips the row, a blank description skips it, and otherwise the row is kept exactly when neither price fails the test; a kept row carries its record |
| CsvToJson.MapRowStripped | convert_csv_to_json.py:53-55 | every mapped record has stripped descriptions |
| CsvToJson.ClassifyAsWritten | convert_csv_to_json.py:65-72 | the skip tests as written: a row is kept exactly when both descriptions are non-blank and neither price is `<= 0`, so a `nan` price passes; a kept stripped record passes the skip tests |
| CsvToJson.Classify | convert_csv_to_json.py:70 | the corrected half of the first finding: a row is kept exactly when both descriptions are non-blank and both prices are above 0, and a kept stripped record is valid |
| CsvToJson.NaNPriceKeptAsWritten | convert_csv_to_json.py:70-74 | as written, a record with a `nan` buy price is kept; corrected, it is skipped for invalid prices |
| CsvToJson.NaNPriceRow | convert_csv_to_json.py:48-74 | a CSV row whose buy price cell reads as `nan` maps, is kept by the loop with its `nan` price, and is skipped by the corrected test |
| CsvToJson.NaNPriceConversion | convert_csv_to_json.py:42-92 | as written, a one-row file whose buy price reads as `nan` converts to that record with its `nan` price, where the corrected converter returns `None` |
| CsvToJson.ConvertOneKept | convert_csv_to_json.py:74-92 | a one-row file whose row is kept converts to that record alone |
| CsvToJson.ConvertIntendedOneSkipped | convert_csv_to_json.py:65-89 | under the corrected test, a one-row file whose row is skipped converts to `None` |
| CsvToJson.FinishOne | convert_csv_to_json.py:87-92 | a single kept record comes back as a one-element list |
| CsvToJson.CollectOne | convert_csv_to_json.py:74 | collecting a single kept record gives that record alone |
| CsvToJson.FinishSkipped | convert_csv_to_json.py:87-89 | a single skipped row leaves no results, so the conversion returns `None` |
| CsvToJson.ConvertRow | convert_csv_to_json.py:49-78 | one pass of the row loop: the dict literal, then the skip tests as written; it has no contract of its own, and what it keeps is stated by `ConvertRowKeepsChecked` |
| CsvToJson.ConvertRowKeepsChecked | convert_csv_to_json.py:65-74 | every record the loop appends has non-blank, stripped descriptions and no price `<= 0` |
| CsvToJson.RowOutcomes | convert_csv_to_json.py:48 | rows are numbered from 1, and each row's fate depends only on that row and its number |
| CsvToJson.NumberedMap | convert_csv_to_json.py:48 | `enumerate(reader, first)` followed by the loop body: one result per row, the row at position i numbered first + i |
| CsvToJson.NumberedMapOne | convert_csv_to_json.py:48 | a lone row is numbered with the start number |
| CsvToJson.RowOutcomesKeepChecked | convert_csv_to_json.py:48-78 | every row of a file that the loop keeps passes the skip tests as written |
| CsvToJson.Collect | convert_csv_to_json.py:74-85 | collection fails exactly when some row aborts, and never yields more records than rows |
| CsvToJson.CollectMembers | convert_csv_to_json.py:74 | a record is collected exactly when some row kept it |
| CsvToJson.CollectEmpty | convert_csv_to_json.py:87-89 | nothing is collected exactly when no row is kept |
| CsvToJson.PriorityKey | convert_csv_to_json.py:92 | the sort key `x['priority']`; it has no contract of its own, and its order is stated by `PriorityKeyOrder` |
| CsvToJson.PriorityKeyOrder | convert_csv_to_json.py:92 | every record has a sort key, and two keys compare as the two priorities do |
| CsvToJson.Finish | convert_csv_to_json.py:74-92 | given each row's fate: `None` exactly when some row aborts or none is kept; otherwise a non-empty permutation of the kept records, sorted by priority, equal priorities in row order |
| CsvToJson.FinishKeepsProperty | convert_csv_to_json.py:74-92 | a property every kept row has holds for every returned record |
| CsvToJson.FinishOrderIsUnique | convert_csv_to_json.py:92 | any stable ascending sort by priority of the kept records is the returned list |
| CsvToJson.ConvertCsvToJson | convert_csv_to_json.py:42-92 | as written, with the `<= 0` price test: `None` exactly when some row aborts or none is kept; otherwise a non-empty permutation of the kept records, sorted by priority, equal priorities in file order |
| CsvToJson.ConvertedRecordsChecked | convert_csv_to_json.py:65-92 | every returned record has non-blank, stripped descriptions and prices that are above 0 or `nan` |
| CsvToJson.ConvertedOrderIsUnique | convert_csv_to_json.py:92 | any stable ascending sort by priority of the kept records gives the converter's output |
| CsvToJson.ConvertRowIntended | convert_csv_to_json.py:70 | one row with the corrected price test; it has no contract of its own, and what it keeps is stated by `ConvertRowKeepsValid` |
| CsvToJson.ConvertRowKeepsValid | convert_csv_to_json.py:70 | the corrected half of the first finding: every record the corrected test keeps has non-blank, stripped descriptions and positive prices |
| CsvToJson.IntendedOutcomes | convert_csv_to_json.py:70 | under the corrected test, rows are numbered from 1 and each row's fate depends only on that row and its number |
| CsvToJson.IntendedOutcomesKeepValid | convert_csv_to_json.py:70 | the corrected half of the first finding: every row the corrected test keeps from a file is valid |
| CsvToJson.ConvertCsvToJsonIntended | convert_csv_to_json.py:70 | the corrected half of the first finding: the conversion with the price test `not price > 0`, `None` exactly when some row aborts or none is kept, otherwise the kept records sorted stably by priority |
| CsvToJson.ConvertedRecordsValid | convert_csv_to_json.py:70 | the corrected half of the first finding: every record the corrected converter returns has non-blank, stripped descriptions and positive prices |
| CsvToJson.ClassifyAgrees | convert_csv_to_json.py:70 | for a record without a `nan` price, the test as written and the corrected test give the row the same fate |
| CsvToJson.OutcomesAgree | convert_csv_to_json.py:48-78 | when no row has a `nan` price, every row has the same outcome under both tests |
| CsvToJson.ConvertersAgreeWithoutNaN | convert_csv_to_json.py:42-92 | when no row has a `nan` price, the program and the corrected converter return the same result |
| CsvToJson.ZeroPriceDisagreement | convert_csv_to_json.py:70 | a price of 0 passes the table's price check but is rejected by the converter, under both price tests |
| CsvToJson.KeptPricesPassTableCheck | convert_csv_to_json.py:70 | every finite price of a record that passes the skip tests also passes the table's price check |
| CsvToJson.LoneCharBlank | convert_csv_to_json.py:53 | a one-character description is blank exactly when that character is whitespace |
| CsvToJson.WhitespaceDisagreement | convert_csv_to_json.py:53 | U+FEFF alone is blank to the table but not to the converter, and U+001C..U+001F and U+0085 are the other way round |

## Left out

- Reading the CSV file and writing the JSON file are not modelled. This covers `open`, the encoding, `FileNotFoundError`, `json.dump`, the write-failure path and `main()`: they are I/O. Rows arrive as maps from column name to cell text.
- CSV syntax is not modelled. This covers quoting, and the extra fields `csv.DictReader` files under the key `None`: it is parsing done by a library.
- Python's `float()` on text is a parameter of the conversion, because its grammar (signs, exponents, `inf`, `nan`, underscores) belongs to the runtime.
- The console messages are not modelled: the `print` calls in the converter and the `console.error` in the hook. The failures they report are returned as data (`TransformBatch`, `KeepSuccessesLogged`, `SkipReason`).
- `ValidationError` keeps its field and value; the message text is not modelled.
- React rendering is not modelled: memoisation by `useMemo`, the components, the styles object and keyboard handling. The one exception is the choice of differential style, which is a finding.
- `toFixed(2)` and `toString` for magnitudes of at least 10^21 (exponent notation) are not modelled: prices and priorities are far below that.
- `HYGSignalsTableProps` is not modelled: it is a type with no behaviour.
- Text.Upper: covers ASCII letters plus the letters whose uppercase form is ASCII (sharp s, dotless i, long s, and the ligatures ff, fi, fl, ffi, ffl and st of U+FB00..U+FB06). Other letters are left unchanged, because full Unicode case mapping is out of scope. Its contract gives only the length bound; the content is stated by `UpperIsFixed`, `UpperAppend` and `UpperIdempotent`.
- Text.Lower: lowercases only ASCII capitals. It is used only to compare with `true`, `1` and `yes`, where that suffices, as `MapBooleanMatchIgnoresCase` relies on.
- CsvToJson.MapSignalStrength: its contract gives the length and the non-string default. The uppercase content is `Text.Upper`, and idempotence is proved separately.
- Decimal.ParseInt: reads only a leading run of decimal digits. Leading whitespace, signs and radix prefixes are not modelled, because the index strings it reads never contain them.
- Decimal.ParseFloat: reads only unsigned `digits[.digits]`. Its contract gives non-negativity, and the read-back lemmas give its value on every string the table writes.
- StableSort.Compare: keys are numbers or `NaN`, which is what the four sort columns produce.
- A `signals` element that is `null` or not an object is not modelled: `transformSignalData` throws a `TypeError` on it, which the hook catches and logs like a `ValidationError`. The model's input records are always objects, with each field an arbitrary JavaScript value.
- JavaScript strings are sequences of UTF-16 code units; the model's strings are sequences of Unicode scalar values, so a lone surrogate cannot be represented.

## Findings

| source | as written | input that shows it | evidently intended | confidence | as-written member | corrected member |
|---|---|---|---|---|---|---|
| convert_csv_to_json.py:70 | a row is skipped when `buy_price <= 0 or sell_price <= 0` | a row whose `buy_price` cell is `nan` and which is otherwise valid: `nan <= 0` is false, so it is kept with a `nan` price | skip every row whose prices are not both positive, `nan` included | high; not executed | CsvToJson.NaNPriceConversion | CsvToJson.ConvertedRecordsValid |
| HYGSignalsTable.tsx:205-219 | the differential cells compare `cssClass === 'positive'` | a price differential of 58.60: `getValueClassName` gives `positiveValue`, the test fails, and the cell is drawn with the negative style | compare with `'positiveValue'`, so a cell is drawn positive exactly when the differential is at least 0 | high; not executed | SignalRow.PositiveDiffDrawnNegative | SignalRow.DiffCellStyleFollowsSign |
