# Time-series delta filter, modelled in Dafny

A Dafny model of the core of Weka's `TimeSeriesDeltaFilter`. The filter
treats a dataset's instances as a time series. For a chosen set of numeric
attributes, it replaces each instance's value with the difference between
that value and the same attribute's value in an instance a fixed number of
positions earlier (negative offset) or later (positive offset). The class
itself contributes two pieces, and both are modelled here:

- **Output-format derivation** (`inputFormat`). The filter copies the input
  format and walks its attributes in index order. Each selected attribute
  must be numeric, or the filter throws `UnsupportedAttributeTypeException`.
  A selected attribute is renamed to `name + " d" + sign + Math.abs(offset)`.
  Other attributes are left alone. On success the filter stores the result
  as its output format and returns true.
- **Per-record merge** (`mergeInstances(source, dest)`). This builds a new
  instance with one value per output attribute. Unselected slots copy
  `dest`. A selected slot gets `dest - source` when the partner exists and
  neither value is missing. Otherwise the slot is never assigned. The new
  instance takes `dest`'s weight and its sparse or dense kind.

Modules:

- `Wrappers`: `Option` (for Java's `null`) and `Result` (for a thrown
  exception).
- `Decimal`: Java's 32-bit `int`, `Math.abs`, and the decimal text that
  string concatenation prints for an `int`, with a parser as its inverse.
- `DeltaSchema`: attributes, the name suffix, and `DeriveOutputFormat`.
  This is the renaming loop of `inputFormat`, written as a method over a
  copied `seq<Attr>`.
- `DeltaMerge`: values (`Missing | Num(real)`), instances, and
  `MergeInstances`. This method fills a freshly allocated array slot by
  slot, as the Java code does. Both merge methods are proved equal to the
  specification function `Merge`, and the lemmas are about `Merge`.
- `DeltaFilter`: the class `TimeSeriesDeltaFilter`. It holds the selection,
  the offset and the output format. `InputFormat` sets the output format
  only on success. `MergeInstances` merges with the filter's own selection,
  sized by that output format.

Two behaviours of the code are modelled as written:

- A selected slot whose delta is unknown keeps the Java array default 0.0.
  It does not become a missing value, although the class comment says it
  does. See "## Findings".
- `Math.abs(Integer.MIN_VALUE)` is still negative. For that offset the
  suffix reads `" d--2147483648"`. `DeltaSuffix` states this case
  separately, and `SuffixInjective` shows that suffixes still identify
  their offsets.

## Model

| member | source | states |
|---|---|---|
| `Decimal.Abs` | weka/filters/TimeSeriesDeltaFilter.java:68 | `Math.abs` returns the argument or its negation. The result is negative exactly for `Integer.MIN_VALUE`. |
| `Decimal.NatToDecimal` | weka/filters/TimeSeriesDeltaFilter.java:65-68 | The printed number is a non-empty string of digits. It starts with '0' only when the number is 0, and then it is exactly "0". |
| `Decimal.DecimalRoundTrip` | weka/filters/TimeSeriesDeltaFilter.java:65-68 | Reading the printed digits back gives the number printed. |
| `Decimal.NatToDecimalInjective` | weka/filters/TimeSeriesDeltaFilter.java:65-68 | Different numbers print as different digit strings. |
| `Decimal.IntToDecimal` | weka/filters/TimeSeriesDeltaFilter.java:68 | An `int` prints with a leading '-' exactly when it is negative. Everything after that '-', or the whole text for a non-negative value, is digits. There is no leading zero: a non-negative value starting with '0' prints as exactly "0", and a negative value never has '0' right after its '-'. |
| `Decimal.IntRoundTrip` | weka/filters/TimeSeriesDeltaFilter.java:68 | Parsing the printed `int` gives that `int` back. |
| `DeltaSchema.DeltaSuffix` | weka/filters/TimeSeriesDeltaFilter.java:65-68 | The suffix is " d", then '-' exactly when the offset is negative and '+' otherwise, then the decimal form of the offset's magnitude. At `Integer.MIN_VALUE` it is "-2147483648" instead. |
| `DeltaSchema.SuffixInjective` | weka/filters/TimeSeriesDeltaFilter.java:65-68 | Two offsets with the same suffix are the same offset. |
| `DeltaSchema.DeriveOutputFormat` | weka/filters/TimeSeriesDeltaFilter.java:61-73 | The method fails with the non-numeric error exactly when some selected attribute is not numeric. On success the output has as many attributes as the input. Each selected attribute is renamed with the suffix and keeps its kind. Each unselected attribute is unchanged. |
| `DeltaSchema.RestoreInputFormat` | weka/filters/TimeSeriesDeltaFilter.java:61-73 | Stripping the suffix from the selected attributes of a derived format gives back the input format. |
| `DeltaSchema.OffsetsGiveDistinctNames` | weka/filters/TimeSeriesDeltaFilter.java:63-68 | Under two different offsets, a selected attribute gets two different names. |
| `DeltaFilter.TimeSeriesDeltaFilter.InputFormat` | weka/filters/TimeSeriesDeltaFilter.java:60-75 | When a selected attribute is not numeric, the method fails with `UnsupportedAttributeType`, and this method's own code does not set the output format. Otherwise it returns true and sets the output format to the derived format. |
| `DeltaFilter.TimeSeriesDeltaFilter.MergeInstances` | weka/filters/TimeSeriesDeltaFilter.java:89-103 | The merge uses the filter's own selection. Its result has one value per attribute of the output format that `InputFormat` set. It equals `Merge` with unknown deltas at 0.0. |
| `DeltaMerge.MergeSlots` | weka/filters/TimeSeriesDeltaFilter.java:93-102 | A merge has one value per attribute. An unselected slot equals `dest`'s value. A selected slot holds `dest - source` when both are known, and the unassigned value otherwise. |
| `DeltaMerge.MergeInstances` | weka/filters/TimeSeriesDeltaFilter.java:89-112 | The array-filling loop yields `Merge` with unassigned slots at 0.0, so an unknown delta becomes 0.0. The result keeps `dest`'s weight and sparse/dense kind. |
| `DeltaMerge.MergeInstancesIntended` | weka/filters/TimeSeriesDeltaFilter.java:14-20 | The corrected loop yields `Merge` with unknown deltas set to missing, as the class comment describes. |
| `DeltaMerge.RestoreDest` | weka/filters/TimeSeriesDeltaFilter.java:94-102 | Suppose the partner exists and every selected slot is known. Then adding the partner's values back into the merged record restores `dest`. |
| `DeltaMerge.IntendedMissingIff` | weka/filters/TimeSeriesDeltaFilter.java:37-40 | Under the corrected rule, a slot is missing exactly when it is selected with an unknown delta, or unselected and missing in `dest`. |
| `DeltaMerge.IntendedSeesAbsentPartner` | weka/filters/TimeSeriesDeltaFilter.java:18-20 | Under the corrected rule, an absent partner never gives the same record as a present partner with a known delta at a selected slot. |
| `DeltaMerge.AsWrittenAbsentPartnerLooksLikeZeroDelta` | weka/filters/TimeSeriesDeltaFilter.java:92-99 | Under the rule as written, for every selection and every record, having no partner gives the same merged record as a partner with the same values as the record. Every selected slot of that record is 0.0. |

## Left out

- The superclass `TimeSeriesTranslateFilter` is not part of this model. It is reached through `super.inputFormat` at line 59. It pairs each instance with its time-shifted partner, buffers lagging and leading instances, applies the drop-or-missing boundary policy and validates the offset. The merge takes its `(source, dest)` pair as input instead.
- `DeltaFilter.TimeSeriesDeltaFilter.InputFormat` models lines 60-75 only. The state changes made by `super.inputFormat` at line 59, and any exception it throws, are not modelled. So the model does not promise what the output format is after a failed call, beyond this method's own code not setting it.
- Parsing of the column range and its invert flag (`Range`) are left out. The selection is a predicate on attribute indices.
- Weka's `Instances`, `Attribute` and `SparseInstance` storage are left out. An instance keeps only its values, its weight and a sparse flag. `setDataset` (line 110) is not modelled.
- `outputFormatPeek()` (line 91) is the `numAttributes` parameter of `DeltaMerge.MergeInstances`. The class method `MergeInstances` supplies it from the output format it holds. Both records are required to have that many values, as every instance of the format does.
- Values are reals with an explicit `Missing` constructor. IEEE double rounding and NaN as the missing marker (line 98) are not modelled.
- `main` (lines 119-130) is left out. It is command-line and file I/O plumbing.
- Instances are immutable values here, so "neither `source` nor `dest` is modified" holds by construction rather than as a stated property.

## Findings

| source | as written | input that shows it | evidently intended | confidence | as-written member | corrected member |
|---|---|---|---|---|---|---|
| weka/filters/TimeSeriesDeltaFilter.java:92-99 | A selected slot with an unknown delta is never assigned. It keeps the array default 0.0. | One selected numeric attribute, `dest` value 3.0, no partner (`source` null). The output is 0.0, the same as for a partner whose value is 3.0. | A missing value, as the class comment says at lines 18-20 and 37-40. | high; not executed | `DeltaMerge.AsWrittenAbsentPartnerLooksLikeZeroDelta` | `DeltaMerge.IntendedMissingIff` |
