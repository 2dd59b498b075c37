/** Output-format derivation of the time-series delta filter
    (`inputFormat` in weka/filters/TimeSeriesDeltaFilter.java). */
module DeltaSchema {
  import opened Wrappers
  import opened Decimal

  /** An attribute of the format: its name and whether it is numeric. */
  datatype Attr = Attr(name: string, numeric: bool)

  /** The exception `inputFormat` throws. */
  datatype FilterError = UnsupportedAttributeType(message: string)

  const NonNumericMessage: string := "Time delta attributes must be numeric!"

  /** What is appended to the name of a selected attribute: " d", then '-'
      for a negative offset and '+' otherwise, then `Math.abs(offset)` in
      decimal. At `Integer.MIN_VALUE` Java's `Math.abs` stays negative and
      the suffix reads " d--2147483648". */
  function DeltaSuffix(instanceRange: int32): (s: string)
    ensures |s| >= 4 && s[..2] == " d"
    ensures s[2] == '-' <==> instanceRange < 0
    ensures s[2] == '+' <==> instanceRange >= 0
    ensures instanceRange != MIN_VALUE ==> s[3..] == NatToDecimal(Magnitude(instanceRange as int))
    ensures instanceRange == MIN_VALUE ==> s[3..] == "-" + NatToDecimal(0x8000_0000)
  {
    " d" + [if instanceRange < 0 then '-' else '+'] + IntToDecimal(Abs(instanceRange) as int)
  }

  /** Different offsets give different suffixes, so a renamed attribute
      records the offset that produced it. */
  lemma SuffixInjective(a: int32, b: int32)
    requires DeltaSuffix(a) == DeltaSuffix(b)
    ensures a == b
  {
    var s := DeltaSuffix(a);
    if a == MIN_VALUE || b == MIN_VALUE {
      // Only the MIN_VALUE suffix has a '-' after the sign character.
      assert s[3] == '-';
      assert IsDigit(NatToDecimal(Magnitude(a as int))[0]) && IsDigit(NatToDecimal(Magnitude(b as int))[0]);
    } else {
      NatToDecimalInjective(Magnitude(a as int), Magnitude(b as int));
    }
  }

  /** Some attribute in range of the selection is not numeric. */
  predicate SelectsNonNumeric(format: seq<Attr>, selected: nat -> bool)
  {
    exists i :: 0 <= i < |format| && selected(i) && !format[i].numeric
  }

  /** `output` is `input` with each selected attribute renamed by the delta
      suffix and every other attribute left exactly as it was. */
  predicate IsDeltaFormat(input: seq<Attr>, selected: nat -> bool, instanceRange: int32, output: seq<Attr>)
  {
    |output| == |input| &&
    forall i :: 0 <= i < |input| ==>
      output[i] == if selected(i) then Attr(input[i].name + DeltaSuffix(instanceRange), input[i].numeric) else input[i]
  }

  /** Copies the input format and renames the selected attributes in index
      order, failing at the first selected attribute that is not numeric. */
  method DeriveOutputFormat(instanceInfo: seq<Attr>, selected: nat -> bool, instanceRange: int32)
    returns (r: Result<seq<Attr>, FilterError>)
    ensures r.Failure? <==> SelectsNonNumeric(instanceInfo, selected)
    ensures r.Failure? ==> r.error == UnsupportedAttributeType(NonNumericMessage)
    ensures r.Success? ==> IsDeltaFormat(instanceInfo, selected, instanceRange, r.value)
  {
    // The suffix depends only on the offset, so it is the same on every iteration.
    var suffix := DeltaSuffix(instanceRange);
    var outputFormat := instanceInfo;
    for i := 0 to |instanceInfo|
      invariant |outputFormat| == |instanceInfo|
      invariant forall j :: 0 <= j < i && selected(j) ==> instanceInfo[j].numeric
      invariant forall j :: 0 <= j < |instanceInfo| ==>
        outputFormat[j] == if j < i && selected(j) then Attr(instanceInfo[j].name + suffix, true) else instanceInfo[j]
    {
      if selected(i) {
        if outputFormat[i].numeric {
          outputFormat := outputFormat[i := Attr(outputFormat[i].name + suffix, outputFormat[i].numeric)];
        } else {
          return Failure(UnsupportedAttributeType(NonNumericMessage));
        }
      }
    }
    return Success(outputFormat);
  }

  /** Undoes the renaming: strips the delta suffix from every selected
      attribute that carries it. */
  function StripDeltaSuffix(output: seq<Attr>, selected: nat -> bool, instanceRange: int32): seq<Attr>
  {
    var suffix := DeltaSuffix(instanceRange);
    seq(|output|, i requires 0 <= i < |output| =>
      var a := output[i];
      if selected(i) && |a.name| >= |suffix| && a.name[|a.name| - |suffix|..] == suffix
      then Attr(a.name[..|a.name| - |suffix|], a.numeric)
      else a)
  }

  /** The output format determines the input format: stripping the suffix
      restores every attribute name and kind. */
  lemma RestoreInputFormat(input: seq<Attr>, selected: nat -> bool, instanceRange: int32, output: seq<Attr>)
    requires IsDeltaFormat(input, selected, instanceRange, output)
    ensures StripDeltaSuffix(output, selected, instanceRange) == input
  {
  }

  /** Renaming under two different offsets gives every selected attribute
      two different names. */
  lemma OffsetsGiveDistinctNames(input: seq<Attr>, selected: nat -> bool, a: int32, b: int32,
                                 outA: seq<Attr>, outB: seq<Attr>, i: nat)
    requires IsDeltaFormat(input, selected, a, outA) && IsDeltaFormat(input, selected, b, outB)
    requires i < |input| && selected(i) && a != b
    ensures outA[i].name != outB[i].name
  {
    var base := input[i].name;
    if outA[i].name == outB[i].name {
      var sa, sb := DeltaSuffix(a), DeltaSuffix(b);
      assert sa == (base + sa)[|base|..];
      assert sb == (base + sb)[|base|..];
      SuffixInjective(a, b);
    }
  }
}
