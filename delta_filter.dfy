/** The filter object's own state: the selected columns, the offset and the
    output format that `inputFormat` sets
    and `mergeInstances` reads (weka/filters/TimeSeriesDeltaFilter.java). */
module DeltaFilter {
  import opened Wrappers
  import opened Decimal
  import opened DeltaSchema
  import DeltaMerge

  class TimeSeriesDeltaFilter {
    /** `m_SelectedCols.isInRange`, resolved to a predicate on indices. */
    var selectedCols: nat -> bool
    /** `m_InstanceRange`: negative looks back, positive looks ahead. */
    var instanceRange: int32
    /** The output format, once `InputFormat` has set it. */
    var outputFormat: Option<seq<Attr>>

    constructor (selectedCols: nat -> bool, instanceRange: int32)
      ensures this.selectedCols == selectedCols && this.instanceRange == instanceRange
      ensures outputFormat == None
    {
      this.selectedCols := selectedCols;
      this.instanceRange := instanceRange;
      outputFormat := None;
    }

    /** Derives the output format from `instanceInfo`. On success it sets
        the output format and answers true; when a selected attribute is
        not numeric it fails, and its own code does not set the output
        format. The superclass call that precedes the renaming is not
        part of this model. */
    method InputFormat(instanceInfo: seq<Attr>) returns (r: Result<bool, FilterError>)
      modifies this`outputFormat
      ensures r.Failure? <==> SelectsNonNumeric(instanceInfo, selectedCols)
      ensures r.Failure? ==> r.error == UnsupportedAttributeType(NonNumericMessage) && outputFormat == old(outputFormat)
      ensures r.Success? ==> r.value && outputFormat.Some?
      ensures r.Success? ==> IsDeltaFormat(instanceInfo, selectedCols, instanceRange, outputFormat.value)
    {
      var derived := DeriveOutputFormat(instanceInfo, selectedCols, instanceRange);
      match derived
      case Failure(e) =>
        r := Failure(e);
      case Success(format) =>
        outputFormat := Some(format);
        r := Success(true);
    }

    /** `mergeInstances` on the filter: the selection is the filter's own and
        the number of slots is that of the output format `InputFormat` set. */
    method MergeInstances(source: Option<DeltaMerge.Instance>, dest: DeltaMerge.Instance) returns (inst: DeltaMerge.Instance)
      requires outputFormat.Some?
      requires DeltaMerge.Conforms(source, dest, |outputFormat.value|)
      ensures |inst.vals| == |outputFormat.value|
      ensures inst == DeltaMerge.Merge(selectedCols, source, dest, DeltaMerge.Num(0.0))
    {
      inst := DeltaMerge.MergeInstances(selectedCols, |outputFormat.value|, source, dest);
    }
  }
}
