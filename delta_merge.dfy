/** Per-record delta merge of the time-series delta filter
    (`mergeInstances` in weka/filters/TimeSeriesDeltaFilter.java). */
module DeltaMerge {
  import opened Wrappers

  /** An attribute value: a number, or Weka's missing-value marker. */
  datatype Val = Missing | Num(x: real)

  /** A record: one value per attribute, a weight, and whether it is stored
      as a sparse instance. */
  datatype Instance = Instance(vals: seq<Val>, weight: real, sparse: bool)

  /** Both records belong to a format of `numAttributes` attributes. */
  predicate Conforms(source: Option<Instance>, dest: Instance, numAttributes: nat)
  {
    |dest.vals| == numAttributes && (source.Some? ==> |source.value.vals| == numAttributes)
  }

  /** The delta at slot `i` can be computed: the partner exists and neither
      value is missing. */
  predicate DeltaKnown(source: Option<Instance>, dest: Instance, i: nat)
  {
    source.Some? && i < |source.value.vals| && i < |dest.vals| &&
    source.value.vals[i].Num? && dest.vals[i].Num?
  }

  /** The value slot `i` of the merged record holds; `unassigned` is what a
      selected slot holds when its delta is not known. */
  function SlotValue(selected: nat -> bool, source: Option<Instance>, dest: Instance, i: nat, unassigned: Val): Val
    requires i < |dest.vals|
  {
    if !selected(i) then dest.vals[i]
    else if DeltaKnown(source, dest, i) then Num(dest.vals[i].x - source.value.vals[i].x)
    else unassigned
  }

  /** The merged record, slot by slot, with `dest`'s weight and storage kind. */
  function Merge(selected: nat -> bool, source: Option<Instance>, dest: Instance, unassigned: Val): Instance
  {
    Instance(seq(|dest.vals|, i requires 0 <= i < |dest.vals| => SlotValue(selected, source, dest, i, unassigned)),
             dest.weight, dest.sparse)
  }

  /** The per-slot rules of a merge: one value per attribute; unselected
      slots copy `dest`; selected slots hold current minus partner when both
      are known and `unassigned` otherwise. */
  lemma MergeSlots(selected: nat -> bool, source: Option<Instance>, dest: Instance, unassigned: Val, i: nat)
    requires i < |dest.vals|
    ensures |Merge(selected, source, dest, unassigned).vals| == |dest.vals|
    ensures !selected(i) ==> Merge(selected, source, dest, unassigned).vals[i] == dest.vals[i]
    ensures selected(i) && DeltaKnown(source, dest, i) ==>
      Merge(selected, source, dest, unassigned).vals[i] == Num(dest.vals[i].x - source.value.vals[i].x)
    ensures selected(i) && !DeltaKnown(source, dest, i) ==> Merge(selected, source, dest, unassigned).vals[i] == unassigned
  {
  }

  /** `mergeInstances` as written: a fresh value array of the output
      format's size, Java-initialised to 0.0; a selected slot is assigned
      only when its delta is known, so an unknown delta comes out as 0.0. */
  method MergeInstances(selected: nat -> bool, numAttributes: nat, source: Option<Instance>, dest: Instance)
    returns (inst: Instance)
    requires Conforms(source, dest, numAttributes)
    ensures inst == Merge(selected, source, dest, Num(0.0))
  {
    var vals := new Val[numAttributes](_ => Num(0.0));
    for i := 0 to vals.Length
      invariant forall j :: 0 <= j < i ==> vals[j] == SlotValue(selected, source, dest, j, Num(0.0))
      invariant forall j :: i <= j < vals.Length ==> vals[j] == Num(0.0)
    {
      if selected(i) {
        if source.Some? && !source.value.vals[i].Missing? && !dest.vals[i].Missing? {
          vals[i] := Num(dest.vals[i].x - source.value.vals[i].x);
        }
      } else {
        vals[i] := dest.vals[i];
      }
    }
    inst := Instance(vals[..], dest.weight, dest.sparse);
  }

  /** `mergeInstances` as its documentation describes it: a selected slot
      whose delta is not known is set to the missing value. */
  method MergeInstancesIntended(selected: nat -> bool, numAttributes: nat, source: Option<Instance>, dest: Instance)
    returns (inst: Instance)
    requires Conforms(source, dest, numAttributes)
    ensures inst == Merge(selected, source, dest, Missing)
  {
    var vals := new Val[numAttributes](_ => Num(0.0));
    for i := 0 to vals.Length
      invariant forall j :: 0 <= j < i ==> vals[j] == SlotValue(selected, source, dest, j, Missing)
    {
      if selected(i) {
        if source.Some? && !source.value.vals[i].Missing? && !dest.vals[i].Missing? {
          vals[i] := Num(dest.vals[i].x - source.value.vals[i].x);
        } else {
          vals[i] := Missing;
        }
      } else {
        vals[i] := dest.vals[i];
      }
    }
    inst := Instance(vals[..], dest.weight, dest.sparse);
  }

  /** Adds the partner's value back into every selected slot where both are
      numbers: the inverse of taking deltas. */
  function Undelta(selected: nat -> bool, partner: seq<Val>, merged: seq<Val>): seq<Val>
    requires |partner| == |merged|
  {
    seq(|merged|, i requires 0 <= i < |merged| =>
      if selected(i) && merged[i].Num? && partner[i].Num? then Num(merged[i].x + partner[i].x) else merged[i])
  }

  /** When the partner exists and every selected slot is known on both
      sides, the merged record together with the partner determines the
      current record: adding the partner back restores it. */
  lemma RestoreDest(selected: nat -> bool, source: Instance, dest: Instance, unassigned: Val)
    requires |source.vals| == |dest.vals|
    requires forall i :: 0 <= i < |dest.vals| && selected(i) ==> DeltaKnown(Some(source), dest, i)
    ensures Undelta(selected, source.vals, Merge(selected, Some(source), dest, unassigned).vals) == dest.vals
  {
  }

  /** With the intended rule, a slot of the merged record is missing exactly
      when it is selected and its delta unknown, or unselected and missing
      in `dest`. */
  lemma IntendedMissingIff(selected: nat -> bool, source: Option<Instance>, dest: Instance, i: nat)
    requires i < |dest.vals|
    ensures Merge(selected, source, dest, Missing).vals[i] == Missing <==>
      (selected(i) && !DeltaKnown(source, dest, i)) || (!selected(i) && dest.vals[i] == Missing)
  {
  }

  /** With the intended rule, a record whose partner is absent never equals
      one whose partner is present with a known delta at a selected slot. */
  lemma IntendedSeesAbsentPartner(selected: nat -> bool, source: Instance, dest: Instance, i: nat)
    requires i < |dest.vals| && selected(i) && DeltaKnown(Some(source), dest, i)
    ensures Merge(selected, None, dest, Missing) != Merge(selected, Some(source), dest, Missing)
  {
    assert Merge(selected, None, dest, Missing).vals[i] == Missing;
    assert Merge(selected, Some(source), dest, Missing).vals[i].Num?;
  }

  /** The code as written cannot tell an absent partner from a partner whose
      values equal the current record's: for every selection and every
      record, both merges give the same record, with 0.0 in each selected
      slot. */
  lemma AsWrittenAbsentPartnerLooksLikeZeroDelta(selected: nat -> bool, dest: Instance)
    ensures Merge(selected, None, dest, Num(0.0)) == Merge(selected, Some(dest), dest, Num(0.0))
    ensures forall i :: 0 <= i < |dest.vals| && selected(i) ==> Merge(selected, None, dest, Num(0.0)).vals[i] == Num(0.0)
  {
  }
}
