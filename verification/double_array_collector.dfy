/** `DoubleArrayCollector`: collects fixed-width samples, feeding position i of every sample to
    sub-collector i. The first sample fixes the width. Each sub-collector is modelled by the
    samples it has received, in order (its statistics are not part of this model). */
module DoubleArrayCollector {
  import opened Results

  /** Before the first sample there are no sub-collectors at all (the Java field is null). */
  datatype Collector<T> = Empty | Collecting(columns: seq<seq<T>>)

  datatype CollectError =
    | WidthMismatch(width: nat, given: nat)  // IllegalArgumentException from `add`
    | NoCollectors                           // NullPointerException from `getCollectors`

  /** The number of sub-collectors, once there are some. */
  function Width<T>(c: Collector<T>): Option<nat> {
    match c
    case Empty => None
    case Collecting(columns) => Some(|columns|)
  }

  /** `add(value)`: the first sample creates one sub-collector per position; a sample of another
      width is rejected before any sub-collector changes; otherwise `value[i]` goes to
      sub-collector i and to no other. */
  function Add<T>(c: Collector<T>, value: seq<T>): (r: Result<Collector<T>, CollectError>)
    ensures c.Empty? ==> r.Ok?
    ensures c.Collecting? ==> (r.Ok? <==> |c.columns| == |value|)
    ensures r.Err? ==> r.error == WidthMismatch(|c.columns|, |value|)
    ensures r.Ok? ==> r.value.Collecting? && |r.value.columns| == |value|
    ensures r.Ok? ==> forall i :: 0 <= i < |value| ==>
      r.value.columns[i] == (if c.Empty? then [] else c.columns[i]) + [value[i]]
  {
    var columns := if c.Empty? then seq(|value|, i => []) else c.columns;
    if |columns| != |value| then Err(WidthMismatch(|columns|, |value|))
    else Ok(Collecting(seq(|columns|, i requires 0 <= i < |columns| => columns[i] + [value[i]])))
  }

  /** `getCollectors()`: the sub-collectors, or the failure of reading them before any sample. */
  function GetCollectors<T>(c: Collector<T>): (r: Result<seq<seq<T>>, CollectError>)
    ensures r.Ok? <==> c.Collecting?
    ensures r.Ok? ==> Width(c) == Some(|r.value|)
  {
    match c
    case Empty => Err(NoCollectors)
    case Collecting(columns) => Ok(columns)
  }

  /** The width never changes once fixed: a successful add keeps it, a failed one keeps the state. */
  lemma AddKeepsWidth<T>(c: Collector<T>, value: seq<T>)
    requires c.Collecting?
    ensures Add(c, value).Ok? ==> Width(Add(c, value).value) == Width(c)
  {
  }

  /** Adds the samples in order, stopping at the first one that is rejected. */
  function AddAll<T>(c: Collector<T>, samples: seq<seq<T>>): (r: Result<Collector<T>, CollectError>)
    decreases |samples|
  {
    if |samples| == 0 then Ok(c)
    else match Add(c, samples[0])
      case Err(e) => Err(e)
      case Ok(c') => AddAll(c', samples[1..])
  }

  /** Column i of a run of samples: their values at position i, in order. */
  function Column<T>(samples: seq<seq<T>>, i: nat): (col: seq<T>)
    requires forall k :: 0 <= k < |samples| ==> i < |samples[k]|
    ensures |col| == |samples|
    ensures forall k :: 0 <= k < |samples| ==> col[k] == samples[k][i]
  {
    seq(|samples|, k requires 0 <= k < |samples| => samples[k][i])
  }

  predicate SameWidth<T>(samples: seq<seq<T>>, w: nat) {
    forall k :: 0 <= k < |samples| ==> |samples[k]| == w
  }

  /** Column i of a non-empty run: the first sample's value, then the rest's column. */
  lemma ColumnCons<T>(samples: seq<seq<T>>, i: nat)
    requires |samples| > 0 && forall k :: 0 <= k < |samples| ==> i < |samples[k]|
    ensures Column(samples, i) == [samples[0][i]] + Column(samples[1..], i)
  {
    assert forall k :: 0 <= k < |samples| - 1 ==> samples[1..][k] == samples[k + 1];
  }

  lemma SameWidthTail<T>(samples: seq<seq<T>>, w: nat)
    requires |samples| > 0 && SameWidth(samples, w)
    ensures SameWidth(samples[1..], w)
  {
    assert forall k :: 0 <= k < |samples| - 1 ==> samples[1..][k] == samples[k + 1];
  }

  /** Adding samples of the collector's width appends each sample's values to the columns. */
  lemma {:induction false} AddAllColumns<T>(columns: seq<seq<T>>, samples: seq<seq<T>>)
    requires SameWidth(samples, |columns|)
    ensures AddAll(Collecting(columns), samples).Ok?
    ensures var c := AddAll(Collecting(columns), samples).value;
      c.Collecting? && |c.columns| == |columns| &&
      forall i :: 0 <= i < |columns| ==> c.columns[i] == columns[i] + Column(samples, i)
    decreases |samples|
  {
    if |samples| == 0 {
      forall i | 0 <= i < |columns|
        ensures columns[i] == columns[i] + Column(samples, i)
      {
        assert Column(samples, i) == [];
      }
    } else {
      assert |samples[0]| == |columns|;
      var next := Add(Collecting(columns), samples[0]).value;
      SameWidthTail(samples, |columns|);
      AddAllColumns(next.columns, samples[1..]);
      var c := AddAll(next, samples[1..]).value;
      forall i | 0 <= i < |columns|
        ensures c.columns[i] == columns[i] + Column(samples, i)
      {
        ColumnCons(samples, i);
      }
    }
  }

  /** From a fresh collector, equally wide samples leave sub-collector i holding exactly the
      values at position i, in the order they were added. */
  lemma AddAllFresh<T>(samples: seq<seq<T>>)
    requires |samples| > 0 && SameWidth(samples, |samples[0]|)
    ensures AddAll(Empty, samples).Ok?
    ensures var cols := GetCollectors(AddAll(Empty, samples).value);
      cols.Ok? && |cols.value| == |samples[0]| &&
      forall i :: 0 <= i < |samples[0]| ==> cols.value[i] == Column(samples, i)
  {
    var first := Add(Empty, samples[0]).value;
    AddAllColumns(first.columns, samples[1..]);
    forall i | 0 <= i < |samples[0]|
      ensures Column(samples, i) == [samples[0][i]] + Column(samples[1..], i)
    {
    }
  }

  /** A sample of another width anywhere in the run makes the run fail. */
  lemma {:induction false} AddAllRejects<T>(columns: seq<seq<T>>, samples: seq<seq<T>>, k: nat)
    requires k < |samples| && |samples[k]| != |columns| && SameWidth(samples[..k], |columns|)
    ensures AddAll(Collecting(columns), samples) == Err(WidthMismatch(|columns|, |samples[k]|))
    decreases k
  {
    if k > 0 {
      assert samples[..k][0] == samples[0];
      var next := Add(Collecting(columns), samples[0]).value;
      assert samples[1..][..k - 1] == samples[..k][1..];
      AddAllRejects(next.columns, samples[1..], k - 1);
    }
  }
}
