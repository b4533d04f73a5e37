/** The per-bucket statistics and the sorted output rows of each partition
    (`compute_output_dataset_from_breakdown_datapoints`). */
module Aggregation {
  import opened Wrappers
  import opened Text
  import opened Dicts
  import opened Keys
  import opened DataPoints
  import opened Grouping

  // ---- numbers ----

  /** Python's `int(x)` on a float: truncation toward zero, which differs
      from the floor for negative non-integral values. */
  function Trunc(x: real): (r: int)
    ensures x >= 0.0 ==> r as real <= x < r as real + 1.0
    ensures x < 0.0 ==> r as real - 1.0 < x <= r as real
  {
    if x >= 0.0 then x.Floor else -((-x).Floor)
  }

  lemma TruncIsNotFloor()
    ensures Trunc(-2.5) == -2 && (-2.5).Floor == -3
    ensures Trunc(2.5) == 2 == (2.5).Floor
  {
  }


  /** `max(xs)`, which Python refuses on an empty list. */
  function Max(xs: seq<int>): (m: int)
    requires xs != []
    ensures m in xs && forall x :: x in xs ==> x <= m
  {
    if |xs| == 1 then xs[0]
    else
      var rest := Max(xs[1..]);
      assert forall x :: x in xs ==> x == xs[0] || x in xs[1..];
      if xs[0] >= rest then xs[0] else rest
  }

  /** `min(xs)`, which Python refuses on an empty list. */
  function Min(xs: seq<int>): (m: int)
    requires xs != []
    ensures m in xs && forall x :: x in xs ==> m <= x
  {
    if |xs| == 1 then xs[0]
    else
      var rest := Min(xs[1..]);
      assert forall x :: x in xs ==> x == xs[0] || x in xs[1..];
      if xs[0] <= rest then xs[0] else rest
  }

  /** `sum(xs)` */
  function Sum(xs: seq<int>): int
  {
    if xs == [] then 0 else xs[0] + Sum(xs[1..])
  }

  /** A sum of `n` values lies between `n` times the least and `n` times the
      greatest of them. */
  lemma {:induction false} SumBounds(xs: seq<int>)
    requires xs != []
    ensures |xs| * Min(xs) <= Sum(xs) <= |xs| * Max(xs)
  {
    var t := xs[1..];
    if t != [] {
      SumBounds(t);
      var lo, hi := Min(xs), Max(xs);
      assert forall x :: x in t ==> x in xs;
      assert lo <= Min(t) && Max(t) <= hi;
      MulMonotone(|t|, lo, Min(t));
      MulMonotone(|t|, Max(t), hi);
      MulSucc(|t|, lo);
      MulSucc(|t|, hi);
    }
  }

  lemma MulSucc(n: nat, a: int)
    ensures (n + 1) * a == a + n * a
  {
  }

  lemma MulMonotone(n: nat, a: int, b: int)
    requires a <= b
    ensures n * a <= n * b
  {
  }

  // ---- one bucket ----

  /** One output row: the `dt`, `avg_hr`, `max_hr` and `min_hr` of a bucket. */
  datatype Row = Row(dt: string, avgHr: real, maxHr: int, minHr: int)

  predicate AllValued(dps: seq<DataPoint>) {
    forall i :: 0 <= i < |dps| ==> dps[i].hr.Some?
  }

  /** Line 63: the truncated values of a bucket, in order. */
  function Hrs(dps: seq<DataPoint>): (hrs: seq<int>)
    requires AllValued(dps)
    ensures |hrs| == |dps|
    ensures forall i :: 0 <= i < |dps| ==> hrs[i] == Trunc(dps[i].hr.value)
  {
    seq(|dps|, i requires 0 <= i < |dps| => Trunc(dps[i].hr.value))
  }

  /** Lines 64-72 for a bucket whose truncated values are `hrs`. The mean is
      an exact quotient here. */
  function RowOf(key: string, hrs: seq<int>): (row: Row)
    requires hrs != []
    ensures row.dt == key
    ensures row.avgHr == Mean(Sum(hrs), |hrs|)
    ensures row.minHr as real <= row.avgHr <= row.maxHr as real
    ensures row.minHr in hrs && row.maxHr in hrs
    ensures forall h :: h in hrs ==> row.minHr <= h <= row.maxHr
  {
    MeanBetween(hrs);
    Row(key, Mean(Sum(hrs), |hrs|), Max(hrs), Min(hrs))
  }

  /** The mean of a non-empty list lies between its least and greatest
      values. */
  lemma MeanBetween(hrs: seq<int>)
    requires hrs != []
    ensures Min(hrs) as real <= Mean(Sum(hrs), |hrs|) <= Max(hrs) as real
  {
    SumBounds(hrs);
    AverageBetween(Sum(hrs), |hrs|, Min(hrs), Max(hrs));
  }

  /** `total / n` in exact arithmetic: `n` copies of it add up to `total`. */
  function Mean(total: int, n: int): (m: real)
    requires n > 0
    ensures m * (n as real) == total as real
  {
    total as real / n as real
  }

  /** The quotient of a total bounded by `n` times `lo` and `n` times `hi`
      lies between `lo` and `hi`. */
  lemma AverageBetween(total: int, n: int, lo: int, hi: int)
    requires n > 0 && n * lo <= total <= n * hi
    ensures lo as real <= Mean(total, n) <= hi as real
  {
    assert (n * lo) as real == n as real * lo as real;
    assert (n * hi) as real == n as real * hi as real;
  }

  /** Lines 63-72 for one bucket: a reading without a value raises
      AttributeError while the values are collected, and an empty bucket
      raises ZeroDivisionError at the mean. */
  function BucketRow(key: string, dps: seq<DataPoint>): (r: Result<Row, Error>)
    ensures r.Success? <==> AllValued(dps) && dps != []
    ensures r.Failure? ==> r.error == if AllValued(dps) then ZeroDivisionError else AttributeError("hr")
    ensures r.Success? ==> r.value == RowOf(key, Hrs(dps))
  {
    if !AllValued(dps) then Failure(AttributeError("hr"))
    else if dps == [] then Failure(ZeroDivisionError)
    else Success(RowOf(key, Hrs(dps)))
  }

  /** A bucket of one reading reports its truncated value as mean, maximum
      and minimum. */
  lemma SingleReading(key: string, dp: DataPoint)
    requires dp.hr.Some?
    ensures BucketRow(key, [dp]) == Success(Row(key, Trunc(dp.hr.value) as real, Trunc(dp.hr.value), Trunc(dp.hr.value)))
  {
    var hrs := Hrs([dp]);
    assert hrs == [Trunc(dp.hr.value)];
    assert Sum(hrs) == Trunc(dp.hr.value);
  }

  /** The values 5.7 and 7.2 truncate to 5 and 7: mean 6.0, maximum 7,
      minimum 5. A lone 3.9 gives 3.0, 3 and 3. */
  lemma HourlyScenario(a: DataPoint, b: DataPoint, c: DataPoint)
    requires a.hr == Some(5.7) && b.hr == Some(7.2) && c.hr == Some(3.9)
    ensures BucketRow("2024-01-01 10:00:00", [a, b]) == Success(Row("2024-01-01 10:00:00", 6.0, 7, 5))
    ensures BucketRow("2024-01-01 11:00:00", [c]) == Success(Row("2024-01-01 11:00:00", 3.0, 3, 3))
  {
    assert Trunc(5.7) == 5 && Trunc(7.2) == 7 && Trunc(3.9) == 3;
    var hrs := Hrs([a, b]);
    assert hrs == [5, 7];
    assert hrs[1..] == [7] && hrs[1..][1..] == [];
    assert Sum(hrs[1..]) == 7;
    assert Max(hrs) == 7 && Min(hrs) == 5;
    SingleReading("2024-01-01 11:00:00", c);
  }

  /** Lines 63-66: collects the truncated values of a bucket in a loop, then
      takes their mean, maximum and minimum. */
  method BucketStats(breakdownKey: string, datapoints: seq<DataPoint>) returns (r: Result<Row, Error>)
    ensures r == BucketRow(breakdownKey, datapoints)
  {
    var hrs: seq<int> := [];
    var j := 0;
    while j < |datapoints|
      invariant 0 <= j <= |datapoints|
      invariant AllValued(datapoints[..j])
      invariant hrs == Hrs(datapoints[..j])
    {
      var dp := datapoints[j];
      if dp.hr.None? {
        assert !AllValued(datapoints);
        return Failure(AttributeError("hr"));
      }
      hrs := hrs + [Trunc(dp.hr.value)];
      j := j + 1;
    }
    assert datapoints[..j] == datapoints;
    if |datapoints| == 0 {
      return Failure(ZeroDivisionError);
    }
    var avgHr := Sum(hrs) as real / |datapoints| as real;
    var maxHr := Max(hrs);
    var minHr := Min(hrs);
    r := Success(Row(breakdownKey, avgHr, maxHr, minHr));
  }

  // ---- sorting the rows of a partition ----

  /** `(breakdown_key, output_datapoint)` pairs. */
  type Rows = seq<(string, Row)>

  /** Strictly increasing by key, so no key occurs twice. */
  predicate StrictlySorted(rows: Rows) {
    forall i, j :: 0 <= i < j < |rows| ==> Less(rows[i].0, rows[j].0)
  }

  predicate DistinctKeys(rows: Rows) {
    forall i, j :: 0 <= i < j < |rows| ==> rows[i].0 != rows[j].0
  }

  /** Puts `x` before the first row whose key is not smaller than its own. */
  function Insert(x: (string, Row), rows: Rows): (r: Rows)
    ensures multiset(r) == multiset(rows) + multiset{x}
  {
    if rows == [] then [x]
    else if Less(rows[0].0, x.0) then
      assert rows == [rows[0]] + rows[1..];
      [rows[0]] + Insert(x, rows[1..])
    else [x] + rows
  }

  /** `sorted(output_list)` at line 74. Python compares the pairs by key and
      would go on to the rows only for equal keys, which the rows of one
      partition never have; the model compares keys alone. */
  function SortRows(rows: Rows): (r: Rows)
    ensures multiset(r) == multiset(rows)
  {
    if rows == [] then []
    else
      assert rows == [rows[0]] + rows[1..];
      Insert(rows[0], SortRows(rows[1..]))
  }

  lemma {:induction false} InsertSorted(x: (string, Row), rows: Rows)
    requires StrictlySorted(rows)
    requires forall i :: 0 <= i < |rows| ==> rows[i].0 != x.0
    ensures StrictlySorted(Insert(x, rows))
  {
    if rows == [] {
    } else if Less(rows[0].0, x.0) {
      var tail := rows[1..];
      InsertSorted(x, tail);
      var t := Insert(x, tail);
      forall k | 0 <= k < |t| ensures Less(rows[0].0, t[k].0) {
        assert t[k] in multiset(t);
        if t[k] != x {
          assert t[k] in tail;
          var m :| 0 <= m < |tail| && tail[m] == t[k];
          assert rows[m + 1] == t[k];
        }
      }
    } else {
      LessTotal(rows[0].0, x.0);
      forall k | 0 <= k < |rows| ensures Less(x.0, rows[k].0) {
        if k > 0 {
          LessTransitive(x.0, rows[0].0, rows[k].0);
        }
      }
    }
  }

  /** The pairs that `sorted` returns are the given ones, and with distinct
      keys they come out strictly increasing by key. */
  lemma {:induction false} SortRowsSorted(rows: Rows)
    requires DistinctKeys(rows)
    ensures StrictlySorted(SortRows(rows)) && |SortRows(rows)| == |rows|
  {
    if rows != [] {
      var tail := rows[1..];
      SortRowsSorted(tail);
      SortedTailAvoidsHead(rows);
      InsertSorted(rows[0], SortRows(tail));
      assert |multiset(SortRows(rows))| == |multiset(rows)|;
    }
  }

  /** With distinct keys, no row of the sorted tail has the key of the head. */
  lemma SortedTailAvoidsHead(rows: Rows)
    requires DistinctKeys(rows) && rows != []
    ensures forall i :: 0 <= i < |SortRows(rows[1..])| ==> SortRows(rows[1..])[i].0 != rows[0].0
  {
    var tail := rows[1..];
    var t := SortRows(tail);
    forall i | 0 <= i < |t| ensures t[i].0 != rows[0].0 {
      assert t[i] in multiset(tail);
      var m :| 0 <= m < |tail| && tail[m] == t[i];
      assert rows[m + 1] == t[i];
    }
  }

  // ---- loops whose steps may raise ----

  /** The values of the steps `outs` in order, or the exception of the first
      step that raises one: what a loop of such steps computes. */
  function Sequence<T>(outs: seq<Result<T, Error>>): Result<seq<T>, Error>
  {
    if outs == [] then Success([])
    else
      match Sequence(outs[..|outs| - 1])
      case Failure(e) => Failure(e)
      case Success(vs) =>
        match outs[|outs| - 1]
        case Failure(e) => Failure(e)
        case Success(v) => Success(vs + [v])
  }

  /** A run succeeds exactly when every step does, and then lists their
      values one for one; otherwise it fails with the exception of the first
      step that raises. */
  lemma {:induction false} SequenceOutcome<T>(outs: seq<Result<T, Error>>)
    ensures var r := Sequence(outs);
      && (r.Success? <==> forall i :: 0 <= i < |outs| ==> outs[i].Success?)
      && (r.Success? ==> |r.value| == |outs| && forall i :: 0 <= i < |outs| ==> outs[i] == Success(r.value[i]))
      && (r.Failure? ==> exists i :: (0 <= i < |outs| && outs[i] == Failure(r.error)
            && forall j :: 0 <= j < i ==> outs[j].Success?))
  {
    if outs != [] {
      var init := outs[..|outs| - 1];
      SequenceOutcome(init);
      assert forall i :: 0 <= i < |init| ==> init[i] == outs[i];
      var rest := Sequence(init);
      if rest.Failure? {
        var i :| 0 <= i < |init| && init[i] == Failure(rest.error) && forall j :: 0 <= j < i ==> init[j].Success?;
        assert outs[i] == Failure(rest.error);
      } else if outs[|init|].Failure? {
        assert forall j :: 0 <= j < |init| ==> outs[j].Success?;
      }
    }
  }

  /** One more step: its value is appended, or its exception ends the run. */
  lemma SequenceStep<T>(outs: seq<Result<T, Error>>, j: int)
    requires 0 <= j < |outs|
    ensures Sequence(outs[..j + 1]) ==
      match Sequence(outs[..j])
      case Failure(e) => Failure(e)
      case Success(vs) => (match outs[j] case Failure(e) => Failure(e) case Success(v) => Success(vs + [v]))
  {
    assert outs[..j + 1][..j] == outs[..j];
  }

  /** A step that raises after steps that all produced values decides the
      exception of the whole run. */
  lemma SequenceFailsAt<T>(outs: seq<Result<T, Error>>, j: int)
    requires 0 <= j < |outs| && Sequence(outs[..j]).Success? && outs[j].Failure?
    ensures Sequence(outs) == Failure(outs[j].error)
  {
    var pre := outs[..j];
    SequenceOutcome(pre);
    SequenceOutcome(outs);
    assert forall i :: 0 <= i < j ==> outs[i] == pre[i];
    var r := Sequence(outs);
    var i :| 0 <= i < |outs| && outs[i] == Failure(r.error) && forall k :: 0 <= k < i ==> outs[k].Success?;
    assert i == j;
  }

  /** The dict from each of the distinct `keys` to the value of its step, or
      the exception of the first step that raises one. */
  function Collect<T>(keys: seq<string>, outs: seq<Result<T, Error>>): (r: Result<Dict<T>, Error>)
    requires |keys| == |outs| && Distinct(keys)
    ensures r.Success? ==> r.value.Valid() && r.value.keys == keys
  {
    if keys == [] then Success(Empty())
    else
      var n := |keys| - 1;
      assert keys[n] !in keys[..n];
      match Collect(keys[..n], outs[..n])
      case Failure(e) => Failure(e)
      case Success(d) =>
        match outs[n]
        case Failure(e) => Failure(e)
        case Success(v) => Success(Put(d, keys[n], v))
  }

  /** Collecting into a dict runs the same steps as `Sequence`: it fails
      exactly when that run fails, with the same exception. */
  lemma {:induction false} CollectSequence<T>(keys: seq<string>, outs: seq<Result<T, Error>>)
    requires |keys| == |outs| && Distinct(keys)
    ensures Collect(keys, outs).Success? <==> Sequence(outs).Success?
    ensures Collect(keys, outs).Failure? ==> Sequence(outs) == Failure(Collect(keys, outs).error)
  {
    if keys != [] {
      var n := |keys| - 1;
      CollectSequence(keys[..n], outs[..n]);
    }
  }

  /** A successful collection is the collection of all but the last step
      with the last value stored under the last key. */
  lemma CollectLast<T>(keys: seq<string>, outs: seq<Result<T, Error>>)
    requires |keys| == |outs| && Distinct(keys) && Collect(keys, outs).Success? && keys != []
    ensures var n := |keys| - 1;
      && Collect(keys[..n], outs[..n]).Success? && outs[n].Success?
      && Collect(keys, outs).value.entries == Collect(keys[..n], outs[..n]).value.entries[keys[n] := outs[n].value]
  {
  }

  /** A collected dict stores the value of each step under its key. */
  lemma {:induction false} CollectEntry<T>(keys: seq<string>, outs: seq<Result<T, Error>>, i: int)
    requires |keys| == |outs| && Distinct(keys) && Collect(keys, outs).Success? && 0 <= i < |keys|
    ensures keys[i] in Collect(keys, outs).value.entries && outs[i] == Success(Collect(keys, outs).value.entries[keys[i]])
  {
    var n := |keys| - 1;
    CollectLast(keys, outs);
    if i < n {
      var pre, pouts := keys[..n], outs[..n];
      CollectEntry(pre, pouts, i);
      assert pre[i] == keys[i] != keys[n] && pouts[i] == outs[i];
    }
  }

  lemma CollectStep<T>(keys: seq<string>, outs: seq<Result<T, Error>>, i: int)
    requires |keys| == |outs| && Distinct(keys) && 0 <= i < |keys|
    ensures Collect(keys[..i + 1], outs[..i + 1]) ==
      match Collect(keys[..i], outs[..i])
      case Failure(e) => Failure(e)
      case Success(d) => (match outs[i] case Failure(e) => Failure(e) case Success(v) => Success(Put(d, keys[i], v)))
  {
    assert keys[..i + 1][..i] == keys[..i];
    assert outs[..i + 1][..i] == outs[..i];
  }

  lemma CollectFailsAt<T>(keys: seq<string>, outs: seq<Result<T, Error>>, i: int)
    requires |keys| == |outs| && Distinct(keys) && 0 <= i < |keys|
    requires Collect(keys[..i], outs[..i]).Success? && outs[i].Failure?
    ensures Collect(keys, outs) == Failure(outs[i].error)
  {
    CollectSequence(keys[..i], outs[..i]);
    SequenceFailsAt(outs, i);
    CollectSequence(keys, outs);
  }

  // ---- the whole dataset ----

  /** `(breakdown_key, output_datapoint)` for one bucket, or its exception. */
  function KeyedRow(key: string, dps: seq<DataPoint>): Result<(string, Row), Error>
  {
    match BucketRow(key, dps)
    case Failure(e) => Failure(e)
    case Success(row) => Success((key, row))
  }

  /** The steps of the inner loop (lines 62-73), one per bucket. */
  function RowSteps(b: Buckets): seq<Result<(string, Row), Error>>
    requires b.Valid()
  {
    seq(|b.keys|, i requires 0 <= i < |b.keys| => KeyedRow(b.keys[i], b.entries[b.keys[i]]))
  }

  /** One partition of the output: its rows sorted by key (line 74), or the
      exception of its first bucket that raises one. */
  function PartitionOutput(b: Buckets): Result<Rows, Error>
    requires b.Valid()
  {
    match Sequence(RowSteps(b))
    case Failure(e) => Failure(e)
    case Success(rows) => Success(SortRows(rows))
  }

  /** The steps of the outer loop (lines 60-74), one per partition. */
  function PartitionSteps(g: BreakdownDatapoints): seq<Result<Rows, Error>>
    requires WellFormed(g)
  {
    seq(|g.keys|, i requires 0 <= i < |g.keys| => PartitionOutput(g.entries[g.keys[i]]))
  }

  /** Partition key to its sorted rows, in the order of the partitions. */
  type OutputDataset = Dict<Rows>

  /** Lines 59-75 as a value. */
  function DatasetOf(g: BreakdownDatapoints): Result<OutputDataset, Error>
    requires WellFormed(g)
  {
    Collect(g.keys, PartitionSteps(g))
  }

  /** Lines 61-74, the body of the outer loop: the row of each bucket in
      turn, then the rows sorted; the first exception ends the computation. */
  method ComputePartition(breakdownToDatapoints: Buckets) returns (r: Result<Rows, Error>)
    requires breakdownToDatapoints.Valid()
    ensures r == PartitionOutput(breakdownToDatapoints)
  {
    ghost var steps := RowSteps(breakdownToDatapoints);
    var outputList: Rows := [];
    var j := 0;
    while j < |breakdownToDatapoints.keys|
      invariant 0 <= j <= |breakdownToDatapoints.keys|
      invariant Sequence(steps[..j]) == Success(outputList)
    {
      var breakdownKey := breakdownToDatapoints.keys[j];
      var row := BucketStats(breakdownKey, breakdownToDatapoints.entries[breakdownKey]);
      SequenceStep(steps, j);
      if row.Failure? {
        SequenceFailsAt(steps, j);
        return Failure(row.error);
      }
      outputList := outputList + [(breakdownKey, row.value)];
      j := j + 1;
    }
    assert steps[..j] == steps;
    r := Success(SortRows(outputList));
  }

  /** One turn of the outer loop: the next partition either raises, which
      is then the outcome of the whole computation, or adds its rows. */
  lemma DatasetStep(g: BreakdownDatapoints, i: int, d: OutputDataset)
    requires WellFormed(g) && 0 <= i < |g.keys|
    requires Collect(g.keys[..i], PartitionSteps(g)[..i]) == Success(d)
    ensures var out := PartitionOutput(g.entries[g.keys[i]]);
      && (out.Failure? ==> DatasetOf(g) == Failure(out.error))
      && (out.Success? ==> Collect(g.keys[..i + 1], PartitionSteps(g)[..i + 1]) == Success(Put(d, g.keys[i], out.value)))
  {
    var parts := PartitionSteps(g);
    CollectStep(g.keys, parts, i);
    if parts[i].Failure? {
      CollectFailsAt(g.keys, parts, i);
    }
  }

  /** `compute_output_dataset_from_breakdown_datapoints`: for each partition
      in turn, computes its sorted rows and stores them under the partition
      key; the first exception ends the computation. */
  method ComputeOutputDataset(breakdownDatapoints: BreakdownDatapoints) returns (r: Result<OutputDataset, Error>)
    requires WellFormed(breakdownDatapoints)
    ensures r == DatasetOf(breakdownDatapoints)
  {
    var keys, groups := breakdownDatapoints.keys, breakdownDatapoints.entries;
    ghost var parts := PartitionSteps(breakdownDatapoints);
    var outputDataset: OutputDataset := Empty();
    var i := 0;
    while i < |keys|
      invariant 0 <= i <= |keys|
      invariant Collect(keys[..i], parts[..i]) == Success(outputDataset)
    {
      var partitionKey := keys[i];
      var outputList := ComputePartition(groups[partitionKey]);
      DatasetStep(breakdownDatapoints, i, outputDataset);
      if outputList.Failure? {
        return Failure(outputList.error);
      }
      outputDataset := Put(outputDataset, partitionKey, outputList.value);
      i := i + 1;
    }
    assert keys[..i] == keys && parts[..i] == parts;
    r := Success(outputDataset);
  }

  // ---- what the dataset holds ----

  /** Every bucket of `b` holds readings, and all of them have a value. */
  ghost predicate RowsComputable(b: Buckets) {
    forall bk :: bk in b.entries ==> AllValued(b.entries[bk]) && b.entries[bk] != []
  }

  /** A partition yields its rows exactly when each of its buckets can give
      a row; otherwise the exception is that of one of its buckets. */
  lemma PartitionOutcome(b: Buckets)
    requires b.Valid()
    ensures PartitionOutput(b).Success? <==> RowsComputable(b)
    ensures PartitionOutput(b).Failure? ==>
      exists bk :: bk in b.entries && BucketRow(bk, b.entries[bk]) == Failure(PartitionOutput(b).error)
  {
    var steps := RowSteps(b);
    SequenceOutcome(steps);
    if Sequence(steps).Failure? {
      var e := Sequence(steps).error;
      var i :| 0 <= i < |steps| && steps[i] == Failure(e) && forall j :: 0 <= j < i ==> steps[j].Success?;
      assert BucketRow(b.keys[i], b.entries[b.keys[i]]) == Failure(e);
    } else {
      forall bk | bk in b.entries
        ensures AllValued(b.entries[bk]) && b.entries[bk] != []
      {
        var i :| 0 <= i < |b.keys| && b.keys[i] == bk;
        assert steps[i].Success?;
      }
    }
  }

  /** Before sorting, the rows of a partition follow its buckets: the i-th
      row is the row of the i-th bucket, under that bucket's key. */
  lemma UnsortedRows(b: Buckets)
    requires b.Valid() && Sequence(RowSteps(b)).Success?
    ensures var rows := Sequence(RowSteps(b)).value;
      && |rows| == |b.keys|
      && forall i :: 0 <= i < |rows| ==>
           rows[i].0 == b.keys[i] && BucketRow(b.keys[i], b.entries[b.keys[i]]) == Success(rows[i].1)
  {
    SequenceOutcome(RowSteps(b));
  }

  /** Sorting keeps exactly the rows it is given. */
  lemma SortRowsMembers(rows: Rows)
    ensures forall x :: x in SortRows(rows) <==> x in rows
  {
    forall x
      ensures x in SortRows(rows) <==> x in rows
    {
      assert x in SortRows(rows) <==> x in multiset(SortRows(rows));
    }
  }

  /** Rows holding the same pairs as rows that follow the buckets one for
      one have one row for each bucket, each the row of its bucket. */
  lemma BucketRowsMembers(b: Buckets, unsorted: Rows, rows: Rows)
    requires b.Valid() && |unsorted| == |b.keys|
    requires forall i :: 0 <= i < |unsorted| ==>
      unsorted[i].0 == b.keys[i] && BucketRow(b.keys[i], b.entries[b.keys[i]]) == Success(unsorted[i].1)
    requires forall x :: x in rows <==> x in unsorted
    ensures forall bk :: bk in b.entries ==> exists i :: 0 <= i < |rows| && rows[i].0 == bk
    ensures forall i :: 0 <= i < |rows| ==>
      rows[i].0 in b.entries && BucketRow(rows[i].0, b.entries[rows[i].0]) == Success(rows[i].1)
  {
    forall bk | bk in b.entries
      ensures exists i :: 0 <= i < |rows| && rows[i].0 == bk
    {
      var j :| 0 <= j < |b.keys| && b.keys[j] == bk;
      assert unsorted[j] in rows;
    }
    forall i | 0 <= i < |rows|
      ensures rows[i].0 in b.entries && BucketRow(rows[i].0, b.entries[rows[i].0]) == Success(rows[i].1)
    {
      assert rows[i] in unsorted;
    }
  }

  /** The rows of a partition: strictly increasing by key, one for each of
      its buckets, each the row of the bucket its key names. */
  lemma PartitionRows(b: Buckets)
    requires b.Valid() && PartitionOutput(b).Success?
    ensures var rows := PartitionOutput(b).value;
      && StrictlySorted(rows) && |rows| == |b.keys|
      && (forall bk :: bk in b.entries ==> exists i :: 0 <= i < |rows| && rows[i].0 == bk)
      && (forall i :: 0 <= i < |rows| ==>
            rows[i].0 in b.entries && BucketRow(rows[i].0, b.entries[rows[i].0]) == Success(rows[i].1))
  {
    var unsorted := Sequence(RowSteps(b)).value;
    UnsortedRows(b);
    SortRowsSorted(unsorted);
    SortRowsMembers(unsorted);
    BucketRowsMembers(b, unsorted, SortRows(unsorted));
  }

  /** The dataset is computed exactly when every bucket of every partition
      can give a row. It then has the partitions of the grouping, in the
      same order, each with its rows; otherwise the exception is that of one
      of the buckets. */
  lemma DatasetOutcome(g: BreakdownDatapoints)
    requires WellFormed(g)
    ensures DatasetOf(g).Success? <==> forall pk :: pk in g.entries ==> RowsComputable(g.entries[pk])
    ensures DatasetOf(g).Success? ==> DatasetOf(g).value.keys == g.keys
    ensures DatasetOf(g).Success? ==> forall pk :: pk in g.entries ==>
      pk in DatasetOf(g).value.entries && PartitionOutput(g.entries[pk]) == Success(DatasetOf(g).value.entries[pk])
    ensures DatasetOf(g).Failure? ==> exists pk, bk :: (pk in g.entries && bk in g.entries[pk].entries
      && BucketRow(bk, g.entries[pk].entries[bk]) == Failure(DatasetOf(g).error))
  {
    if DatasetOf(g).Success? {
      DatasetSucceeds(g);
    } else {
      DatasetFails(g);
    }
  }

  lemma DatasetSucceeds(g: BreakdownDatapoints)
    requires WellFormed(g) && DatasetOf(g).Success?
    ensures forall pk :: pk in g.entries ==>
      && RowsComputable(g.entries[pk])
      && pk in DatasetOf(g).value.entries && PartitionOutput(g.entries[pk]) == Success(DatasetOf(g).value.entries[pk])
  {
    var parts := PartitionSteps(g);
    forall pk | pk in g.entries
      ensures RowsComputable(g.entries[pk])
      ensures pk in DatasetOf(g).value.entries && PartitionOutput(g.entries[pk]) == Success(DatasetOf(g).value.entries[pk])
    {
      var i :| 0 <= i < |g.keys| && g.keys[i] == pk;
      CollectEntry(g.keys, parts, i);
      PartitionOutcome(g.entries[pk]);
    }
  }

  lemma DatasetFails(g: BreakdownDatapoints)
    requires WellFormed(g) && DatasetOf(g).Failure?
    ensures exists pk :: pk in g.entries && !RowsComputable(g.entries[pk])
    ensures exists pk, bk :: (pk in g.entries && bk in g.entries[pk].entries
      && BucketRow(bk, g.entries[pk].entries[bk]) == Failure(DatasetOf(g).error))
  {
    var parts := PartitionSteps(g);
    CollectSequence(g.keys, parts);
    SequenceOutcome(parts);
    var e := DatasetOf(g).error;
    var i :| 0 <= i < |parts| && parts[i] == Failure(e) && forall j :: 0 <= j < i ==> parts[j].Success?;
    PartitionOutcome(g.entries[g.keys[i]]);
  }

  // ---- the pipeline: grouping, then the dataset ----

  /** The facts about a grouping of `ps` that the dataset relies on. */
  ghost predicate GroupedFrom(g: BreakdownDatapoints, ps: seq<DataPoint>, partition: string, breakdown: string) {
    && WellFormed(g)
    && g.keys == PartitionOrder(ps, partition)
    && (forall pk :: pk in g.entries ==> g.entries[pk].keys == BreakdownOrder(ps, partition, breakdown, pk))
    && (forall pk, bk :: pk in g.entries && bk in g.entries[pk].entries ==>
          g.entries[pk].entries[bk] == Bucket(ps, partition, breakdown, pk, bk) && g.entries[pk].entries[bk] != [])
  }

  /** Every reading with a timestamp has a value. */
  predicate TimestampedValued(ps: seq<DataPoint>) {
    forall i :: 0 <= i < |ps| && ps[i].dt.Some? ==> ps[i].hr.Some?
  }

  /** A reading with a timestamp lies in a bucket of the grouping. */
  lemma GroupedReading(g: BreakdownDatapoints, ps: seq<DataPoint>, partition: string, breakdown: string, x: DataPoint)
    requires GroupedFrom(g, ps, partition, breakdown) && x in ps && x.dt.Some?
    ensures var pk, bk := PartitionKey(x.dt.value, partition), BreakdownKey(x.dt.value, breakdown);
      pk in g.entries && bk in g.entries[pk].entries && x in g.entries[pk].entries[bk]
  {
    var pk, bk := PartitionKey(x.dt.value, partition), BreakdownKey(x.dt.value, breakdown);
    BucketMembers(ps, partition, breakdown, pk, bk, x);
    BreakdownOrderMembers(ps, partition, breakdown, pk, bk);
    PartitionOrderMembers(ps, partition, breakdown, pk);
  }

  /** On a grouping of `ps`, the dataset is computed exactly when every
      reading with a timestamp has a value; otherwise the exception is the
      AttributeError for `hr`, never a division by zero, since no bucket is
      empty. */
  lemma GroupedDatasetOutcome(g: BreakdownDatapoints, ps: seq<DataPoint>, partition: string, breakdown: string)
    requires GroupedFrom(g, ps, partition, breakdown)
    ensures DatasetOf(g).Success? <==> TimestampedValued(ps)
    ensures DatasetOf(g).Failure? ==> DatasetOf(g).error == AttributeError("hr")
  {
    DatasetOutcome(g);
    if TimestampedValued(ps) {
      forall pk, bk | pk in g.entries && bk in g.entries[pk].entries
        ensures AllValued(g.entries[pk].entries[bk])
      {
        forall j | 0 <= j < |g.entries[pk].entries[bk]|
          ensures g.entries[pk].entries[bk][j].hr.Some?
        {
          var x := g.entries[pk].entries[bk][j];
          BucketMembers(ps, partition, breakdown, pk, bk, x);
        }
      }
    } else {
      var i :| 0 <= i < |ps| && ps[i].dt.Some? && ps[i].hr.None?;
      GroupedReading(g, ps, partition, breakdown, ps[i]);
    }
  }

  /** On success, each output file's rows are strictly increasing by key,
      there is one row for each breakdown key of its partition, and each row
      is the row of the readings carrying both its keys. */
  lemma GroupedDatasetRows(g: BreakdownDatapoints, ps: seq<DataPoint>, partition: string, breakdown: string, pk: string)
    requires GroupedFrom(g, ps, partition, breakdown)
    requires DatasetOf(g).Success? && pk in DatasetOf(g).value.entries
    ensures var rows := DatasetOf(g).value.entries[pk];
      && StrictlySorted(rows)
      && (forall bk :: bk in BreakdownOrder(ps, partition, breakdown, pk) <==> exists i :: 0 <= i < |rows| && rows[i].0 == bk)
      && (forall i :: 0 <= i < |rows| ==>
            BucketRow(rows[i].0, Bucket(ps, partition, breakdown, pk, rows[i].0)) == Success(rows[i].1))
  {
    DatasetOutcome(g);
    assert pk in g.entries;
    PartitionRows(g.entries[pk]);
  }

  /** Lines 87-93 of `main`: groups the readings, then computes the dataset
      from the grouping. */
  method Process(datapoints: seq<DataPoint>, partition: string, breakdown: string)
    returns (r: Result<OutputDataset, Error>)
    ensures r.Success? <==> TimestampedValued(datapoints)
    ensures r.Failure? ==> r.error == AttributeError("hr")
    ensures r.Success? ==> r.value.Valid() && r.value.keys == PartitionOrder(datapoints, partition)
    ensures r.Success? ==> forall pk :: pk in r.value.entries ==>
      && StrictlySorted(r.value.entries[pk])
      && (forall bk :: bk in BreakdownOrder(datapoints, partition, breakdown, pk) <==>
            exists i :: 0 <= i < |r.value.entries[pk]| && r.value.entries[pk][i].0 == bk)
      && (forall i :: 0 <= i < |r.value.entries[pk]| ==>
            BucketRow(r.value.entries[pk][i].0, Bucket(datapoints, partition, breakdown, pk, r.value.entries[pk][i].0))
              == Success(r.value.entries[pk][i].1))
  {
    var breakdownDatapoints := GetBreakdownDatapoints(datapoints, partition, breakdown);
    r := ComputeOutputDataset(breakdownDatapoints);
    GroupedDatasetOutcome(breakdownDatapoints, datapoints, partition, breakdown);
    DatasetOutcome(breakdownDatapoints);
    if r.Success? {
      forall pk | pk in r.value.entries
        ensures && StrictlySorted(r.value.entries[pk])
          && (forall bk :: bk in BreakdownOrder(datapoints, partition, breakdown, pk) <==>
                exists i :: 0 <= i < |r.value.entries[pk]| && r.value.entries[pk][i].0 == bk)
          && (forall i :: 0 <= i < |r.value.entries[pk]| ==>
                BucketRow(r.value.entries[pk][i].0, Bucket(datapoints, partition, breakdown, pk, r.value.entries[pk][i].0))
                  == Success(r.value.entries[pk][i].1))
      {
        GroupedDatasetRows(breakdownDatapoints, datapoints, partition, breakdown, pk);
      }
    }
  }
}
