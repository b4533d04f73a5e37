/** The two-level grouping of readings, partition key to breakdown key to the
    readings of that bucket in input order (`get_breakdown_datapoints`). */
module Grouping {
  import opened Wrappers
  import opened DateTimes
  import opened Keys
  import opened DataPoints
  import opened Dicts

  /** Breakdown key to the readings of that bucket. */
  type Buckets = Dict<seq<DataPoint>>

  /** Partition key to its buckets. */
  type BreakdownDatapoints = Dict<Buckets>

  ghost predicate WellFormed(g: BreakdownDatapoints) {
    g.Valid() && forall pk :: pk in g.entries ==> g.entries[pk].Valid()
  }

  // ---- what the grouping is meant to hold, stated over the input ----

  predicate InPartition(dp: DataPoint, partition: string, pk: string) {
    dp.dt.Some? && PartitionKey(dp.dt.value, partition) == pk
  }

  predicate InBucket(dp: DataPoint, partition: string, breakdown: string, pk: string, bk: string) {
    InPartition(dp, partition, pk) && BreakdownKey(dp.dt.value, breakdown) == bk
  }

  /** The readings that have a timestamp, in input order. */
  function Timestamped(ps: seq<DataPoint>): seq<DataPoint>
  {
    if ps == [] then []
    else Timestamped(ps[..|ps| - 1]) + (if ps[|ps| - 1].dt.Some? then [ps[|ps| - 1]] else [])
  }

  /** The distinct partition keys of the timestamped readings, in the order
      they first occur. */
  function PartitionOrder(ps: seq<DataPoint>, partition: string): seq<string>
  {
    if ps == [] then []
    else
      var rest := PartitionOrder(ps[..|ps| - 1], partition);
      var dp := ps[|ps| - 1];
      if dp.dt.None? || PartitionKey(dp.dt.value, partition) in rest then rest
      else rest + [PartitionKey(dp.dt.value, partition)]
  }

  /** The distinct breakdown keys of the readings in partition `pk`, in the
      order they first occur. */
  function BreakdownOrder(ps: seq<DataPoint>, partition: string, breakdown: string, pk: string): seq<string>
  {
    if ps == [] then []
    else
      var rest := BreakdownOrder(ps[..|ps| - 1], partition, breakdown, pk);
      var dp := ps[|ps| - 1];
      if !InPartition(dp, partition, pk) || BreakdownKey(dp.dt.value, breakdown) in rest then rest
      else rest + [BreakdownKey(dp.dt.value, breakdown)]
  }

  /** The readings whose keys are `pk` and `bk`, in input order. */
  function Bucket(ps: seq<DataPoint>, partition: string, breakdown: string, pk: string, bk: string): seq<DataPoint>
  {
    if ps == [] then []
    else
      Bucket(ps[..|ps| - 1], partition, breakdown, pk, bk)
      + (if InBucket(ps[|ps| - 1], partition, breakdown, pk, bk) then [ps[|ps| - 1]] else [])
  }

  // ---- all readings of a grouping, bucket by bucket ----

  function FlattenBuckets(keys: seq<string>, m: map<string, seq<DataPoint>>): seq<DataPoint>
  {
    if keys == [] then []
    else
      FlattenBuckets(keys[..|keys| - 1], m)
      + (if keys[|keys| - 1] in m then m[keys[|keys| - 1]] else [])
  }

  function FlattenGroups(keys: seq<string>, m: map<string, Buckets>): seq<DataPoint>
  {
    if keys == [] then []
    else
      FlattenGroups(keys[..|keys| - 1], m)
      + (if keys[|keys| - 1] in m then FlattenBuckets(m[keys[|keys| - 1]].keys, m[keys[|keys| - 1]].entries) else [])
  }

  function Flatten(g: BreakdownDatapoints): seq<DataPoint>
  {
    FlattenGroups(g.keys, g.entries)
  }

  // ---- the imperative grouping ----

  /** `g` holds the readings `ps`: its partitions and their buckets are
      listed in first-seen order and each bucket holds the readings with its
      two keys, in input order. */
  ghost predicate Represents(g: BreakdownDatapoints, ps: seq<DataPoint>, partition: string, breakdown: string) {
    && WellFormed(g)
    && g.keys == PartitionOrder(ps, partition)
    && (forall pk :: pk in g.entries ==> g.entries[pk].keys == BreakdownOrder(ps, partition, breakdown, pk))
    && (forall pk, bk :: pk in g.entries && bk in g.entries[pk].entries ==>
          g.entries[pk].entries[bk] == Bucket(ps, partition, breakdown, pk, bk))
    && multiset(Flatten(g)) == multiset(Timestamped(ps))
  }

  /** `b'` is the buckets `b` after lines 50-52 for one reading `x`: the
      bucket `bk` is created when missing, going last, and `x` is appended
      to it. */
  ghost predicate BucketAppended(b: Buckets, b': Buckets, bk: string, x: DataPoint) {
    && b'.keys == (if bk in b.entries then b.keys else b.keys + [bk])
    && b'.entries == b.entries[bk := (if bk in b.entries then b.entries[bk] else []) + [x]]
  }

  /** `g'` is `g` after lines 48-52 for one reading `x`: the partition `pk`
      is created when missing, going last, and its buckets get `x`. */
  ghost predicate AppendedTo(g: BreakdownDatapoints, g': BreakdownDatapoints, pk: string, bk: string, x: DataPoint) {
    && g'.Valid() && pk in g'.entries && g'.entries[pk].Valid()
    && g'.keys == (if pk in g.entries then g.keys else g.keys + [pk])
    && g'.entries == g.entries[pk := g'.entries[pk]]
    && BucketAppended(if pk in g.entries then g.entries[pk] else Empty(), g'.entries[pk], bk, x)
  }

  /** Lines 48-52 for one reading: create the partition and then the bucket
      when missing, and append the reading to the bucket. */
  method AddDatapoint(g: BreakdownDatapoints, key: string, breakdownKey: string, datapoint: DataPoint)
    returns (result: BreakdownDatapoints)
    requires WellFormed(g)
    ensures AppendedTo(g, result, key, breakdownKey, datapoint)
  {
    result := g;
    if key !in result.entries {
      result := Put(result, key, Empty());
    }
    ghost var g1, b := result, result.entries[key];
    assert b == if key in g.entries then g.entries[key] else Empty();
    if breakdownKey !in result.entries[key].entries {
      result := Put(result, key, Put(result.entries[key], breakdownKey, []));
      assert result.entries[key] == Put(b, breakdownKey, []);
    }
    var buckets := result.entries[key];
    result := Put(result, key, Put(buckets, breakdownKey, buckets.entries[breakdownKey] + [datapoint]));
    if breakdownKey !in b.entries {
      assert buckets.entries[breakdownKey] + [datapoint] == [datapoint];
      PutTwice(b, breakdownKey, [], [datapoint]);
      PutTwice(g1, key, Put(b, breakdownKey, []), Put(b, breakdownKey, [datapoint]));
    }
    if key !in g.entries {
      PutTwice(g, key, Empty(), result.entries[key]);
    }
    assert result == Put(g, key, result.entries[key]);
  }

  /** `get_breakdown_datapoints`: skips readings without a timestamp and
      appends every other one to the bucket of its partition and breakdown
      keys, creating the partition and the bucket on first use. */
  method GetBreakdownDatapoints(datapoints: seq<DataPoint>, partition: string, breakdown: string)
    returns (result: BreakdownDatapoints)
    ensures WellFormed(result)
    ensures result.keys == PartitionOrder(datapoints, partition)
    ensures forall pk :: pk in result.entries ==>
      result.entries[pk].keys == BreakdownOrder(datapoints, partition, breakdown, pk)
    ensures forall pk, bk :: pk in result.entries && bk in result.entries[pk].entries ==>
      result.entries[pk].entries[bk] == Bucket(datapoints, partition, breakdown, pk, bk)
    ensures forall pk :: pk in result.entries ==> result.entries[pk].keys != []
    ensures forall pk, bk :: pk in result.entries && bk in result.entries[pk].entries ==>
      result.entries[pk].entries[bk] != []
    ensures multiset(Flatten(result)) == multiset(Timestamped(datapoints))
    ensures |Flatten(result)| == |Timestamped(datapoints)|
  {
    result := Empty();
    var i := 0;
    while i < |datapoints|
      invariant 0 <= i <= |datapoints|
      invariant Represents(result, datapoints[..i], partition, breakdown)
    {
      var datapoint := datapoints[i];
      if datapoint.dt.Some? {
        var key := PartitionKey(datapoint.dt.value, partition);
        var breakdownKey := BreakdownKey(datapoint.dt.value, breakdown);
        ghost var before := result;
        result := AddDatapoint(result, key, breakdownKey, datapoint);
        AppendKeepsRepresents(before, result, datapoints, i, partition, breakdown);
      } else {
        SkipKeepsRepresents(result, datapoints, i, partition, breakdown);
      }
      i := i + 1;
    }
    assert datapoints[..i] == datapoints;
    GroupingComplete(result, datapoints, partition, breakdown);
  }

  /** What the finished loop holds gives the promises of
      `GetBreakdownDatapoints`: no partition and no bucket is empty, and the
      grouping holds as many readings as have a timestamp. */
  lemma GroupingComplete(g: BreakdownDatapoints, ps: seq<DataPoint>, partition: string, breakdown: string)
    requires forall pk :: pk in g.entries ==> g.entries[pk].keys == BreakdownOrder(ps, partition, breakdown, pk)
    requires g.keys == PartitionOrder(ps, partition)
    requires WellFormed(g)
    requires forall pk, bk :: pk in g.entries && bk in g.entries[pk].entries ==>
      g.entries[pk].entries[bk] == Bucket(ps, partition, breakdown, pk, bk)
    requires multiset(Flatten(g)) == multiset(Timestamped(ps))
    ensures forall pk :: pk in g.entries ==> g.entries[pk].keys != []
    ensures forall pk, bk :: pk in g.entries && bk in g.entries[pk].entries ==> g.entries[pk].entries[bk] != []
    ensures |Flatten(g)| == |Timestamped(ps)|
  {
    assert |multiset(Flatten(g))| == |multiset(Timestamped(ps))|;
    forall pk | pk in g.entries ensures g.entries[pk].keys != [] {
      PartitionOrderMembers(ps, partition, breakdown, pk);
    }
    forall pk, bk | pk in g.entries && bk in g.entries[pk].entries
      ensures g.entries[pk].entries[bk] != []
    {
      BreakdownOrderMembers(ps, partition, breakdown, pk, bk);
    }
  }

  lemma SkipKeepsRepresents(g: BreakdownDatapoints, ps: seq<DataPoint>, i: int, partition: string, breakdown: string)
    requires 0 <= i < |ps| && Represents(g, ps[..i], partition, breakdown) && ps[i].dt.None?
    ensures Represents(g, ps[..i + 1], partition, breakdown)
  {
    PrefixStep(ps, i);
    SkipKeepsParts(g, ps[..i], ps[i], partition, breakdown);
  }

  lemma SkipKeepsParts(g: BreakdownDatapoints, ps: seq<DataPoint>, x: DataPoint, partition: string, breakdown: string)
    requires Represents(g, ps, partition, breakdown) && x.dt.None?
    ensures Represents(g, ps + [x], partition, breakdown)
  {
    PartitionOrderStep(ps, x, partition);
    forall q ensures BreakdownOrder(ps + [x], partition, breakdown, q) == BreakdownOrder(ps, partition, breakdown, q) {
      BreakdownOrderStep(ps, x, partition, breakdown, q);
    }
    forall q, c ensures Bucket(ps + [x], partition, breakdown, q, c) == Bucket(ps, partition, breakdown, q, c) {
      BucketStep(ps, x, partition, breakdown, q, c);
    }
    TimestampedStep(ps, x);
  }

  lemma AppendKeepsRepresents(g: BreakdownDatapoints, g': BreakdownDatapoints, ps: seq<DataPoint>, i: int,
                              partition: string, breakdown: string)
    requires 0 <= i < |ps| && Represents(g, ps[..i], partition, breakdown) && ps[i].dt.Some?
    requires AppendedTo(g, g', PartitionKey(ps[i].dt.value, partition), BreakdownKey(ps[i].dt.value, breakdown), ps[i])
    ensures Represents(g', ps[..i + 1], partition, breakdown)
  {
    PrefixStep(ps, i);
    AppendKeepsParts(g, g', ps[..i], ps[i], partition, breakdown);
  }

  lemma AppendKeepsParts(g: BreakdownDatapoints, g': BreakdownDatapoints, ps: seq<DataPoint>, x: DataPoint,
                              partition: string, breakdown: string)
    requires Represents(g, ps, partition, breakdown) && x.dt.Some?
    requires AppendedTo(g, g', PartitionKey(x.dt.value, partition), BreakdownKey(x.dt.value, breakdown), x)
    ensures Represents(g', ps + [x], partition, breakdown)
  {
    var pk, bk := PartitionKey(x.dt.value, partition), BreakdownKey(x.dt.value, breakdown);
    AppendKeepsWellFormed(g, g', pk, bk, x);
    AppendKeepsOrders(g, g', ps, x, partition, breakdown);
    AppendKeepsBuckets(g, g', ps, x, partition, breakdown);
    AppendPreservesContents(g, g', pk, bk, x);
    TimestampedStep(ps, x);
  }

  lemma PrefixStep(ps: seq<DataPoint>, i: int)
    requires 0 <= i < |ps|
    ensures ps[..i + 1] == ps[..i] + [ps[i]]
  {
  }

  lemma TimestampedStep(ps: seq<DataPoint>, x: DataPoint)
    ensures Timestamped(ps + [x]) == Timestamped(ps) + if x.dt.Some? then [x] else []
  {
    assert (ps + [x])[..|ps|] == ps;
  }

  lemma AppendKeepsWellFormed(g: BreakdownDatapoints, g': BreakdownDatapoints, pk: string, bk: string, x: DataPoint)
    requires WellFormed(g) && AppendedTo(g, g', pk, bk, x)
    ensures WellFormed(g')
  {
    forall q | q in g'.entries ensures g'.entries[q].Valid() {
      if q != pk { assert g'.entries[q] == g.entries[q]; }
    }
  }

  lemma AppendKeepsOrders(g: BreakdownDatapoints, g': BreakdownDatapoints, ps: seq<DataPoint>, x: DataPoint,
                          partition: string, breakdown: string)
    requires Represents(g, ps, partition, breakdown) && x.dt.Some?
    requires AppendedTo(g, g', PartitionKey(x.dt.value, partition), BreakdownKey(x.dt.value, breakdown), x)
    ensures g'.keys == PartitionOrder(ps + [x], partition)
    ensures forall q :: q in g'.entries ==> g'.entries[q].keys == BreakdownOrder(ps + [x], partition, breakdown, q)
  {
    var pk, bk := PartitionKey(x.dt.value, partition), BreakdownKey(x.dt.value, breakdown);
    assert pk in g.entries <==> pk in PartitionOrder(ps, partition);
    PartitionOrderStep(ps, x, partition);
    PartitionOrderMembers(ps, partition, breakdown, pk);
    forall q | q in g'.entries ensures g'.entries[q].keys == BreakdownOrder(ps + [x], partition, breakdown, q) {
      BreakdownOrderStep(ps, x, partition, breakdown, q);
      if q != pk {
        assert g'.entries[q] == g.entries[q];
      } else {
        var b: Buckets := if pk in g.entries then g.entries[pk] else Empty();
        assert b.keys == BreakdownOrder(ps, partition, breakdown, pk);
        assert bk in b.entries <==> bk in b.keys;
      }
    }
  }

  lemma AppendKeepsBuckets(g: BreakdownDatapoints, g': BreakdownDatapoints, ps: seq<DataPoint>, x: DataPoint,
                           partition: string, breakdown: string)
    requires Represents(g, ps, partition, breakdown) && x.dt.Some?
    requires AppendedTo(g, g', PartitionKey(x.dt.value, partition), BreakdownKey(x.dt.value, breakdown), x)
    ensures forall q, c :: q in g'.entries && c in g'.entries[q].entries ==>
      g'.entries[q].entries[c] == Bucket(ps + [x], partition, breakdown, q, c)
  {
    var pk, bk := PartitionKey(x.dt.value, partition), BreakdownKey(x.dt.value, breakdown);
    PartitionOrderMembers(ps, partition, breakdown, pk);
    BreakdownOrderMembers(ps, partition, breakdown, pk, bk);
    var b: Buckets := if pk in g.entries then g.entries[pk] else Empty();
    assert b.keys == BreakdownOrder(ps, partition, breakdown, pk);
    assert bk in b.entries <==> bk in b.keys;
    forall q, c | q in g'.entries && c in g'.entries[q].entries
      ensures g'.entries[q].entries[c] == Bucket(ps + [x], partition, breakdown, q, c)
    {
      BucketStep(ps, x, partition, breakdown, q, c);
      if q != pk {
        assert g'.entries[q] == g.entries[q];
      } else if c != bk {
        assert c in b.entries;
      }
    }
  }

  lemma BreakdownOrderStep(ps: seq<DataPoint>, x: DataPoint, partition: string, breakdown: string, pk: string)
    ensures BreakdownOrder(ps + [x], partition, breakdown, pk) ==
      if InPartition(x, partition, pk) && BreakdownKey(x.dt.value, breakdown) !in BreakdownOrder(ps, partition, breakdown, pk)
      then BreakdownOrder(ps, partition, breakdown, pk) + [BreakdownKey(x.dt.value, breakdown)]
      else BreakdownOrder(ps, partition, breakdown, pk)
  {
    assert (ps + [x])[..|ps|] == ps;
  }

  lemma BucketStep(ps: seq<DataPoint>, x: DataPoint, partition: string, breakdown: string, pk: string, bk: string)
    ensures Bucket(ps + [x], partition, breakdown, pk, bk) ==
      Bucket(ps, partition, breakdown, pk, bk) + if InBucket(x, partition, breakdown, pk, bk) then [x] else []
  {
    assert (ps + [x])[..|ps|] == ps;
  }

  lemma PartitionOrderStep(ps: seq<DataPoint>, x: DataPoint, partition: string)
    ensures PartitionOrder(ps + [x], partition) ==
      if x.dt.Some? && PartitionKey(x.dt.value, partition) !in PartitionOrder(ps, partition)
      then PartitionOrder(ps, partition) + [PartitionKey(x.dt.value, partition)]
      else PartitionOrder(ps, partition)
  {
    assert (ps + [x])[..|ps|] == ps;
  }

  /** Appending one reading to one bucket adds exactly that reading to the
      readings of the buckets. */
  lemma BucketAppendContents(b: Buckets, b': Buckets, bk: string, x: DataPoint)
    requires b.Valid() && BucketAppended(b, b', bk, x)
    ensures multiset(FlattenBuckets(b'.keys, b'.entries)) == multiset(FlattenBuckets(b.keys, b.entries)) + multiset{x}
  {
    if bk in b.entries {
      assert b'.keys == b.keys && b'.entries == b.entries[bk := b.entries[bk] + [x]];
      FlattenBucketsAppend(b.keys, b.entries, bk, x);
    } else {
      assert bk !in b.keys;
      var v := b'.entries[bk];
      assert v == [x] && b'.entries == b.entries[bk := v];
      FlattenBucketsUnaffected(b.keys, b.entries, bk, v);
      assert (b.keys + [bk])[..|b.keys|] == b.keys;
      assert FlattenBuckets(b'.keys, b'.entries) == FlattenBuckets(b.keys, b'.entries) + v;
    }
  }

  /** Appending one reading to one bucket adds exactly that reading to the
      readings of the grouping. */
  lemma AppendPreservesContents(g: BreakdownDatapoints, g': BreakdownDatapoints, pk: string, bk: string, x: DataPoint)
    requires WellFormed(g) && AppendedTo(g, g', pk, bk, x)
    ensures multiset(Flatten(g')) == multiset(Flatten(g)) + multiset{x}
  {
    if pk in g.entries {
      AppendToPartitionContents(g, g', pk, bk, x);
    } else {
      AppendNewPartitionContents(g, g', pk, bk, x);
    }
  }

  lemma AppendToPartitionContents(g: BreakdownDatapoints, g': BreakdownDatapoints, pk: string, bk: string, x: DataPoint)
    requires WellFormed(g) && AppendedTo(g, g', pk, bk, x) && pk in g.entries
    ensures multiset(Flatten(g')) == multiset(Flatten(g)) + multiset{x}
  {
    var b' := g'.entries[pk];
    BucketAppendContents(g.entries[pk], b', bk, x);
    FlattenGroupsReplace(g.keys, g.entries, pk, b', x);
  }

  lemma AppendNewPartitionContents(g: BreakdownDatapoints, g': BreakdownDatapoints, pk: string, bk: string, x: DataPoint)
    requires WellFormed(g) && AppendedTo(g, g', pk, bk, x) && pk !in g.entries
    ensures multiset(Flatten(g')) == multiset(Flatten(g)) + multiset{x}
  {
    var b' := g'.entries[pk];
    assert multiset(FlattenBuckets(b'.keys, b'.entries)) == multiset{x} by {
      var e: Buckets := Empty();
      BucketAppendContents(e, b', bk, x);
    }
    assert Flatten(g') == FlattenGroups(g.keys, g.entries) + FlattenBuckets(b'.keys, b'.entries) by {
      assert pk !in g.keys;
      FlattenGroupsUnaffected(g.keys, g.entries, pk, b');
      assert (g.keys + [pk])[..|g.keys|] == g.keys;
    }
  }

  lemma {:induction false} FlattenBucketsUnaffected(keys: seq<string>, m: map<string, seq<DataPoint>>, k: string, v: seq<DataPoint>)
    requires k !in keys
    ensures FlattenBuckets(keys, m[k := v]) == FlattenBuckets(keys, m)
  {
    if keys != [] {
      FlattenBucketsUnaffected(keys[..|keys| - 1], m, k, v);
    }
  }

  lemma {:induction false} FlattenBucketsAppend(keys: seq<string>, m: map<string, seq<DataPoint>>, k: string, x: DataPoint)
    requires Distinct(keys) && k in keys && k in m
    ensures multiset(FlattenBuckets(keys, m[k := m[k] + [x]])) == multiset(FlattenBuckets(keys, m)) + multiset{x}
  {
    var init := keys[..|keys| - 1];
    if keys[|keys| - 1] == k {
      assert k !in init;
      FlattenBucketsUnaffected(init, m, k, m[k] + [x]);
    } else {
      FlattenBucketsAppend(init, m, k, x);
    }
  }

  lemma {:induction false} FlattenGroupsUnaffected(keys: seq<string>, m: map<string, Buckets>, k: string, v: Buckets)
    requires k !in keys
    ensures FlattenGroups(keys, m[k := v]) == FlattenGroups(keys, m)
  {
    if keys != [] {
      FlattenGroupsUnaffected(keys[..|keys| - 1], m, k, v);
    }
  }

  lemma {:induction false} FlattenGroupsReplace(keys: seq<string>, m: map<string, Buckets>, k: string, v: Buckets, x: DataPoint)
    requires Distinct(keys) && k in keys && k in m
    requires multiset(FlattenBuckets(v.keys, v.entries)) == multiset(FlattenBuckets(m[k].keys, m[k].entries)) + multiset{x}
    ensures multiset(FlattenGroups(keys, m[k := v])) == multiset(FlattenGroups(keys, m)) + multiset{x}
  {
    var init := keys[..|keys| - 1];
    if keys[|keys| - 1] == k {
      assert k !in init;
      FlattenGroupsUnaffected(init, m, k, v);
    } else {
      FlattenGroupsReplace(init, m, k, v, x);
    }
  }

  // ---- properties of the reference functions ----

  /** A breakdown key is listed for a partition exactly when its bucket is
      non-empty: no bucket is ever created empty. */
  lemma {:induction false} BreakdownOrderMembers(ps: seq<DataPoint>, partition: string, breakdown: string, pk: string, bk: string)
    ensures bk in BreakdownOrder(ps, partition, breakdown, pk) <==> Bucket(ps, partition, breakdown, pk, bk) != []
  {
    if ps != [] {
      BreakdownOrderMembers(ps[..|ps| - 1], partition, breakdown, pk, bk);
    }
  }

  /** A partition key is listed exactly when its partition has a breakdown
      key: no partition is ever created empty. */
  lemma {:induction false} PartitionOrderMembers(ps: seq<DataPoint>, partition: string, breakdown: string, pk: string)
    ensures pk in PartitionOrder(ps, partition) <==> BreakdownOrder(ps, partition, breakdown, pk) != []
  {
    if ps != [] {
      PartitionOrderMembers(ps[..|ps| - 1], partition, breakdown, pk);
    }
  }

  /** A bucket holds exactly the input readings that carry its two keys. */
  lemma {:induction false} BucketMembers(ps: seq<DataPoint>, partition: string, breakdown: string, pk: string, bk: string, x: DataPoint)
    ensures x in Bucket(ps, partition, breakdown, pk, bk) <==> x in ps && InBucket(x, partition, breakdown, pk, bk)
  {
    if ps != [] {
      var init := ps[..|ps| - 1];
      BucketMembers(init, partition, breakdown, pk, bk, x);
      assert ps == init + [ps[|ps| - 1]];
    }
  }

  /** The readings kept by the grouping are exactly the timestamped ones. */
  lemma {:induction false} TimestampedMembers(ps: seq<DataPoint>, x: DataPoint)
    ensures x in Timestamped(ps) <==> x in ps && x.dt.Some?
  {
    if ps != [] {
      var init := ps[..|ps| - 1];
      TimestampedMembers(init, x);
      assert ps == init + [ps[|ps| - 1]];
    }
  }

  // ---- the program as written: reading an unset `dt` ----

  /** Line 45 as the program runs it. A reading whose timestamp failed to
      parse has no `dt` attribute at all, so evaluating `datapoint.dt`
      raises AttributeError, and the first such reading ends the run; a
      reading that has the attribute always passes the test. */
  function TimestampGuardAsWritten(ps: seq<DataPoint>): (r: Result<seq<DataPoint>, Error>)
    ensures r.Failure? <==> exists j :: 0 <= j < |ps| && ps[j].dt.None?
    ensures r.Success? ==> r.value == ps
    ensures r.Failure? ==> r.error == AttributeError("dt")
  {
    if ps == [] then Success([])
    else if ps[0].dt.None? then Failure(AttributeError("dt"))
    else
      match TimestampGuardAsWritten(ps[1..])
      case Failure(e) => Failure(e)
      case Success(rest) => Success([ps[0]] + rest)
  }

  /** The discrepancy: one row whose timestamp does not parse ends the
      program as written, where the intended grouping just leaves it out. */
  lemma UnparsableRowAbortsAsWritten(toFloat: string -> real)
    ensures var ps := [NewDataPoint(["not-a-date", "5"], toFloat)];
      TimestampGuardAsWritten(ps).Failure? && Timestamped(ps) == []
  {
    UnparsableTimestamp(toFloat);
    var ps := [NewDataPoint(["not-a-date", "5"], toFloat)];
    assert ps[..0] == [];
    assert ps[0].dt.None?;
  }
}
