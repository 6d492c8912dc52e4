/** Shot medians, category means and partition macros. */
module Macro {
  import opened Arith
  import opened Quantile

  datatype Shot = Shot(id: string, samples: seq<Value>)
  datatype Category = Category(id: string, shots: seq<Shot>)
  datatype Partition = Partition(id: string, categories: seq<Category>)

  datatype CategoryResult = CategoryResult(id: string, shots: seq<real>, macro: real)
  datatype PartitionResult = PartitionResult(id: string, categories: seq<CategoryResult>, macro: real)

  function Sum(s: seq<real>): real {
    if s == [] then 0.0 else Sum(s[..|s| - 1]) + s[|s| - 1]
  }

  function Mean(s: seq<real>): real
    requires s != []
  {
    Sum(s) / |s| as real
  }

  // ----- What may be aggregated -----

  predicate ShotOk(shot: Shot) {
    shot.id != "" && shot.samples != [] && forall v <- shot.samples :: v.Number?
  }

  predicate CategoryOk(category: Category) {
    category.id != "" && category.shots != [] && forall shot <- category.shots :: ShotOk(shot)
  }

  predicate PartitionOk(partition: Partition) {
    partition.id != "" && partition.categories != [] && forall category <- partition.categories :: CategoryOk(category)
  }

  function Samples(shot: Shot): (r: seq<real>)
    requires ShotOk(shot)
    ensures |r| == |shot.samples| && forall i :: 0 <= i < |r| ==> r[i] == shot.samples[i].n
  {
    seq(|shot.samples|, i requires 0 <= i < |shot.samples| => shot.samples[i].n)
  }

  function Median(shot: Shot): real
    requires ShotOk(shot)
  {
    Quantile.Quantile(Samples(shot), 0.5)
  }

  function Medians(category: Category): (r: seq<real>)
    requires CategoryOk(category)
    ensures |r| == |category.shots| && forall i :: 0 <= i < |r| ==> r[i] == Median(category.shots[i])
  {
    seq(|category.shots|, i requires 0 <= i < |category.shots| => Median(category.shots[i]))
  }

  function OfCategory(category: Category): CategoryResult
    requires CategoryOk(category)
  {
    CategoryResult(category.id, Medians(category), Mean(Medians(category)))
  }

  function CategoryMacros(partition: Partition): (r: seq<real>)
    requires PartitionOk(partition)
    ensures |r| == |partition.categories| && forall i :: 0 <= i < |r| ==>
      r[i] == OfCategory(partition.categories[i]).macro
  {
    seq(|partition.categories|, i requires 0 <= i < |partition.categories| => OfCategory(partition.categories[i]).macro)
  }

  function OfPartition(partition: Partition): (r: PartitionResult)
    requires PartitionOk(partition)
  {
    PartitionResult(partition.id,
      seq(|partition.categories|, i requires 0 <= i < |partition.categories| => OfCategory(partition.categories[i])),
      Mean(CategoryMacros(partition)))
  }

  // ----- The aggregation -----

  lemma {:induction false} AllFinite(values: seq<Value>)
    requires forall v <- values :: v.Number?
    ensures |FiniteOnly(values)| == |values| && forall i :: 0 <= i < |values| ==> FiniteOnly(values)[i] == values[i].n
  {
    if values == [] {
    } else {
      AllFinite(values[..|values| - 1]);
    }
  }

  method ReduceShot(shot: Shot) returns (r: Result<real>)
    ensures r == if ShotOk(shot) then Ok(Median(shot)) else Failure("malformed")
  {
    hide Quantile.Quantile;
    if !ShotOk(shot) { return Failure("malformed"); }
    AllFinite(shot.samples);
    assert FiniteOnly(shot.samples) == Samples(shot) != [];
    assert forall i :: 0 <= i < |shot.samples| ==> !Malformed(shot.samples[i]) by {
      forall i | 0 <= i < |shot.samples|
        ensures !Malformed(shot.samples[i])
      {
        assert shot.samples[i] in shot.samples;
      }
    }
    r := LinearQuantile(shot.samples, Number(0.5));
  }

  /** The middle of the nest: one category's shot medians and their mean. */
  method AggregateCategory(category: Category) returns (r: Result<CategoryResult>)
    ensures r == if CategoryOk(category) then Ok(OfCategory(category)) else Failure("malformed")
  {
    hide ShotOk, Median, Sum;
    if category.id == "" || category.shots == [] { return Failure("malformed"); }
    var medians: seq<real> := [];
    for i := 0 to |category.shots|
      invariant forall k :: 0 <= k < i ==> ShotOk(category.shots[k])
      invariant |medians| == i && forall k :: 0 <= k < i ==> medians[k] == Median(category.shots[k])
    {
      var shot := category.shots[i];
      assert shot in category.shots;
      var median := ReduceShot(shot);
      if median.Failure? { return Failure("malformed"); }
      medians := medians + [median.value];
    }
    assert medians == Medians(category);
    var total := Total(medians);
    return Ok(CategoryResult(category.id, medians, total / |medians| as real));
  }

  method Total(s: seq<real>) returns (total: real)
    ensures total == Sum(s)
  {
    total := 0.0;
    for i := 0 to |s|
      invariant total == Sum(s[..i])
    {
      assert s[..i + 1][..i] == s[..i];
      total := total + s[i];
    }
    assert s[..|s|] == s;
  }

  method AggregatePartition(partition: Partition) returns (r: Result<PartitionResult>)
    ensures r == if PartitionOk(partition) then Ok(OfPartition(partition)) else Failure("malformed")
  {
    hide CategoryOk, OfCategory, Sum;
    if partition.id == "" || partition.categories == [] { return Failure("malformed"); }
    var results: seq<CategoryResult> := [];
    var macros: seq<real> := [];
    for i := 0 to |partition.categories|
      invariant forall k :: 0 <= k < i ==> CategoryOk(partition.categories[k])
      invariant |results| == |macros| == i
      invariant forall k :: 0 <= k < i ==>
        results[k] == OfCategory(partition.categories[k]) && macros[k] == results[k].macro
    {
      assert partition.categories[i] in partition.categories;
      var category := AggregateCategory(partition.categories[i]);
      if category.Failure? { return Failure("malformed"); }
      results, macros := results + [category.value], macros + [category.value.macro];
    }
    assert macros == CategoryMacros(partition) && results == OfPartition(partition).categories;
    var total := Total(macros);
    return Ok(PartitionResult(partition.id, results, total / |macros| as real));
  }

  /** `macro_aggregate` of explicit samples. All refusals are one failure here. */
  method MacroAggregate(partitions: seq<Partition>) returns (r: Result<seq<PartitionResult>>)
    ensures r.Ok? <==> partitions != [] && forall p <- partitions :: PartitionOk(p)
    ensures r.Ok? ==> |r.value| == |partitions| && forall i :: 0 <= i < |partitions| ==>
      r.value[i] == OfPartition(partitions[i])
  {
    hide PartitionOk, OfPartition;
    if partitions == [] { return Failure("malformed"); }
    var results: seq<PartitionResult> := [];
    for i := 0 to |partitions|
      invariant forall k :: 0 <= k < i ==> PartitionOk(partitions[k])
      invariant |results| == i && forall k :: 0 <= k < i ==> results[k] == OfPartition(partitions[k])
    {
      assert partitions[i] in partitions;
      var partition := AggregatePartition(partitions[i]);
      if partition.Failure? { return Failure("malformed"); }
      results := results + [partition.value];
    }
    return Ok(results);
  }

  // ----- Stability -----

  ghost predicate CloseShots(a: Shot, b: Shot, d: real) {
    && ShotOk(a) && ShotOk(b) && |a.samples| == |b.samples|
    && forall i :: 0 <= i < |a.samples| ==> -d <= a.samples[i].n - b.samples[i].n <= d
  }

  ghost predicate CloseCategories(a: Category, b: Category, d: real) {
    && CategoryOk(a) && CategoryOk(b) && |a.shots| == |b.shots|
    && forall i :: 0 <= i < |a.shots| ==> CloseShots(a.shots[i], b.shots[i], d)
  }

  ghost predicate ClosePartitions(a: Partition, b: Partition, d: real) {
    && PartitionOk(a) && PartitionOk(b) && |a.categories| == |b.categories|
    && forall i :: 0 <= i < |a.categories| ==> CloseCategories(a.categories[i], b.categories[i], d)
  }

  lemma {:induction false} SumDominated(a: seq<real>, b: seq<real>, d: real)
    requires |a| == |b| && forall i :: 0 <= i < |a| ==> a[i] <= b[i] + d
    ensures Sum(a) <= Sum(b) + |a| as real * d
  {
    if a == [] {
    } else {
      var n := |a| - 1;
      SumDominated(a[..n], b[..n], d);
      assert |a| as real * d == n as real * d + d;
    }
  }

  lemma MeanDominated(a: seq<real>, b: seq<real>, d: real)
    requires a != [] && |a| == |b| && forall i :: 0 <= i < |a| ==> a[i] <= b[i] + d
    ensures Mean(a) <= Mean(b) + d
  {
    SumDominated(a, b, d);
    hide Sum;
    Quotients(Sum(a), Sum(b), |a| as real, d);
  }

  lemma Quotients(x: real, y: real, n: real, d: real)
    requires n > 0.0 && x <= y + n * d
    ensures x / n <= y / n + d
  {
    var p, q := x / n, y / n;
    assert x == p * n && y == q * n;
    if p > q + d { MulLt(q + d, p, n); }
  }

  lemma MeanLipschitz(a: seq<real>, b: seq<real>, d: real)
    requires a != [] && |a| == |b| && forall i :: 0 <= i < |a| ==> -d <= a[i] - b[i] <= d
    ensures -d <= Mean(a) - Mean(b) <= d
  {
    MeanDominated(a, b, d);
    MeanDominated(b, a, d);
  }

  lemma CategoryLipschitz(a: Category, b: Category, d: real)
    requires CloseCategories(a, b, d)
    ensures forall i :: 0 <= i < |a.shots| ==> -d <= Median(a.shots[i]) - Median(b.shots[i]) <= d
    ensures -d <= OfCategory(a).macro - OfCategory(b).macro <= d
  {
    hide Mean, Quantile.Quantile;
    forall i | 0 <= i < |a.shots|
      ensures -d <= Median(a.shots[i]) - Median(b.shots[i]) <= d
    {
      assert CloseShots(a.shots[i], b.shots[i], d);
      assert Samples(a.shots[i]) != [];
      QuantileLipschitz(Samples(a.shots[i]), Samples(b.shots[i]), 0.5, d);
    }
    MeanLipschitz(Medians(a), Medians(b), d);
  }

  /** Moving every sample by at most `d` moves no shot median, category mean or partition macro by more. */
  lemma MacroLipschitz(a: Partition, b: Partition, d: real)
    requires ClosePartitions(a, b, d)
    ensures -d <= OfPartition(a).macro - OfPartition(b).macro <= d
    ensures forall i :: 0 <= i < |a.categories| ==>
      -d <= OfPartition(a).categories[i].macro - OfPartition(b).categories[i].macro <= d
  {
    hide Mean, CategoryOk, OfCategory, CloseCategories;
    forall i | 0 <= i < |a.categories|
      ensures -d <= OfCategory(a.categories[i]).macro - OfCategory(b.categories[i]).macro <= d
    {
      CategoryLipschitz(a.categories[i], b.categories[i], d);
    }
    MeanLipschitz(CategoryMacros(a), CategoryMacros(b), d);
  }

  /** A macro lies within any bounds its samples lie within. */
  lemma MacroBounded(p: Partition, lo: real, hi: real)
    requires PartitionOk(p)
    requires forall category <- p.categories, shot <- category.shots, v <- shot.samples :: lo <= v.n <= hi
    ensures lo <= OfPartition(p).macro <= hi
  {
    hide Mean;
    forall i | 0 <= i < |p.categories|
      ensures lo <= OfCategory(p.categories[i]).macro <= hi
    {
      var category := p.categories[i];
      assert CategoryOk(category);
      forall k | 0 <= k < |category.shots|
        ensures lo <= Median(category.shots[k]) <= hi
      {
        assert ShotOk(category.shots[k]);
        QuantileBounded(Samples(category.shots[k]), 0.5, lo, hi);
      }
      MeanBounded(Medians(category), lo, hi);
    }
    MeanBounded(CategoryMacros(p), lo, hi);
  }

  lemma MeanBounded(s: seq<real>, lo: real, hi: real)
    requires s != [] && forall i :: 0 <= i < |s| ==> lo <= s[i] <= hi
    ensures lo <= Mean(s) <= hi
  {
    SumBounded(s, lo, hi);
    hide Sum;
    var n := |s| as real;
    Quotients(Sum(s), 0.0, n, hi);
    Quotients(0.0, Sum(s), n, -lo);
  }

  lemma {:induction false} SumBounded(s: seq<real>, lo: real, hi: real)
    requires forall i :: 0 <= i < |s| ==> lo <= s[i] <= hi
    ensures |s| as real * lo <= Sum(s) <= |s| as real * hi
  {
    if s == [] {
    } else {
      var n := |s| - 1;
      SumBounded(s[..n], lo, hi);
      assert |s| as real * lo == n as real * lo + lo && |s| as real * hi == n as real * hi + hi;
    }
  }

  // ----- Equal weights -----

  lemma {:induction false} SumMoves(a: seq<real>, b: seq<real>, i: nat)
    requires |a| == |b| && i < |a| && forall j :: 0 <= j < |a| && j != i ==> a[j] == b[j]
    ensures Sum(a) - Sum(b) == a[i] - b[i]
  {
    var n := |a| - 1;
    if i == n {
      assert a[..n] == b[..n];
    } else {
      SumMoves(a[..n], b[..n], i);
    }
  }

  lemma MeanMoves(a: seq<real>, b: seq<real>, i: nat)
    requires |a| == |b| && i < |a| && forall j :: 0 <= j < |a| && j != i ==> a[j] == b[j]
    ensures |a| as real * (Mean(a) - Mean(b)) == a[i] - b[i]
  {
    SumMoves(a, b, i);
    hide Sum;
    Shares(Sum(a), Sum(b), |a| as real);
  }

  lemma Shares(x: real, y: real, n: real)
    requires n > 0.0
    ensures n * (x / n - y / n) == x - y
  {
    assert n * (x / n) == x && n * (y / n) == y;
    assert n * (x / n - y / n) == n * (x / n) - n * (y / n);
  }

  /** Every shot weighs the same in its category, whatever its number of samples: moving one shot's median
      moves the category's mean by its share. */
  lemma ShotsWeighEqually(a: Category, b: Category, i: nat)
    requires CategoryOk(a) && CategoryOk(b) && |a.shots| == |b.shots| && i < |a.shots|
    requires forall j :: 0 <= j < |a.shots| && j != i ==> a.shots[j] == b.shots[j]
    ensures |a.shots| as real * (OfCategory(a).macro - OfCategory(b).macro) == Median(a.shots[i]) - Median(b.shots[i])
  {
    hide Mean, Median, ShotOk;
    MeanMoves(Medians(a), Medians(b), i);
  }

  /** And every category weighs the same in its partition. */
  lemma CategoriesWeighEqually(a: Partition, b: Partition, i: nat)
    requires PartitionOk(a) && PartitionOk(b) && |a.categories| == |b.categories| && i < |a.categories|
    requires forall j :: 0 <= j < |a.categories| && j != i ==> a.categories[j] == b.categories[j]
    ensures |a.categories| as real * (OfPartition(a).macro - OfPartition(b).macro)
      == OfCategory(a.categories[i]).macro - OfCategory(b.categories[i]).macro
  {
    hide Mean, CategoryOk, OfCategory;
    MeanMoves(CategoryMacros(a), CategoryMacros(b), i);
  }

  /** At least half of a shot's samples lie at or below its median, and at least half at or above it. */
  lemma ShotMedianSplits(shot: Shot)
    requires ShotOk(shot)
    ensures 2 * Count(Samples(shot), Median(shot)) >= |shot.samples|
    ensures 2 * Count(Negated(Samples(shot)), -Median(shot)) >= |shot.samples|
  {
    hide Quantile.Quantile, Count;
    assert Samples(shot) != [];
    MedianSplits(Samples(shot));
  }
}
