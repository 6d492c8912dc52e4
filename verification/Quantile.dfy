/** Quantiles and the macro aggregation built on them, in exact real arithmetic. */
module Quantile {
  import opened Arith

  /** What a caller may put in a list: only finite numbers reach the arithmetic. */
  datatype Value = Number(n: real) | NonFinite | Boolean | NotNumeric

  datatype Result<T> = Ok(value: T) | Failure(kind: string)

  // ----- Sorting -----

  predicate Ascending(s: seq<real>) {
    forall i, j :: 0 <= i < j < |s| ==> s[i] <= s[j]
  }

  function Insert(x: real, s: seq<real>): (r: seq<real>)
    ensures |r| == |s| + 1
  {
    if s == [] || x <= s[0] then [x] + s else [s[0]] + Insert(x, s[1..])
  }

  /** `list.sort` */
  function Sort(s: seq<real>): (r: seq<real>)
    ensures |r| == |s|
  {
    if s == [] then [] else Insert(s[0], Sort(s[1..]))
  }

  /** How many elements are at most `t`. */
  function Count(s: seq<real>, t: real): nat {
    if s == [] then 0 else (if s[0] <= t then 1 else 0) + Count(s[1..], t)
  }

  lemma {:induction false} InsertAscends(x: real, s: seq<real>)
    requires Ascending(s)
    ensures Ascending(Insert(x, s)) && Insert(x, s)[0] == if s == [] || x <= s[0] then x else s[0]
  {
    if s != [] && x > s[0] { InsertAscends(x, s[1..]); }
  }

  lemma {:induction false} SortAscends(s: seq<real>)
    ensures Ascending(Sort(s))
  {
    if s == [] {
    } else {
      SortAscends(s[1..]);
      InsertAscends(s[0], Sort(s[1..]));
    }
  }

  lemma {:induction false} InsertCounts(x: real, s: seq<real>, t: real)
    ensures Count(Insert(x, s), t) == Count(s, t) + if x <= t then 1 else 0
  {
    if s == [] || x <= s[0] {
      assert ([x] + s)[1..] == s;
    } else {
      InsertCounts(x, s[1..], t);
      assert ([s[0]] + Insert(x, s[1..]))[1..] == Insert(x, s[1..]);
    }
  }

  lemma {:induction false} SortCounts(s: seq<real>, t: real)
    ensures Count(Sort(s), t) == Count(s, t)
  {
    if s == [] {
    } else {
      SortCounts(s[1..], t);
      InsertCounts(s[0], Sort(s[1..]), t);
    }
  }

  /** In an ascending list the element at `k` is at most `t` exactly when more than `k` elements are. */
  lemma {:induction false} CountReaches(s: seq<real>, k: nat, t: real)
    requires Ascending(s) && k < |s|
    ensures s[k] <= t <==> Count(s, t) > k
    ensures Count(s, t) <= |s|
  {
    if k > 0 {
      CountReaches(s[1..], k - 1, t);
      if s[0] > t { NoneCounted(s, t); }
    } else if s[0] > t {
      NoneCounted(s, t);
    } else if |s| > 1 {
      CountReaches(s[1..], 0, t);
    }
  }

  lemma {:induction false} NoneCounted(s: seq<real>, t: real)
    requires Ascending(s) && (s != [] ==> s[0] > t)
    ensures Count(s, t) == 0
  {
    if s == [] {
    } else {
      NoneCounted(s[1..], t);
    }
  }

  /** Sorted position `k` is at most `t` exactly when the list has more than `k` elements up to `t`. */
  lemma {:induction false} SortedAt(s: seq<real>, k: nat, t: real)
    requires k < |s|
    ensures Sort(s)[k] <= t <==> Count(s, t) > k
  {
    SortAscends(s);
    SortCounts(s, t);
    CountReaches(Sort(s), k, t);
  }

  lemma Without<T>(b: seq<T>, i: nat)
    requires i < |b|
    ensures multiset(b[..i] + b[i + 1..]) == multiset(b) - multiset{b[i]}
  {
    assert b == b[..i] + ([b[i]] + b[i + 1..]);
  }

  lemma WithoutFirst<T>(a: seq<T>)
    requires a != []
    ensures multiset(a[1..]) == multiset(a) - multiset{a[0]}
  {
    assert a == [a[0]] + a[1..];
  }

  /** Where the first element of one list is found in a permutation of it. */
  lemma FirstFound<T>(a: seq<T>, b: seq<T>) returns (i: nat)
    requires a != [] && multiset(a) == multiset(b)
    ensures i < |b| && b[i] == a[0] && multiset(a[1..]) == multiset(b[..i] + b[i + 1..])
  {
    assert a[0] in multiset(b) by { assert a[0] in multiset(a); }
    i :| 0 <= i < |b| && b[i] == a[0];
    Without(b, i);
    WithoutFirst(a);
  }

  lemma {:induction false} CountFollowsMultiset(a: seq<real>, b: seq<real>, t: real)
    requires multiset(a) == multiset(b)
    ensures Count(a, t) == Count(b, t)
    decreases |a|
  {
    if a == [] {
      assert |b| == |multiset(b)| == 0;
    } else {
      var i := FirstFound(a, b);
      CountFollowsMultiset(a[1..], b[..i] + b[i + 1..], t);
      CountWithout(b, i, t);
    }
  }

  lemma {:induction false} CountWithout(b: seq<real>, i: nat, t: real)
    requires i < |b|
    ensures Count(b, t) == Count(b[..i] + b[i + 1..], t) + if b[i] <= t then 1 else 0
  {
    if i == 0 {
      assert b[..0] + b[1..] == b[1..];
    } else {
      CountWithout(b[1..], i - 1, t);
      assert (b[..i] + b[i + 1..])[1..] == b[1..][..i - 1] + b[1..][i..];
    }
  }

  /** Sorting forgets the order. */
  lemma {:induction false} SortForgetsOrder(a: seq<real>, b: seq<real>)
    requires multiset(a) == multiset(b)
    ensures Sort(a) == Sort(b)
  {
    assert |a| == |multiset(a)| == |multiset(b)| == |b|;
    forall k | 0 <= k < |a|
      ensures Sort(a)[k] == Sort(b)[k]
    {
      CountFollowsMultiset(a, b, Sort(a)[k]);
      CountFollowsMultiset(a, b, Sort(b)[k]);
      SortedAt(a, k, Sort(a)[k]);
      SortedAt(b, k, Sort(a)[k]);
      SortedAt(a, k, Sort(b)[k]);
      SortedAt(b, k, Sort(b)[k]);
    }
  }

  lemma {:induction false} CountDominates(a: seq<real>, b: seq<real>, d: real, t: real)
    requires |a| == |b| && forall i :: 0 <= i < |a| ==> a[i] <= b[i] + d
    ensures Count(b, t) <= Count(a, t + d)
  {
    if a == [] {
    } else {
      CountDominates(a[1..], b[1..], d, t);
    }
  }

  /** Sorted dominance: what holds sample by sample holds position by position after sorting. */
  lemma {:induction false} SortDominates(a: seq<real>, b: seq<real>, d: real, k: nat)
    requires |a| == |b| && k < |a| && forall i :: 0 <= i < |a| ==> a[i] <= b[i] + d
    ensures Sort(a)[k] <= Sort(b)[k] + d
  {
    var t := Sort(b)[k];
    SortedAt(b, k, t);
    CountDominates(a, b, d, t);
    SortedAt(a, k, t + d);
  }

  // ----- The quantile -----

  /** Linear interpolation at height `(n - 1) * p` of the sorted values. */
  function AtHeight(ordered: seq<real>, height: real): real
    requires 0.0 <= height <= |ordered| as real - 1.0
  {
    var lower, upper := height.Floor, Ceiling(height);
    Mix(ordered[lower], ordered[upper], height - lower as real)
  }

  function Mix(x: real, y: real, fraction: real): real { x + fraction * (y - x) }

  function Ceiling(x: real): (r: int)
    ensures x <= r as real < x + 1.0
  {
    -((-x).Floor)
  }

  function Height(n: nat, p: real): (r: real)
    requires n > 0 && 0.0 <= p <= 1.0
    ensures 0.0 <= r <= n as real - 1.0
  {
    InUnit((n - 1) as real, p);
    (n - 1) as real * p
  }

  lemma InUnit(x: real, p: real)
    requires x >= 0.0 && 0.0 <= p <= 1.0
    ensures 0.0 <= x * p <= x
  {
  }

  function Quantile(s: seq<real>, p: real): real
    requires s != [] && 0.0 <= p <= 1.0
  {
    AtHeight(Sort(s), Height(|s|, p))
  }

  function FiniteOnly(values: seq<Value>): seq<real> {
    if values == [] then []
    else
      var last := values[|values| - 1];
      FiniteOnly(values[..|values| - 1]) + if last.Number? then [last.n] else []
  }

  predicate Malformed(v: Value) { v.Boolean? || v.NotNumeric? }

  /** How the first malformed value is refused; empty when there is none. */
  function ValueFault(values: seq<Value>): string {
    if values == [] then ""
    else if values[0].Boolean? then "bool_value"
    else if values[0].NotNumeric? then "non_numeric"
    else ValueFault(values[1..])
  }

  predicate IsPercentile(v: Value) { v.Number? && 0.0 <= v.n <= 1.0 }

  /** The quantile of whatever a caller passes: non-finite values are dropped, malformed ones refused. */
  function QuantileOf(values: seq<Value>, percentile: Value): Result<real> {
    if !IsPercentile(percentile) then Failure("invalid_percentile")
    else if ValueFault(values) != "" then Failure(ValueFault(values))
    else if FiniteOnly(values) == [] then Failure("empty_values")
    else Ok(Quantile(FiniteOnly(values), percentile.n))
  }

  /** `linear_quantile` */
  method LinearQuantile(values: seq<Value>, percentile: Value) returns (r: Result<real>)
    ensures r == QuantileOf(values, percentile)
    ensures !percentile.Number? || !(0.0 <= percentile.n <= 1.0) ==> r == Failure("invalid_percentile")
    ensures percentile.Number? && 0.0 <= percentile.n <= 1.0 ==>
      if exists i :: 0 <= i < |values| && Malformed(values[i]) then
        exists i :: 0 <= i < |values| && Malformed(values[i]) && (forall j :: 0 <= j < i ==> !Malformed(values[j]))
          && r == Failure(if values[i].Boolean? then "bool_value" else "non_numeric")
      else if FiniteOnly(values) == [] then r == Failure("empty_values")
      else r == Ok(Quantile(FiniteOnly(values), percentile.n))
  {
    if !percentile.Number? || !(0.0 <= percentile.n <= 1.0) { return Failure("invalid_percentile"); }
    var p := percentile.n;
    if values == [] { return Failure("empty_values"); }
    var ordered: seq<real> := [];
    for index := 0 to |values|
      invariant forall j :: 0 <= j < index ==> !Malformed(values[j])
      invariant ordered == FiniteOnly(values[..index])
      invariant ValueFault(values) == ValueFault(values[index..])
    {
      assert values[..index + 1][..index] == values[..index];
      match values[index]
      case Boolean => return Failure("bool_value");
      case NotNumeric => return Failure("non_numeric");
      case Number(n) => ordered := ordered + [n];
      case NonFinite =>
    }
    assert values[..|values|] == values;
    hide Mix, Height, Sort;
    if ordered == [] { return Failure("empty_values"); }
    var n := |ordered|;
    ordered := Sort(ordered);
    var height := Height(n, p);
    var lower, upper := height.Floor, Ceiling(height);
    var fraction := height - lower as real;
    return Ok(Mix(ordered[lower], ordered[upper], fraction));
  }

  // ----- Stability -----

  /** The order of the samples does not matter. */
  lemma QuantileForgetsOrder(a: seq<real>, b: seq<real>, p: real)
    requires a != [] && multiset(a) == multiset(b) && 0.0 <= p <= 1.0
    ensures |a| == |b| && Quantile(a, p) == Quantile(b, p)
  {
    assert |a| == |multiset(a)| == |multiset(b)| == |b|;
    SortForgetsOrder(a, b);
  }

  lemma {:induction false} FiniteOnlyCounts(values: seq<Value>, x: real)
    ensures multiset(FiniteOnly(values))[x] == multiset(values)[Number(x)]
  {
    if values == [] {
    } else {
      var n := |values| - 1;
      FiniteOnlyCounts(values[..n], x);
      assert values == values[..n] + [values[n]];
    }
  }

  /** Dropping the non-finite values of a permuted list permutes what is left. */
  lemma {:induction false} FiniteOnlyForgetsOrder(a: seq<Value>, b: seq<Value>)
    requires multiset(a) == multiset(b)
    ensures multiset(FiniteOnly(a)) == multiset(FiniteOnly(b))
  {
    forall x
      ensures multiset(FiniteOnly(a))[x] == multiset(FiniteOnly(b))[x]
    {
      FiniteOnlyCounts(a, x);
      FiniteOnlyCounts(b, x);
    }
  }

  lemma {:induction false} OneKindOfFault(values: seq<Value>)
    requires !(Boolean in values && NotNumeric in values)
    ensures ValueFault(values) ==
      if Boolean in values then "bool_value" else if NotNumeric in values then "non_numeric" else ""
  {
    if values == [] {
    } else {
      OneKindOfFault(values[1..]);
      assert values == [values[0]] + values[1..];
    }
  }

  lemma BroughtToFront(a: seq<Value>, v: Value) returns (b: seq<Value>)
    requires v in a
    ensures multiset(b) == multiset(a) && b != [] && b[0] == v
  {
    var i :| 0 <= i < |a| && a[i] == v;
    b := [v] + (a[..i] + a[i + 1..]);
    assert a == a[..i] + ([a[i]] + a[i + 1..]);
  }

  lemma SameValues(a: seq<Value>, b: seq<Value>)
    requires multiset(a) == multiset(b)
    ensures forall v :: v in a <==> v in b
  {
    forall v ensures v in a <==> v in b {
      assert v in a <==> v in multiset(a);
      assert v in b <==> v in multiset(b);
    }
  }

  /** Permuting a caller's list keeps the quantile, dropped values and refusals included, exactly when the
      list does not mix the two kinds of malformed value, of which the first one found is reported. */
  lemma ListForgetsOrderExactly(a: seq<Value>, percentile: Value)
    ensures (forall b | multiset(b) == multiset(a) :: QuantileOf(b, percentile) == QuantileOf(a, percentile))
      <==> !IsPercentile(percentile) || !(Boolean in a && NotNumeric in a)
  {
    if IsPercentile(percentile) && Boolean in a && NotNumeric in a {
      var first := BroughtToFront(a, Boolean);
      var second := BroughtToFront(a, NotNumeric);
      assert QuantileOf(first, percentile) != QuantileOf(second, percentile);
    } else if IsPercentile(percentile) {
      forall b | multiset(b) == multiset(a)
        ensures QuantileOf(b, percentile) == QuantileOf(a, percentile)
      {
        ListForgetsOrder(a, b, percentile);
      }
    }
  }

  lemma ListForgetsOrder(a: seq<Value>, b: seq<Value>, percentile: Value)
    requires multiset(b) == multiset(a) && IsPercentile(percentile) && !(Boolean in a && NotNumeric in a)
    ensures QuantileOf(b, percentile) == QuantileOf(a, percentile)
  {
    hide Quantile, FiniteOnly;
    SameValues(a, b);
    OneKindOfFault(a);
    OneKindOfFault(b);
    FiniteOnlyForgetsOrder(a, b);
    var s, t := FiniteOnly(a), FiniteOnly(b);
    assert |s| == |multiset(s)| == |multiset(t)| == |t|;
    if s != [] { QuantileForgetsOrder(s, t, percentile.n); }
  }

  lemma MixBetween(x: real, y: real, f: real)
    requires x <= y && 0.0 <= f <= 1.0
    ensures x <= Mix(x, y, f) <= y
  {
    MulLe(0.0, f, y - x);
    MulLe(f, 1.0, y - x);
  }

  lemma MixMonotone(x: real, y: real, f: real, g: real)
    requires x <= y && f <= g
    ensures Mix(x, y, f) <= Mix(x, y, g)
  {
    MulLe(f, g, y - x);
  }

  lemma MixDominated(x: real, y: real, x': real, y': real, f: real, d: real)
    requires x <= x' + d && y <= y' + d && 0.0 <= f <= 1.0
    ensures Mix(x, y, f) <= Mix(x', y', f) + d
  {
    var u, v := x' + d - x, y' + d - y;
    MixApart(x, y, u, v, f);
    assert x + u == x' + d && y + v == y' + d;
    MixApart(x', y', d, d, f);
    if u <= v { MixBetween(u, v, f); } else { MixTurned(u, v, f); }
  }

  lemma MixApart(x: real, y: real, u: real, v: real, f: real)
    ensures Mix(x + u, y + v, f) == Mix(x, y, f) + Mix(u, v, f)
    ensures Mix(u, u, f) == u
  {
    Distribute(f, y - x, v - u);
  }

  lemma Distribute(f: real, a: real, b: real)
    ensures f * (a + b) == f * a + f * b
  {
  }

  lemma MixTurned(x: real, y: real, f: real)
    requires x >= y && 0.0 <= f <= 1.0
    ensures y <= Mix(x, y, f) <= x
  {
    MulLe(0.0, f, x - y);
    MulLe(f, 1.0, x - y);
    Distribute(f, x - y, y - x);
  }

  /** The interpolated value lies between its two neighbours. */
  lemma Neighbours(ordered: seq<real>, height: real)
    requires 0.0 <= height <= |ordered| as real - 1.0 && Ascending(ordered)
    ensures ordered[height.Floor] <= AtHeight(ordered, height) <= ordered[Ceiling(height)]
  {
    hide Mix;
    var lower, upper := height.Floor, Ceiling(height);
    MixBetween(ordered[lower], ordered[upper], height - lower as real);
  }

  /** A quantile lies between the smallest and the largest sample, which it reaches at 0 and 1. */
  lemma QuantileBounded(s: seq<real>, p: real, lo: real, hi: real)
    requires s != [] && 0.0 <= p <= 1.0 && forall i :: 0 <= i < |s| ==> lo <= s[i] <= hi
    ensures lo <= Quantile(s, p) <= hi
  {
    SortAscends(s);
    Neighbours(Sort(s), Height(|s|, p));
    forall k | 0 <= k < |s|
      ensures lo <= Sort(s)[k] <= hi
    {
      AllCounted(s, hi);
      SortedAt(s, k, hi);
      if Sort(s)[k] < lo {
        NoneBelow(s, Sort(s)[k], lo);
        SortedAt(s, k, Sort(s)[k]);
      }
    }
  }

  lemma {:induction false} AllCounted(s: seq<real>, hi: real)
    requires forall i :: 0 <= i < |s| ==> s[i] <= hi
    ensures Count(s, hi) == |s|
  {
    if s == [] {
    } else {
      AllCounted(s[1..], hi);
    }
  }

  lemma {:induction false} NoneBelow(s: seq<real>, t: real, lo: real)
    requires t < lo && forall i :: 0 <= i < |s| ==> lo <= s[i]
    ensures Count(s, t) == 0
  {
    if s == [] {
    } else {
      NoneBelow(s[1..], t, lo);
    }
  }

  /** A higher percentile never gives a smaller quantile. */
  lemma QuantileMonotone(s: seq<real>, p: real, q: real)
    requires s != [] && 0.0 <= p <= q <= 1.0
    ensures Quantile(s, p) <= Quantile(s, q)
  {
    SortAscends(s);
    var n := (|s| - 1) as real;
    InUnit(n, q - p);
    assert n * q == n * p + n * (q - p);
    HeightMonotone(Sort(s), Height(|s|, p), Height(|s|, q));
  }

  lemma HeightMonotone(ordered: seq<real>, h: real, g: real)
    requires Ascending(ordered) && 0.0 <= h <= g <= |ordered| as real - 1.0
    ensures AtHeight(ordered, h) <= AtHeight(ordered, g)
  {
    hide Mix;
    Neighbours(ordered, h);
    Neighbours(ordered, g);
    if h.Floor == g.Floor && Ceiling(h) == Ceiling(g) {
      MixMonotone(ordered[h.Floor], ordered[Ceiling(h)], h - h.Floor as real, g - g.Floor as real);
    }
  }

  /** Changing every sample by at most `d` changes the quantile by at most `d`. */
  lemma QuantileLipschitz(a: seq<real>, b: seq<real>, p: real, d: real)
    requires a != [] && |a| == |b| && 0.0 <= p <= 1.0
    requires forall i :: 0 <= i < |a| ==> -d <= a[i] - b[i] <= d
    ensures -d <= Quantile(a, p) - Quantile(b, p) <= d
  {
    QuantileDominated(a, b, p, d);
    QuantileDominated(b, a, p, d);
  }

  lemma QuantileDominated(a: seq<real>, b: seq<real>, p: real, d: real)
    requires a != [] && |a| == |b| && 0.0 <= p <= 1.0
    requires forall i :: 0 <= i < |a| ==> a[i] <= b[i] + d
    ensures Quantile(a, p) <= Quantile(b, p) + d
  {
    hide Mix, Sort, Height;
    var height := Height(|a|, p);
    var lower, upper := height.Floor, Ceiling(height);
    SortDominates(a, b, d, lower);
    SortDominates(a, b, d, upper);
    MixDominated(Sort(a)[lower], Sort(a)[upper], Sort(b)[lower], Sort(b)[upper], height - lower as real, d);
  }

  // ----- The same for whatever a caller passes -----

  lemma {:induction false} FiniteOnlyMembers(values: seq<Value>, x: real)
    ensures x in FiniteOnly(values) <==> Number(x) in values
  {
    if values == [] {
    } else {
      var n := |values| - 1;
      FiniteOnlyMembers(values[..n], x);
      assert values == values[..n] + [values[n]];
    }
  }

  /** A list's quantile lies within any bounds of its finite values and rises with the percentile. */
  lemma ListBoundedAndMonotone(values: seq<Value>, p: Value, q: Value, lo: real, hi: real)
    requires IsPercentile(p) && IsPercentile(q) && p.n <= q.n && QuantileOf(values, p).Ok?
    requires forall v <- values :: v.Number? ==> lo <= v.n <= hi
    ensures QuantileOf(values, q).Ok? && lo <= QuantileOf(values, p).value <= QuantileOf(values, q).value <= hi
  {
    hide Quantile, FiniteOnly;
    var s := FiniteOnly(values);
    forall i | 0 <= i < |s|
      ensures lo <= s[i] <= hi
    {
      FiniteOnlyMembers(values, s[i]);
    }
    QuantileBounded(s, p.n, lo, hi);
    QuantileBounded(s, q.n, lo, hi);
    QuantileMonotone(s, p.n, q.n);
  }

  /** Two lists with finite values within `d` of each other and everything else alike. */
  predicate Close(a: seq<Value>, b: seq<Value>, d: real) {
    && |a| == |b|
    && forall i :: 0 <= i < |a| ==>
         if a[i].Number? && b[i].Number? then -d <= a[i].n - b[i].n <= d else a[i] == b[i]
  }

  lemma {:induction false} CloseFinite(a: seq<Value>, b: seq<Value>, d: real)
    requires Close(a, b, d)
    ensures var s, t := FiniteOnly(a), FiniteOnly(b); |s| == |t| && forall i :: 0 <= i < |s| ==> -d <= s[i] - t[i] <= d
  {
    if a == [] {
    } else {
      CloseFinite(a[..|a| - 1], b[..|b| - 1], d);
    }
  }

  lemma {:induction false} CloseFault(a: seq<Value>, b: seq<Value>, d: real)
    requires Close(a, b, d)
    ensures ValueFault(a) == ValueFault(b)
  {
    if a == [] {
    } else {
      CloseFault(a[1..], b[1..], d);
    }
  }

  /** Moving every finite value by at most `d` keeps a refusal and moves a quantile by at most `d`. */
  lemma ListLipschitz(a: seq<Value>, b: seq<Value>, percentile: Value, d: real)
    requires Close(a, b, d)
    ensures var r, q := QuantileOf(a, percentile), QuantileOf(b, percentile);
      if r.Ok? then q.Ok? && -d <= r.value - q.value <= d else r == q
  {
    hide Quantile, FiniteOnly;
    CloseFinite(a, b, d);
    CloseFault(a, b, d);
    if IsPercentile(percentile) && FiniteOnly(a) != [] {
      QuantileLipschitz(FiniteOnly(a), FiniteOnly(b), percentile.n, d);
    }
  }

  // ----- What interpolation is -----

  lemma FloorAt(k: nat, t: real)
    requires 0.0 <= t < 1.0
    ensures (k as real + t).Floor == k && (t > 0.0 ==> Ceiling(k as real + t) == k + 1)
    ensures t == 0.0 ==> Ceiling(k as real + t) == k
  {
  }

  /** Between sorted positions `k` and `k + 1` the quantile moves along a straight line: at the percentile
      that lies a share `t` of the way between theirs it is that share of the way between their values. */
  lemma {:induction false} StraightLine(s: seq<real>, p: real, k: nat, t: real)
    requires k + 1 < |s| && 0.0 <= t <= 1.0 && 0.0 <= p <= 1.0 && (|s| - 1) as real * p == k as real + t
    ensures Quantile(s, p) == Sort(s)[k] + t * (Sort(s)[k + 1] - Sort(s)[k])
  {
    hide Sort, AtHeight, Quantile, Height;
    HeightIs(|s|, p, k as real + t);
    QuantileAt(s, p, k as real + t);
    OnTheLine(Sort(s), k, t);
  }

  lemma HeightIs(n: nat, p: real, h: real)
    requires n > 0 && 0.0 <= p <= 1.0 && (n - 1) as real * p == h
    ensures Height(n, p) == h && 0.0 <= h <= n as real - 1.0
  {
    InUnit((n - 1) as real, p);
  }

  lemma {:induction false} QuantileAt(s: seq<real>, p: real, h: real)
    requires s != [] && 0.0 <= p <= 1.0 && Height(|s|, p) == h
    ensures Quantile(s, p) == AtHeight(Sort(s), h)
  {
    hide Sort, AtHeight, Height;
  }

  /** Every percentile of more than one sample is of that kind. */
  lemma OnSomeLine(n: nat, p: real) returns (k: nat, t: real)
    requires n > 1 && 0.0 <= p <= 1.0
    ensures k + 1 < n && 0.0 <= t <= 1.0 && (n - 1) as real * p == k as real + t
  {
    InUnit((n - 1) as real, p);
    var h := (n - 1) as real * p;
    k := if h.Floor == n - 1 then n - 2 else h.Floor;
    t := h - k as real;
  }

  lemma OnTheLine(ordered: seq<real>, k: nat, t: real)
    requires k + 1 < |ordered| && 0.0 <= t <= 1.0
    ensures AtHeight(ordered, k as real + t) == ordered[k] + t * (ordered[k + 1] - ordered[k])
  {
    var x, y := ordered[k], ordered[k + 1];
    if t == 1.0 {
      FloorAt(k + 1, 0.0);
    } else {
      FloorAt(k, t);
    }
  }

  /** The median of an odd number of samples is the middle one. */
  lemma {:induction false} OddMedian(s: seq<real>, k: nat)
    requires |s| == 2 * k + 1
    ensures Quantile(s, 0.5) == Sort(s)[k]
  {
    hide Height, Sort;
    HalfHeight(|s|, k as real);
    FloorAt(k, 0.0);
    assert Mix(Sort(s)[k], Sort(s)[k], 0.0) == Sort(s)[k];
  }

  /** The median of an even number is the mean of the two middle ones. */
  lemma {:induction false} EvenMedian(s: seq<real>, k: nat)
    requires |s| == 2 * k + 2
    ensures Quantile(s, 0.5) == (Sort(s)[k] + Sort(s)[k + 1]) / 2.0
  {
    hide Sort, Height, AtHeight;
    HalfHeight(|s|, k as real + 0.5);
    OnTheLine(Sort(s), k, 0.5);
    HalfWay(Sort(s)[k], Sort(s)[k + 1]);
  }

  lemma HalfHeight(n: nat, h: real)
    requires n > 0 && h + h == (n - 1) as real
    ensures Height(n, 0.5) == h
  {
  }

  lemma HalfWay(x: real, y: real)
    ensures x + 0.5 * (y - x) == (x + y) / 2.0
  {
  }

  /** Every sample turned over. */
  function Negated(s: seq<real>): (r: seq<real>)
    ensures |r| == |s| && forall i :: 0 <= i < |r| ==> r[i] == -s[i]
  {
    seq(|s|, i requires 0 <= i < |s| => -s[i])
  }

  function Reversed(s: seq<real>): (r: seq<real>)
    ensures |r| == |s| && forall i :: 0 <= i < |r| ==> r[i] == s[|s| - 1 - i]
  {
    seq(|s|, i requires 0 <= i < |s| => s[|s| - 1 - i])
  }

  lemma {:induction false} SortPermutes(s: seq<real>)
    ensures multiset(Sort(s)) == multiset(s)
  {
    if s == [] {
    } else {
      SortPermutes(s[1..]);
      InsertPermutes(s[0], Sort(s[1..]));
      assert s == [s[0]] + s[1..];
    }
  }

  lemma {:induction false} InsertPermutes(x: real, s: seq<real>)
    ensures multiset(Insert(x, s)) == multiset([x] + s)
  {
    if s == [] || x <= s[0] {
    } else {
      InsertPermutes(x, s[1..]);
      assert s == [s[0]] + s[1..];
    }
  }

  lemma {:induction false} NegatedPermutes(a: seq<real>, b: seq<real>)
    requires multiset(a) == multiset(b)
    ensures multiset(Negated(a)) == multiset(Negated(b))
  {
    forall x
      ensures multiset(Negated(a))[x] == multiset(Negated(b))[x]
    {
      NegatedCounts(a, x);
      NegatedCounts(b, x);
    }
  }

  lemma NegatedFront(s: seq<real>, n: nat)
    requires |s| == n + 1
    ensures Negated(s) == Negated(s[..n]) + [-s[n]] && s == s[..n] + [s[n]]
  {
  }

  lemma CountOneMore(s: seq<real>, y: real, x: real)
    ensures multiset(s + [y])[x] == multiset(s)[x] + if x == y then 1 else 0
  {
  }

  lemma {:induction false} NegatedCounts(s: seq<real>, x: real)
    ensures multiset(Negated(s))[x] == multiset(s)[-x]
  {
    if s == [] {
    } else {
      var n := |s| - 1;
      NegatedCounts(s[..n], x);
      NegatedFront(s, n);
      hide Negated;
      CountOneMore(Negated(s[..n]), -s[n], x);
      CountOneMore(s[..n], s[n], -x);
    }
  }

  lemma {:induction false} ReversedPermutes(s: seq<real>)
    ensures multiset(Reversed(s)) == multiset(s)
  {
    if s == [] {
    } else {
      var n := |s| - 1;
      ReversedPermutes(s[..n]);
      assert s == s[..n] + [s[n]];
      assert Reversed(s) == [s[n]] + Reversed(s[..n]);
    }
  }

  lemma {:induction false} SortedStays(s: seq<real>)
    requires Ascending(s)
    ensures Sort(s) == s
  {
    if s == [] {
    } else {
      SortedStays(s[1..]);
      assert s == [s[0]] + s[1..];
    }
  }

  /** Turning every sample over turns the sorted list over and round. */
  lemma {:induction false} SortMirrored(s: seq<real>)
    ensures Sort(Negated(s)) == Reversed(Negated(Sort(s)))
  {
    var t := Reversed(Negated(Sort(s)));
    SortAscends(s);
    SortedStays(t);
    ReversedPermutes(Negated(Sort(s)));
    SortPermutes(s);
    NegatedPermutes(Sort(s), s);
    SortForgetsOrder(t, Negated(s));
  }

  /** Turning every sample over and counting the percentile from the other end turns the quantile over. */
  lemma Mirror(s: seq<real>, p: real)
    requires s != [] && 0.0 <= p <= 1.0
    ensures Quantile(Negated(s), 1.0 - p) == -Quantile(s, p)
  {
    SortMirrored(s);
    var n := |s|;
    var h, g := Height(n, p), Height(n, 1.0 - p);
    OtherEnd((n - 1) as real, p);
    assert h + g == (n - 1) as real;
    hide Sort, Height;
    MirrorHeight(Sort(s), Sort(Negated(s)), h, g);
  }

  lemma OtherEnd(m: real, p: real)
    ensures m * p + m * (1.0 - p) == m
  {
  }

  lemma MirrorHeight(a: seq<real>, b: seq<real>, h: real, g: real)
    requires |a| == |b| && h + g == |a| as real - 1.0 && 0.0 <= h && 0.0 <= g
    requires forall i :: 0 <= i < |a| ==> b[i] == -a[|a| - 1 - i]
    ensures AtHeight(b, g) == -AtHeight(a, h)
  {
    var lower, upper := h.Floor, Ceiling(h);
    assert g.Floor == |a| - 1 - upper && Ceiling(g) == |a| - 1 - lower;
    TurnedMix(a[lower], a[upper], h - lower as real, g - g.Floor as real, upper == lower);
  }

  lemma TurnedMix(x: real, y: real, f: real, e: real, whole: bool)
    requires if whole then x == y && f == e == 0.0 else f + e == 1.0
    ensures Mix(-y, -x, e) == -Mix(x, y, f)
  {
    if !whole { assert e * (y - x) + f * (y - x) == (e + f) * (y - x); }
  }

  /** At least half of the samples lie at or below the median, and at least half at or above it: turned over,
      the latter lie at or below the median turned over. */
  lemma {:induction false} MedianSplits(s: seq<real>)
    requires s != []
    ensures 2 * Count(s, Quantile(s, 0.5)) >= |s|
    ensures 2 * Count(Negated(s), -Quantile(s, 0.5)) >= |s|
  {
    HalfBelow(s);
    HalfBelow(Negated(s));
    Mirror(s, 0.5);
  }

  lemma {:induction false} HalfBelow(s: seq<real>)
    requires s != []
    ensures 2 * Count(s, Quantile(s, 0.5)) >= |s|
  {
    hide Sort, Count, Quantile;
    SortAscends(s);
    var k := (|s| - 1) / 2;
    if |s| % 2 == 1 { OddMedian(s, k); } else { EvenMedian(s, k); }
    SortedAt(s, k, Quantile(s, 0.5));
  }
}
