/** Bilinear sampling of flow grids and the metrics that follow a pixel through them, over exact reals. */
module Chain {
  import opened Options
  import opened Quantile
  import Macro

  /** One parsed flow cell: a vector, no value, or a vector with a non-finite component. */
  datatype Cell = Missing | Broken | Flow(dx: real, dy: real)

  datatype Vector = Vector(x: real, y: real)

  /** A parsed, rectangular grid with at least one cell. */
  type Grid = g: seq<seq<Cell>> | Rectangular(g) witness [[Missing]]

  predicate Rectangular<T>(g: seq<seq<T>>) {
    g != [] && g[0] != [] && forall i :: 0 <= i < |g| ==> |g[i]| == |g[0]|
  }

  function Rows(g: Grid): nat { |g| }
  function Columns(g: Grid): nat { |g[0]| }

  // ----- Sampling -----

  predicate Inside(g: Grid, x: real, y: real) {
    0.0 <= x <= (Columns(g) - 1) as real && 0.0 <= y <= (Rows(g) - 1) as real
  }

  function At(g: Grid, row: nat, column: nat): Cell
    requires row < Rows(g) && column < Columns(g)
  {
    g[row][column]
  }

  function Least(a: int, b: int): int { if a <= b then a else b }

  datatype Corner = Corner(cell: Cell, weight: real)

  /** The four corners around a point of the closed grid and their bilinear weights. */
  function Corners(g: Grid, x: real, y: real): (r: seq<Corner>)
    requires Inside(g, x, y)
    ensures |r| == 4
  {
    var left, bottom := x.Floor, y.Floor;
    var right, top := Least(left + 1, Columns(g) - 1), Least(bottom + 1, Rows(g) - 1);
    var fx, fy := x - left as real, y - bottom as real;
    [Corner(At(g, bottom, left), (1.0 - fx) * (1.0 - fy)), Corner(At(g, bottom, right), fx * (1.0 - fy)),
     Corner(At(g, top, left), (1.0 - fx) * fy), Corner(At(g, top, right), fx * fy)]
  }

  /** The weighted sum of the corners; a corner of weight zero is not looked at. */
  function Weighted(corners: seq<Corner>): Result<Vector> {
    if corners == [] then Ok(Vector(0.0, 0.0))
    else
      var n := |corners| - 1;
      var before, corner := Weighted(corners[..n]), corners[n];
      if before.Failure? || corner.weight == 0.0 then before
      else match corner.cell
        case Missing => Failure("missing_value")
        case Broken => Failure("nonfinite_value")
        case Flow(dx, dy) => Ok(Plus(before.value, dx, dy, corner.weight))
  }

  function Plus(v: Vector, dx: real, dy: real, weight: real): Vector { Vector(v.x + dx * weight, v.y + dy * weight) }

  function Sampled(g: Grid, x: real, y: real): Result<Vector> {
    if !Inside(g, x, y) then Failure("out_of_bounds") else Weighted(Corners(g, x, y))
  }

  lemma {:induction false} WeightedUsable(corners: seq<Corner>)
    ensures Weighted(corners).Ok? <==>
      forall i :: 0 <= i < |corners| ==> corners[i].weight == 0.0 || corners[i].cell.Flow?
  {
    if corners == [] {
    } else {
      var n := |corners| - 1;
      WeightedUsable(corners[..n]);
      assert forall i :: 0 <= i < n ==> corners[..n][i] == corners[i];
    }
  }

  /** A point can be sampled exactly when it is on the closed grid and every corner that weighs anything
      there holds a finite flow; it is out of bounds exactly when it is not on the grid. */
  lemma SampledExactly(g: Grid, x: real, y: real)
    ensures Sampled(g, x, y).Ok? <==>
      && Inside(g, x, y)
      && forall i :: 0 <= i < 4 ==> Corners(g, x, y)[i].weight == 0.0 || Corners(g, x, y)[i].cell.Flow?
    ensures Sampled(g, x, y) == Failure("out_of_bounds") <==> !Inside(g, x, y)
  {
    hide Corners;
    if Inside(g, x, y) {
      WeightedUsable(Corners(g, x, y));
      WeightedKinds(Corners(g, x, y));
    }
  }

  lemma {:induction false} WeightedKinds(corners: seq<Corner>)
    ensures Weighted(corners).Failure? ==> Weighted(corners).kind in {"missing_value", "nonfinite_value"}
  {
    if corners == [] {
    } else {
      WeightedKinds(corners[..|corners| - 1]);
    }
  }

  lemma {:induction false} FailureStays(corners: seq<Corner>, i: nat)
    requires i <= |corners| && Weighted(corners[..i]).Failure?
    ensures Weighted(corners) == Weighted(corners[..i])
    decreases |corners|
  {
    if i < |corners| {
      var n := |corners| - 1;
      assert corners[..n][..i] == corners[..i];
      FailureStays(corners[..n], i);
    } else {
      assert corners[..i] == corners;
    }
  }

  /** `_sample_parsed_grid` for two channels */
  method Sample(g: Grid, x: real, y: real) returns (r: Result<Vector>)
    ensures r == Sampled(g, x, y)
  {
    hide Corners, Plus;
    if !Inside(g, x, y) { return Failure("out_of_bounds"); }
    var corners := Corners(g, x, y);
    var result := Vector(0.0, 0.0);
    for i := 0 to 4
      invariant Weighted(corners[..i]) == Ok(result)
    {
      assert corners[..i + 1][..i] == corners[..i] && corners[..i + 1][i] == corners[i];
      if corners[i].weight == 0.0 { continue; }
      match corners[i].cell
      case Missing =>
        FailureStays(corners, i + 1);
        return Failure("missing_value");
      case Broken =>
        FailureStays(corners, i + 1);
        return Failure("nonfinite_value");
      case Flow(dx, dy) => result := Plus(result, dx, dy, corners[i].weight);
    }
    assert corners[..4] == corners;
    return Ok(result);
  }

  /** `_sample_advected_grid`: leaving the grid drops the pixel, every other failure stays one. */
  datatype Outcome = Arrived(at: Vector) | Left | Fault(kind: string)

  function Moved(g: Grid, at: Vector): Outcome {
    match Sampled(g, at.x, at.y)
    case Ok(v) => Arrived(Vector(at.x + v.x, at.y + v.y))
    case Failure(kind) => if kind == "out_of_bounds" then Left else Fault(kind)
  }

  /** Where a point is after the first `n` links. */
  function Advanced(flows: seq<Grid>, n: nat, start: Vector): Outcome
    requires n <= |flows|
  {
    if n == 0 then Arrived(start)
    else
      var before := Advanced(flows, n - 1, start);
      if before.Arrived? then Moved(flows[n - 1], before.at) else before
  }

  lemma {:induction false} StoppedStays(flows: seq<Grid>, m: nat, n: nat, start: Vector)
    requires m <= n <= |flows| && !Advanced(flows, m, start).Arrived?
    ensures Advanced(flows, n, start) == Advanced(flows, m, start)
  {
    if m < n { StoppedStays(flows, m, n - 1, start); }
  }

  // ----- Drift along a chain -----

  datatype Residual = Measured(r: real) | Dropped | Refused(kind: string)

  function PixelAt(row: nat, column: nat): Vector { Vector(column as real, row as real) }

  /** What one selected pixel contributes. */
  function Drift(flows: seq<Grid>, truth: Grid, norm: (real, real) -> real, row: nat, column: nat): Residual
    requires row < Rows(truth) && column < Columns(truth)
  {
    match Advanced(flows, |flows|, PixelAt(row, column))
    case Left => Dropped
    case Fault(kind) => Refused(kind)
    case Arrived(at) =>
      match Sampled(truth, column as real, row as real)
      case Failure(kind) => Refused(kind)
      case Ok(v) => Measured(norm((at.x - column as real) - v.x, (at.y - row as real) - v.y))
  }

  /** The same for every slot of the truth grid. */
  function Drifts(flows: seq<Grid>, truth: Grid, norm: (real, real) -> real): (nat, nat) -> Residual {
    (row: nat, column: nat) =>
      if row < Rows(truth) && column < Columns(truth) then Drift(flows, truth, norm, row, column) else Dropped
  }

  type Mask = seq<seq<bool>>

  predicate Fits(mask: Mask, rows: nat, columns: nat) {
    |mask| == rows && forall i :: 0 <= i < rows ==> |mask[i]| == columns
  }

  predicate Selects(mask: Mask) {
    exists i, j :: 0 <= i < |mask| && 0 <= j < |mask[i]| && mask[i][j]
  }

  function Added(before: Result<seq<real>>, selected: bool, pixel: Residual): Result<seq<real>> {
    if before.Failure? || !selected then before
    else match pixel
      case Measured(r) => Ok(before.value + [r])
      case Dropped => before
      case Refused(kind) => Failure(kind)
  }

  /** The residuals of the pixels before `(row, column)` in row-major order, or the first refusal. */
  ghost function Residuals(mask: Mask, pixel: (nat, nat) -> Residual, columns: nat, row: nat,
                           column: nat): Result<seq<real>>
    requires row <= |mask| && column <= columns && (column > 0 ==> row < |mask|) && Fits(mask, |mask|, columns)
    decreases row, column
  {
    if column > 0 then
      Added(Residuals(mask, pixel, columns, row, column - 1), mask[row][column - 1], pixel(row, column - 1))
    else if row > 0 then Residuals(mask, pixel, columns, row - 1, columns)
    else Ok([])
  }

  lemma {:induction false} RefusalStays(mask: Mask, pixel: (nat, nat) -> Residual, columns: nat, row: nat, column: nat)
    requires row <= |mask| && column <= columns && (column > 0 ==> row < |mask|) && Fits(mask, |mask|, columns)
    requires Residuals(mask, pixel, columns, row, column).Failure?
    ensures Residuals(mask, pixel, columns, |mask|, 0) == Residuals(mask, pixel, columns, row, column)
    decreases |mask| - row, columns - column
  {
    if row < |mask| {
      if column < columns {
        RefusalStays(mask, pixel, columns, row, column + 1);
      } else {
        RefusalStays(mask, pixel, columns, row + 1, 0);
      }
    }
  }

  function Averaged(residuals: Result<seq<real>>): Result<real> {
    match residuals
    case Failure(kind) => Failure(kind)
    case Ok(s) => if s == [] then Failure("empty_mask") else Ok(Macro.Mean(s))
  }

  /** Why a required mask is refused; empty when it is not. */
  ghost function MaskRefusal(mask: Option<Mask>, rows: nat, columns: nat): string {
    if mask.None? then "mask_required"
    else if mask.value == [] then "empty_mask"
    else if !Fits(mask.value, rows, columns) then "mask_shape"
    else if !Selects(mask.value) then "empty_mask"
    else ""
  }

  ghost function ChainRefusal(flows: seq<Grid>, truth: Grid, mask: Option<Mask>, linkCount: int): string {
    if linkCount !in {1, 2, 4, 8} || |flows| != linkCount then "link_count"
    else if Rows(flows[0]) != Rows(truth) || Columns(flows[0]) != Columns(truth) then "shape_mismatch"
    else MaskRefusal(mask, Rows(truth), Columns(truth))
  }

  method ParseMask(mask: Option<Mask>, rows: nat, columns: nat) returns (refusal: string)
    ensures refusal == MaskRefusal(mask, rows, columns)
  {
    if mask.None? { return "mask_required"; }
    if mask.value == [] { return "empty_mask"; }
    if !Fits(mask.value, rows, columns) { return "mask_shape"; }
    if !Selects(mask.value) { return "empty_mask"; }
    return "";
  }

  /** `chain_drift_px` */
  method ChainDriftPx(flows: seq<Grid>, truth: Grid, validMask: Option<Mask>, linkCount: int,
                      norm: (real, real) -> real)
    returns (r: Result<real>)
    ensures r ==
      if ChainRefusal(flows, truth, validMask, linkCount) != ""
        then Failure(ChainRefusal(flows, truth, validMask, linkCount))
      else Averaged(Residuals(validMask.value, Drifts(flows, truth, norm), Columns(truth), Rows(truth), 0))
  {
    if linkCount !in {1, 2, 4, 8} || |flows| != linkCount { return Failure("link_count"); }
    if Rows(flows[0]) != Rows(truth) || Columns(flows[0]) != Columns(truth) { return Failure("shape_mismatch"); }
    var refusal := ParseMask(validMask, Rows(truth), Columns(truth));
    if refusal != "" { return Failure(refusal); }
    hide Sampled, Advanced, Drift, MaskRefusal, Macro.Mean;
    var mask, columns := validMask.value, Columns(truth);
    ghost var pixel := Drifts(flows, truth, norm);
    var residuals: seq<real> := [];
    for row := 0 to Rows(truth)
      invariant Residuals(mask, pixel, columns, row, 0) == Ok(residuals)
    {
      for column := 0 to columns
        invariant Residuals(mask, pixel, columns, row, column) == Ok(residuals)
      {
        if mask[row][column] {
          var residual := MeasureDrift(flows, truth, norm, row, column);
          match residual
          case Dropped =>
          case Refused(kind) =>
            RefusalStays(mask, pixel, columns, row, column + 1);
            return Failure(kind);
          case Measured(drift) => residuals := residuals + [drift];
        }
      }
    }
    r := Average(residuals);
  }

  method Average(residuals: seq<real>) returns (r: Result<real>)
    ensures r == Averaged(Ok(residuals))
  {
    if residuals == [] { return Failure("empty_mask"); }
    var total := Macro.Total(residuals);
    return Ok(total / |residuals| as real);
  }

  /** One turn of the pixel loop. */
  method MeasureDrift(flows: seq<Grid>, truth: Grid, norm: (real, real) -> real, row: nat, column: nat)
    returns (residual: Residual)
    requires row < Rows(truth) && column < Columns(truth)
    ensures residual == Drift(flows, truth, norm, row, column)
  {
    hide Sampled, Advanced;
    var outcome := Follow(flows, PixelAt(row, column));
    match outcome
    case Left => return Dropped;
    case Fault(kind) => return Refused(kind);
    case Arrived(at) =>
      var v := Sample(truth, column as real, row as real);
      if v.Failure? { return Refused(v.kind); }
      return Measured(norm((at.x - column as real) - v.value.x, (at.y - row as real) - v.value.y));
  }

  /** The inner loop: one point through every link, until it leaves a grid. */
  method Follow(flows: seq<Grid>, start: Vector) returns (outcome: Outcome)
    ensures outcome == Advanced(flows, |flows|, start)
  {
    hide Sampled;
    var currentX, currentY := start.x, start.y;
    for index := 0 to |flows|
      invariant Advanced(flows, index, start) == Arrived(Vector(currentX, currentY))
    {
      var displacement := Sample(flows[index], currentX, currentY);
      if displacement.Failure? {
        StoppedStays(flows, index + 1, |flows|, start);
        if displacement.kind == "out_of_bounds" { return Left; } else { return Fault(displacement.kind); }
      }
      currentX, currentY := currentX + displacement.value.x, currentY + displacement.value.y;
    }
    return Arrived(Vector(currentX, currentY));
  }

  // ----- Affine links -----

  datatype Affine = Affine(xx: real, xy: real, x0: real, yx: real, yy: real, y0: real)

  function Dx(a: Affine, p: Vector): real { a.xx * p.x + a.xy * p.y + a.x0 }
  function Dy(a: Affine, p: Vector): real { a.yx * p.x + a.yy * p.y + a.y0 }
  function Shifted(a: Affine, p: Vector): Vector { Vector(p.x + Dx(a, p), p.y + Dy(a, p)) }

  ghost predicate IsAffine(g: Grid, a: Affine) {
    forall row: nat, column: nat :: row < Rows(g) && column < Columns(g) ==>
      At(g, row, column) == Flow(Dx(a, PixelAt(row, column)), Dy(a, PixelAt(row, column)))
  }

  /** One component of the four weighted corners of an affine grid: bilinear weights reproduce it. */
  lemma BilinearIsExact(c0: real, a: real, b: real, fx: real, fy: real)
    ensures c0 * ((1.0 - fx) * (1.0 - fy)) + (c0 + a) * (fx * (1.0 - fy)) + (c0 + b) * ((1.0 - fx) * fy)
      + (c0 + a + b) * (fx * fy)
         == c0 + a * fx + b * fy
  {
    var w0, w1, w2, w3 := (1.0 - fx) * (1.0 - fy), fx * (1.0 - fy), (1.0 - fx) * fy, fx * fy;
    assert w1 == fx - w3 && w2 == fy - w3 && w0 == 1.0 - fx - fy + w3;
    FourTerms(c0, a, b, fx, fy, w3);
  }

  lemma FourTerms(c0: real, a: real, b: real, fx: real, fy: real, p: real)
    ensures c0 * (1.0 - fx - fy + p) + (c0 + a) * (fx - p) + (c0 + b) * (fy - p) + (c0 + a + b) * p
      == c0 + a * fx + b * fy
  {
  }

  /** What a corner adds: nothing where the weight is zero. */
  function Added4(v: Vector, c: Corner): Vector {
    if c.weight == 0.0 || !c.cell.Flow? then v else Plus(v, c.cell.dx, c.cell.dy, c.weight)
  }

  function Accumulated(c: seq<Corner>, n: nat): Vector
    requires n <= |c|
  {
    if n == 0 then Vector(0.0, 0.0) else Added4(Accumulated(c, n - 1), c[n - 1])
  }

  /** Usable corners add up. */
  lemma {:induction false} WeightedAll(c: seq<Corner>, n: nat)
    requires n <= |c| && forall i :: 0 <= i < n ==> c[i].cell.Flow? || c[i].weight == 0.0
    ensures Weighted(c[..n]) == Ok(Accumulated(c, n))
  {
    if n == 0 {
    } else {
      WeightedAll(c, n - 1);
      WeightedNext(c, n - 1);
    }
  }

  lemma WeightedNext(c: seq<Corner>, i: nat)
    requires i < |c| && (c[i].cell.Flow? || c[i].weight == 0.0) && Weighted(c[..i]).Ok?
    ensures Weighted(c[..i + 1]) == Ok(Added4(Weighted(c[..i]).value, c[i]))
  {
    hide Plus;
    assert c[..i + 1][..i] == c[..i] && c[..i + 1][i] == c[i];
  }

  /** A corner counts as the affine value at its ideal place, even one that was clamped to the edge. */
  lemma CornerIsAffine(g: Grid, a: Affine, v: Vector, row: nat, column: nat, ideal: Vector, weight: real)
    requires IsAffine(g, a) && row < Rows(g) && column < Columns(g) && (weight == 0.0 || ideal == PixelAt(row, column))
    ensures Added4(v, Corner(At(g, row, column), weight)) == Plus(v, Dx(a, ideal), Dy(a, ideal), weight)
  {
    hide Dx, Dy, Plus;
    if weight == 0.0 { PlusNothing(v, Dx(a, ideal), Dy(a, ideal)); }
  }

  lemma PlusNothing(v: Vector, dx: real, dy: real)
    ensures Plus(v, dx, dy, 0.0) == v
  {
  }

  /** Four usable corners, one after the other. */
  lemma {:induction false} FourAdded(c: seq<Corner>)
    requires |c| == 4 && forall i :: 0 <= i < 4 ==> c[i].cell.Flow?
    ensures Weighted(c) == Ok(Added4(Added4(Added4(Added4(Vector(0.0, 0.0), c[0]), c[1]), c[2]), c[3]))
  {
    hide Added4, Weighted;
    WeightedAll(c, 4);
    assert c[..4] == c;
    assert Accumulated(c, 1) == Added4(Accumulated(c, 0), c[0]);
    assert Accumulated(c, 2) == Added4(Accumulated(c, 1), c[1]);
    assert Accumulated(c, 3) == Added4(Accumulated(c, 2), c[2]);
    assert Accumulated(c, 4) == Added4(Accumulated(c, 3), c[3]);
  }

  /** The point of the grid that corner `i` stands for, where the grid has it. */
  function Ideal(p: Vector, i: nat): Vector {
    var l, b := p.x.Floor as real, p.y.Floor as real;
    if i == 0 then Vector(l, b) else if i == 1 then Vector(l + 1.0, b)
    else if i == 2 then Vector(l, b + 1.0) else Vector(l + 1.0, b + 1.0)
  }

  function IdealWeight(p: Vector, i: nat): real {
    var fx, fy := p.x - p.x.Floor as real, p.y - p.y.Floor as real;
    if i == 0 then (1.0 - fx) * (1.0 - fy) else if i == 1 then fx * (1.0 - fy)
    else if i == 2 then (1.0 - fx) * fy else fx * fy
  }

  /** The cell read for corner `i`: the ideal one, or the last of its row or column. */
  function CellRow(g: Grid, p: Vector, i: nat): int {
    if i < 2 then p.y.Floor else Least(p.y.Floor + 1, Rows(g) - 1)
  }

  function CellColumn(g: Grid, p: Vector, i: nat): int {
    if i == 0 || i == 2 then p.x.Floor else Least(p.x.Floor + 1, Columns(g) - 1)
  }

  lemma CornerIs(g: Grid, p: Vector, i: nat)
    requires Inside(g, p.x, p.y) && i < 4
    ensures 0 <= CellRow(g, p, i) < Rows(g) && 0 <= CellColumn(g, p, i) < Columns(g)
    ensures Corners(g, p.x, p.y)[i].cell == At(g, CellRow(g, p, i), CellColumn(g, p, i))
    ensures Corners(g, p.x, p.y)[i].weight == IdealWeight(p, i)
  {
    hide At;
  }

  /** Clamped to the edge, a corner weighs nothing. */
  lemma CornerIsIdeal(g: Grid, p: Vector, i: nat)
    requires Inside(g, p.x, p.y) && i < 4
    ensures 0 <= CellRow(g, p, i) < Rows(g) && 0 <= CellColumn(g, p, i) < Columns(g)
    ensures IdealWeight(p, i) == 0.0 || Ideal(p, i) == PixelAt(CellRow(g, p, i), CellColumn(g, p, i))
  {
    EdgeWeights(p.x - p.x.Floor as real, p.y - p.y.Floor as real);
  }

  lemma CornerAdds(g: Grid, a: Affine, p: Vector, i: nat, v: Vector)
    requires IsAffine(g, a) && Inside(g, p.x, p.y) && i < 4
    ensures Added4(v, Corners(g, p.x, p.y)[i]) == Plus(v, Dx(a, Ideal(p, i)), Dy(a, Ideal(p, i)), IdealWeight(p, i))
  {
    hide Dx, Dy, Plus, Added4, IsAffine, Ideal, IdealWeight, Corners, PixelAt, CellRow, CellColumn;
    CornerIs(g, p, i);
    CornerIsIdeal(g, p, i);
    CornerIsAffine(g, a, v, CellRow(g, p, i), CellColumn(g, p, i), Ideal(p, i), IdealWeight(p, i));
  }

  /** Sampling an affine flow anywhere on the closed grid gives its exact value there. */
  lemma SamplingIsExact(g: Grid, a: Affine, p: Vector)
    requires IsAffine(g, a) && Inside(g, p.x, p.y)
    ensures Sampled(g, p.x, p.y) == Ok(Vector(Dx(a, p), Dy(a, p)))
  {
    hide Dx, Dy, Plus, Added4, Corners, Weighted, IsAffine, Inside;
    CornersUsable(g, a, p);
    FourAdded(Corners(g, p.x, p.y));
    IdealSum(a, p);
    CornersAdd(g, a, p);
  }

  /** Adding corner `i` at its ideal place. */
  function Placed(a: Affine, p: Vector, v: Vector, i: nat): Vector {
    Plus(v, Dx(a, Ideal(p, i)), Dy(a, Ideal(p, i)), IdealWeight(p, i))
  }

  lemma CornersAdd(g: Grid, a: Affine, p: Vector)
    requires IsAffine(g, a) && Inside(g, p.x, p.y)
    ensures var c, o := Corners(g, p.x, p.y), Vector(0.0, 0.0);
      Added4(Added4(Added4(Added4(o, c[0]), c[1]), c[2]), c[3])
      == Placed(a, p, Placed(a, p, Placed(a, p, Placed(a, p, o, 0), 1), 2), 3)
  {
    hide Added4, Corners, Dx, Dy, Plus, Ideal, IdealWeight, IsAffine, Inside;
    var o := Vector(0.0, 0.0);
    CornerAdds(g, a, p, 0, o);
    CornerAdds(g, a, p, 1, Placed(a, p, o, 0));
    CornerAdds(g, a, p, 2, Placed(a, p, Placed(a, p, o, 0), 1));
    CornerAdds(g, a, p, 3, Placed(a, p, Placed(a, p, Placed(a, p, o, 0), 1), 2));
  }

  lemma IdealSum(a: Affine, p: Vector)
    ensures Placed(a, p, Placed(a, p, Placed(a, p, Placed(a, p, Vector(0.0, 0.0), 0), 1), 2), 3)
      == Vector(Dx(a, p), Dy(a, p))
  {
    hide Dx, Dy, Plus, Ideal, IdealWeight;
    SumOfFour(Dx(a, Ideal(p, 0)), Dx(a, Ideal(p, 1)), Dx(a, Ideal(p, 2)), Dx(a, Ideal(p, 3)),
              Dy(a, Ideal(p, 0)), Dy(a, Ideal(p, 1)), Dy(a, Ideal(p, 2)), Dy(a, Ideal(p, 3)),
              IdealWeight(p, 0), IdealWeight(p, 1), IdealWeight(p, 2), IdealWeight(p, 3));
    IdealMean(a, p);
  }

  lemma IdealMean(a: Affine, p: Vector)
    ensures Dx(a, Ideal(p, 0)) * IdealWeight(p, 0) + Dx(a, Ideal(p, 1)) * IdealWeight(p, 1)
      + Dx(a, Ideal(p, 2)) * IdealWeight(p, 2) + Dx(a, Ideal(p, 3)) * IdealWeight(p, 3) == Dx(a, p)
    ensures Dy(a, Ideal(p, 0)) * IdealWeight(p, 0) + Dy(a, Ideal(p, 1)) * IdealWeight(p, 1)
      + Dy(a, Ideal(p, 2)) * IdealWeight(p, 2) + Dy(a, Ideal(p, 3)) * IdealWeight(p, 3) == Dy(a, p)
  {
    hide Dx, Dy;
    AffineMean(a, p, p.x.Floor as real, p.y.Floor as real, p.x - p.x.Floor as real, p.y - p.y.Floor as real,
               IdealWeight(p, 0), IdealWeight(p, 1), IdealWeight(p, 2), IdealWeight(p, 3));
  }

  lemma EdgeWeights(fx: real, fy: real)
    ensures fx == 0.0 ==> fx * (1.0 - fy) == 0.0 && fx * fy == 0.0
    ensures fy == 0.0 ==> (1.0 - fx) * fy == 0.0 && fx * fy == 0.0
  {
  }

  lemma CornersUsable(g: Grid, a: Affine, p: Vector)
    requires IsAffine(g, a) && Inside(g, p.x, p.y)
    ensures forall i :: 0 <= i < 4 ==> Corners(g, p.x, p.y)[i].cell.Flow?
  {
    hide Dx, Dy;
  }

  lemma AffineMean(a: Affine, p: Vector, l: real, b: real, fx: real, fy: real, w0: real, w1: real, w2: real, w3: real)
    requires p == Vector(l + fx, b + fy)
    requires w0 == (1.0 - fx) * (1.0 - fy) && w1 == fx * (1.0 - fy) && w2 == (1.0 - fx) * fy && w3 == fx * fy
    ensures
      var c0, c1, c2, c3 := Vector(l, b), Vector(l + 1.0, b), Vector(l, b + 1.0), Vector(l + 1.0, b + 1.0);
      && Dx(a, c0) * w0 + Dx(a, c1) * w1 + Dx(a, c2) * w2 + Dx(a, c3) * w3 == Dx(a, p)
      && Dy(a, c0) * w0 + Dy(a, c1) * w1 + Dy(a, c2) * w2 + Dy(a, c3) * w3 == Dy(a, p)
  {
    Component(a.xx, a.xy, a.x0, l, b, fx, fy);
    Component(a.yx, a.yy, a.y0, l, b, fx, fy);
  }

  lemma SumOfFour(d0: real, d1: real, d2: real, d3: real, e0: real, e1: real, e2: real, e3: real, w0: real, w1: real,
                  w2: real, w3: real)
    ensures Plus(Plus(Plus(Plus(Vector(0.0, 0.0), d0, e0, w0), d1, e1, w1), d2, e2, w2), d3, e3, w3)
         == Vector(d0 * w0 + d1 * w1 + d2 * w2 + d3 * w3, e0 * w0 + e1 * w1 + e2 * w2 + e3 * w3)
  {
  }

  lemma Component(u: real, v: real, k: real, l: real, b: real, fx: real, fy: real)
    ensures var c0 := u * l + v * b + k;
      (u * l + v * b + k) * ((1.0 - fx) * (1.0 - fy)) + (u * (l + 1.0) + v * b + k) * (fx * (1.0 - fy))
      + (u * l + v * (b + 1.0) + k) * ((1.0 - fx) * fy) + (u * (l + 1.0) + v * (b + 1.0) + k) * (fx * fy)
      == u * (l + fx) + v * (b + fy) + k
  {
    var c0 := u * l + v * b + k;
    assert u * (l + 1.0) == u * l + u && v * (b + 1.0) == v * b + v;
    BilinearIsExact(c0, u, v, fx, fy);
  }

  /** At a grid point only the cell itself is looked at. */
  lemma SamplingAtGridPoint(g: Grid, row: nat, column: nat)
    requires row < Rows(g) && column < Columns(g)
    ensures Sampled(g, column as real, row as real) ==
      match At(g, row, column)
      case Missing => Failure("missing_value")
      case Broken => Failure("nonfinite_value")
      case Flow(dx, dy) => Ok(Vector(dx, dy))
  {
    hide Plus;
    var c := Corners(g, column as real, row as real);
    assert c[0] == Corner(At(g, row, column), 1.0) && c[1].weight == 0.0 && c[2].weight == 0.0 && c[3].weight == 0.0;
    assert c[..0] == [];
    hide Corners;
    if c[0].cell.Flow? {
      WeightedAll(c, 4);
      PlusWhole(c[0].cell.dx, c[0].cell.dy);
      assert Accumulated(c, 0) == Vector(0.0, 0.0);
      assert Accumulated(c, 1) == Vector(c[0].cell.dx, c[0].cell.dy);
      assert c[..4] == c && Accumulated(c, 1) == Accumulated(c, 2) == Accumulated(c, 3) == Accumulated(c, 4);
    } else {
      assert c[..1][..0] == [] && c[..1][0] == c[0];
      FailureStays(c, 1);
    }
  }

  lemma PlusWhole(dx: real, dy: real)
    ensures Plus(Vector(0.0, 0.0), dx, dy, 1.0) == Vector(dx, dy)
  {
  }

  /** The point a share `t` of the way from one vector to another. */
  function Between(a: Vector, b: Vector, t: real): Vector { Vector(Mixed(a.x, b.x, t), Mixed(a.y, b.y, t)) }

  function Mixed(a: real, b: real, t: real): real { a + t * (b - a) }

  function FlowAt(g: Grid, row: nat, column: nat): Vector
    requires row < Rows(g) && column < Columns(g) && At(g, row, column).Flow?
  {
    Vector(At(g, row, column).dx, At(g, row, column).dy)
  }

  /** Four flows around a point are mixed first along the two rows and then between them, whatever they are. */
  lemma {:induction false} SampledBetween(g: Grid, row: nat, column: nat, fx: real, fy: real)
    requires row + 1 < Rows(g) && column + 1 < Columns(g) && 0.0 <= fx < 1.0 && 0.0 <= fy < 1.0
    requires forall i, j :: row <= i <= row + 1 && column <= j <= column + 1 ==> At(g, i, j).Flow?
    ensures Sampled(g, column as real + fx, row as real + fy) == Ok(Between(
      Between(FlowAt(g, row, column), FlowAt(g, row, column + 1), fx),
      Between(FlowAt(g, row + 1, column), FlowAt(g, row + 1, column + 1), fx), fy))
  {
    var at := Vector(column as real + fx, row as real + fy);
    var a, b, c, d := At(g, row, column), At(g, row, column + 1), At(g, row + 1, column), At(g, row + 1, column + 1);
    var w0, w1, w2, w3 := IdealWeight(at, 0), IdealWeight(at, 1), IdealWeight(at, 2), IdealWeight(at, 3);
    WholeAndPart(column, fx);
    WholeAndPart(row, fy);
    IdealWeights(at, fx, fy);
    var corners := Corners(g, at.x, at.y);
    CornerIs(g, at, 0);
    CornerIs(g, at, 1);
    CornerIs(g, at, 2);
    CornerIs(g, at, 3);
    hide Corners, Plus, Weighted, At, Added4, IdealWeight, WeighCorners, Between;
    assert corners[0] == Corner(a, w0) && corners[1] == Corner(b, w1) && corners[2] == Corner(c, w2) &&
      corners[3] == Corner(d, w3);
    FourAdded(corners);
    EachAdds(corners);
    MixedTwice(FlowAt(g, row, column), FlowAt(g, row, column + 1), FlowAt(g, row + 1, column),
               FlowAt(g, row + 1, column + 1), fx, fy, w0, w1, w2, w3);
  }

  lemma MixedTwice(a: Vector, b: Vector, c: Vector, d: Vector, fx: real, fy: real, w0: real, w1: real, w2: real,
                   w3: real)
    requires WeighCorners(fx, fy, w0, w1, w2, w3)
    ensures Plus(Plus(Plus(Plus(Vector(0.0, 0.0), a.x, a.y, w0), b.x, b.y, w1), c.x, c.y, w2), d.x, d.y, w3)
      == Between(Between(a, b, fx), Between(c, d, fx), fy)
  {
    hide WeighCorners, Plus, Mixed;
    SumOfFour(a.x, b.x, c.x, d.x, a.y, b.y, c.y, d.y, w0, w1, w2, w3);
    Nested(a.x, b.x, c.x, d.x, fx, fy, w0, w1, w2, w3);
    Nested(a.y, b.y, c.y, d.y, fx, fy, w0, w1, w2, w3);
  }

  lemma WholeAndPart(n: nat, f: real)
    requires 0.0 <= f < 1.0
    ensures (n as real + f).Floor == n && (n as real + f) - n as real == f
  {
  }

  lemma IdealWeights(at: Vector, fx: real, fy: real)
    requires at.x - at.x.Floor as real == fx && at.y - at.y.Floor as real == fy
    ensures WeighCorners(fx, fy, IdealWeight(at, 0), IdealWeight(at, 1), IdealWeight(at, 2), IdealWeight(at, 3))
  {
  }

  predicate WeighCorners(fx: real, fy: real, w0: real, w1: real, w2: real, w3: real) {
    w0 == (1.0 - fx) * (1.0 - fy) && w1 == fx * (1.0 - fy) && w2 == (1.0 - fx) * fy && w3 == fx * fy
  }

  /** A corner of weight zero adds nothing either way. */
  lemma EachAdds(c: seq<Corner>)
    ensures forall v: Vector, i | 0 <= i < |c| && c[i].cell.Flow? ::
              Added4(v, c[i]) == Plus(v, c[i].cell.dx, c[i].cell.dy, c[i].weight)
  {
    forall v: Vector, i | 0 <= i < |c| && c[i].cell.Flow?
      ensures Added4(v, c[i]) == Plus(v, c[i].cell.dx, c[i].cell.dy, c[i].weight)
    {
      PlusNothing(v, c[i].cell.dx, c[i].cell.dy);
    }
  }

  lemma Nested(a: real, b: real, c: real, d: real, fx: real, fy: real, w0: real, w1: real, w2: real, w3: real)
    requires WeighCorners(fx, fy, w0, w1, w2, w3)
    ensures a * w0 + b * w1 + c * w2 + d * w3 == Mixed(Mixed(a, b, fx), Mixed(c, d, fx), fy)
  {
    var near, far := Mixed(a, b, fx), Mixed(c, d, fx);
    Pair(a, b, fx, 1.0 - fy);
    Pair(c, d, fx, fy);
    assert near * (1.0 - fy) == near - fy * near;
  }

  lemma Pair(a: real, b: real, f: real, w: real)
    ensures a * ((1.0 - f) * w) + b * (f * w) == (a + f * (b - a)) * w
  {
    var p := f * w;
    assert (1.0 - f) * w == w - p;
    assert (a + f * (b - a)) * w == a * w + (f * (b - a)) * w;
    assert (f * (b - a)) * w == (b - a) * p;
  }

  // ----- Chains of affine links -----

  /** Displacements compose: the second is taken where the first leads. */
  function Then(f: Affine, g: Affine): Affine {
    Affine(f.xx + Along(g.xx, g.xy, f), f.xy + Across(g.xx, g.xy, f), f.x0 + Constant(g.xx, g.xy, f) + g.x0,
           f.yx + Along(g.yx, g.yy, f), f.yy + Across(g.yx, g.yy, f), f.y0 + Constant(g.yx, g.yy, f) + g.y0)
  }

  const STILL := Affine(0.0, 0.0, 0.0, 0.0, 0.0, 0.0)

  function Composed(maps: seq<Affine>, n: nat): Affine
    requires n <= |maps|
  {
    if n == 0 then STILL else Then(Composed(maps, n - 1), maps[n - 1])
  }

  lemma ThenApplies(f: Affine, g: Affine, p: Vector)
    ensures Shifted(Then(f, g), p) == Shifted(g, Shifted(f, p))
  {
    hide Along, Across, Constant;
    ThenComponent(f.xx, f.xy, f.x0, g.xx, g.xy, g.x0, f, p);
    ThenComponent(f.yx, f.yy, f.y0, g.yx, g.yy, g.y0, f, p);
  }

  /** One row (cx, cy, c0) of the inner map and one row (u, v, w) of the outer one. */
  lemma ThenComponent(cx: real, cy: real, c0: real, u: real, v: real, w: real, f: Affine, p: Vector)
    ensures var q := Shifted(f, p);
      (cx + Along(u, v, f)) * p.x + (cy + Across(u, v, f)) * p.y + (c0 + Constant(u, v, f) + w)
      == (cx * p.x + cy * p.y + c0) + (u * q.x + v * q.y + w)
  {
    hide Along, Across, Constant, Shifted;
    Outer(u, v, f, p, Shifted(f, p));
    Added2(cx, Along(u, v, f), p.x);
    Added2(cy, Across(u, v, f), p.y);
  }

  /** What an outer row (u, v) makes of the inner map: its coefficients of x and y and its constant. */
  function Along(u: real, v: real, f: Affine): real { u * (1.0 + f.xx) + v * f.yx }
  function Across(u: real, v: real, f: Affine): real { u * f.xy + v * (1.0 + f.yy) }
  function Constant(u: real, v: real, f: Affine): real { u * f.x0 + v * f.y0 }

  lemma Outer(u: real, v: real, f: Affine, p: Vector, q: Vector)
    requires q == Shifted(f, p)
    ensures u * q.x + v * q.y == Along(u, v, f) * p.x + Across(u, v, f) * p.y + Constant(u, v, f)
  {
    Substitute(u, f.xx, f.xy, f.x0, p.x, p.y);
    Substitute(v, f.yy, f.yx, f.y0, p.y, p.x);
    Added2(u + u * f.xx, v * f.yx, p.x);
    Added2(u * f.xy, v + v * f.yy, p.y);
  }

  lemma Substitute(k: real, u: real, v: real, w: real, x: real, y: real)
    ensures k * (x + (u * x + v * y + w)) == (k + k * u) * x + (k * v) * y + k * w
  {
  }

  lemma Added2(a: real, b: real, x: real)
    ensures (a + b) * x == a * x + b * x
  {
  }

  ghost predicate AffineLinks(flows: seq<Grid>, maps: seq<Affine>) {
    |flows| == |maps| && forall i :: 0 <= i < |flows| ==> IsAffine(flows[i], maps[i])
  }

  /** The exact composition stays on every grid it is sampled from. */
  ghost predicate StaysInside(flows: seq<Grid>, maps: seq<Affine>, n: nat, start: Vector)
    requires |flows| == |maps| && n <= |flows|
  {
    forall k :: 0 <= k < n ==> var at := Shifted(Composed(maps, k), start); Inside(flows[k], at.x, at.y)
  }

  /** For affine links the loop computes the exact composition while that stays inside, and drops the
      point otherwise; it never fails. */
  lemma {:induction false} ChainIsExact(flows: seq<Grid>, maps: seq<Affine>, n: nat, start: Vector)
    requires AffineLinks(flows, maps) && n <= |flows|
    ensures Advanced(flows, n, start) == if StaysInside(flows, maps, n, start)
      then Arrived(Shifted(Composed(maps, n), start)) else Left
  {
    hide IsAffine, Sampled, Inside;
    if n == 0 {
      assert Shifted(STILL, start) == start;
    } else {
      hide Shifted, Then;
      ChainIsExact(flows, maps, n - 1, start);
      LinkIsExact(flows[n - 1], maps[n - 1], Shifted(Composed(maps, n - 1), start));
      ThenApplies(Composed(maps, n - 1), maps[n - 1], start);
    }
  }

  lemma LinkIsExact(g: Grid, a: Affine, at: Vector)
    requires IsAffine(g, a)
    ensures Moved(g, at) == if Inside(g, at.x, at.y) then Arrived(Shifted(a, at)) else Left
  {
    hide Weighted, Corners;
    if Inside(g, at.x, at.y) { SamplingIsExact(g, a, at); }
  }

  /** The truth at a selected pixel is the composed displacement. */
  ghost predicate TruthIsComposed(truth: Grid, mask: Mask, flows: seq<Grid>, maps: seq<Affine>)
    requires |flows| == |maps| && Fits(mask, Rows(truth), Columns(truth))
  {
    forall row: nat, column: nat :: Measurable(mask, truth, flows, maps, row, column) ==>
      var c, p := Composed(maps, |maps|), PixelAt(row, column);
      At(truth, row, column) == Flow(Dx(c, p), Dy(c, p))
  }

  /** The truth at a selected pixel falls short of the composed displacement by the same vector everywhere. */
  ghost predicate TruthIsOffBy(truth: Grid, mask: Mask, flows: seq<Grid>, maps: seq<Affine>, off: Vector)
    requires |flows| == |maps| && Fits(mask, Rows(truth), Columns(truth))
  {
    forall row: nat, column: nat :: Measurable(mask, truth, flows, maps, row, column) ==>
      var c, p := Composed(maps, |maps|), PixelAt(row, column);
      At(truth, row, column) == Flow(Dx(c, p) - off.x, Dy(c, p) - off.y)
  }

  ghost predicate Measurable(mask: Mask, truth: Grid, flows: seq<Grid>, maps: seq<Affine>, row: nat, column: nat)
    requires |flows| == |maps| && Fits(mask, Rows(truth), Columns(truth))
  {
    row < Rows(truth) && column < Columns(truth) && mask[row][column] &&
      StaysInside(flows, maps, |flows|, PixelAt(row, column))
  }

  lemma PixelDriftIsNorm(flows: seq<Grid>, maps: seq<Affine>, truth: Grid, mask: Mask, norm: (real, real) -> real,
                         off: Vector, row: nat, column: nat)
    requires AffineLinks(flows, maps) && Fits(mask, Rows(truth), Columns(truth)) &&
      TruthIsOffBy(truth, mask, flows, maps, off)
    requires row < Rows(truth) && column < Columns(truth) && mask[row][column]
    ensures Drift(flows, truth, norm, row, column) ==
      if Measurable(mask, truth, flows, maps, row, column) then Measured(norm(off.x, off.y)) else Dropped
  {
    hide Sampled, Advanced, Composed, StaysInside, IsAffine, Dx, Dy;
    ChainIsExact(flows, maps, |flows|, PixelAt(row, column));
    SamplingAtGridPoint(truth, row, column);
  }

  /** When every selected pixel measures the same or nothing, the residuals are that, once for each that
      measures. */
  lemma {:induction false} ConstantResiduals(mask: Mask, pixel: (nat, nat) -> Residual, c: real, columns: nat, row: nat,
                                             column: nat)
    requires row <= |mask| && column <= columns && (column > 0 ==> row < |mask|) && Fits(mask, |mask|, columns)
    requires forall i: nat, j: nat :: i < |mask| && j < columns && mask[i][j] ==> pixel(i, j) in {Measured(c), Dropped}
    ensures Residuals(mask, pixel, columns, row, column).Ok?
    ensures forall k :: 0 <= k < |Residuals(mask, pixel, columns, row, column).value| ==>
      Residuals(mask, pixel, columns, row, column).value[k] == c
    ensures Residuals(mask, pixel, columns, row, column).value != [] <==>
      exists i: nat, j: nat ::
        Before(i, j, row, column, columns) && i < |mask| && mask[i][j] && pixel(i, j) == Measured(c)
    decreases row, column
  {
    if column > 0 {
      ConstantResiduals(mask, pixel, c, columns, row, column - 1);
      assert Before(row, column - 1, row, column, columns);
    } else if row > 0 {
      ConstantResiduals(mask, pixel, c, columns, row - 1, columns);
      forall i: nat, j: nat
        ensures Before(i, j, row, 0, columns) == Before(i, j, row - 1, columns, columns)
      {
      }
    }
  }

  predicate Before(i: nat, j: nat, row: nat, column: nat, columns: nat) {
    j < columns && (i < row || (i == row && j < column))
  }

  lemma ConstantMean(s: seq<real>, c: real)
    requires s != [] && forall k :: 0 <= k < |s| ==> s[k] == c
    ensures Macro.Mean(s) == c
  {
    Macro.MeanBounded(s, c, c);
  }

  /** Affine links that end up off the truth by the same vector at every measurable pixel drift by exactly the
      norm of that vector, as long as one selected pixel stays inside; otherwise nothing is measurable and
      that is refused. */
  lemma {:induction false} ChainDriftIsNorm(flows: seq<Grid>, maps: seq<Affine>, truth: Grid, mask: Mask,
                                            norm: (real, real) -> real, off: Vector)
    requires AffineLinks(flows, maps) && Fits(mask, Rows(truth), Columns(truth)) &&
      TruthIsOffBy(truth, mask, flows, maps, off)
    ensures Averaged(Residuals(mask, Drifts(flows, truth, norm), Columns(truth), Rows(truth), 0)) ==
      if exists row: nat, column: nat :: Measurable(mask, truth, flows, maps, row, column) then Ok(norm(off.x, off.y))
        else Failure("empty_mask")
  {
    assert |flows| == |maps|;
    hide Drift, StaysInside, AffineLinks, TruthIsOffBy, Residuals, Macro.Mean;
    var pixel, columns, c := Drifts(flows, truth, norm), Columns(truth), norm(off.x, off.y);
    forall row: nat, column: nat | row < |mask| && column < columns && mask[row][column]
      ensures pixel(row, column) == if Measurable(mask, truth, flows, maps, row, column) then Measured(c) else Dropped
    {
      PixelDriftIsNorm(flows, maps, truth, mask, norm, off, row, column);
    }
    ConstantResiduals(mask, pixel, c, columns, Rows(truth), 0);
    var s := Residuals(mask, pixel, columns, Rows(truth), 0).value;
    if s != [] { ConstantMean(s, c); }
    if row: nat, column: nat :| Measurable(mask, truth, flows, maps, row, column) {
      assert Before(row, column, Rows(truth), 0, columns);
    }
  }

  /** So against the composed truth itself there is no drift. */
  lemma {:induction false} ChainDriftIsZero(flows: seq<Grid>, maps: seq<Affine>, truth: Grid, mask: Mask,
                                            norm: (real, real) -> real)
    requires AffineLinks(flows, maps) && Fits(mask, Rows(truth), Columns(truth)) &&
      TruthIsComposed(truth, mask, flows, maps)
    requires norm(0.0, 0.0) == 0.0
    ensures Averaged(Residuals(mask, Drifts(flows, truth, norm), Columns(truth), Rows(truth), 0)) ==
      if exists row: nat, column: nat :: Measurable(mask, truth, flows, maps, row, column) then Ok(0.0)
        else Failure("empty_mask")
  {
    ChainDriftIsNorm(flows, maps, truth, mask, norm, Vector(0.0, 0.0));
  }

  // ----- Forward and back -----

  /** What one selected pixel contributes to `forward_backward_residual_px`. */
  function Returned(forward: Grid, backward: Grid, norm: (real, real) -> real, row: nat, column: nat): Residual {
    match Sampled(forward, column as real, row as real)
    case Failure(kind) => Refused(kind)
    case Ok(there) =>
      match Sampled(backward, column as real + there.x, row as real + there.y)
      case Failure(kind) => if kind == "out_of_bounds" then Dropped else Refused(kind)
      case Ok(back) => Measured(norm(there.x + back.x, there.y + back.y))
  }

  function Returns(forward: Grid, backward: Grid, norm: (real, real) -> real): (nat, nat) -> Residual {
    (row: nat, column: nat) => Returned(forward, backward, norm, row, column)
  }

  /** `forward_backward_residual_px` */
  method ForwardBackwardResidualPx(forward: Grid, backward: Grid, validMask: Option<Mask>, norm: (real, real) -> real)
    returns (r: Result<real>)
    ensures var refusal := MaskRefusal(validMask, Rows(forward), Columns(forward));
      r == if refusal != "" then Failure(refusal)
           else Averaged(Residuals(validMask.value, Returns(forward, backward, norm), Columns(forward), Rows(forward),
                                   0))
  {
    var refusal := ParseMask(validMask, Rows(forward), Columns(forward));
    if refusal != "" { return Failure(refusal); }
    hide Returned, MaskRefusal, Macro.Mean, Averaged;
    var mask, columns := validMask.value, Columns(forward);
    ghost var pixel := Returns(forward, backward, norm);
    var residuals: seq<real> := [];
    for row := 0 to Rows(forward)
      invariant Residuals(mask, pixel, columns, row, 0) == Ok(residuals)
    {
      for column := 0 to columns
        invariant Residuals(mask, pixel, columns, row, column) == Ok(residuals)
      {
        if mask[row][column] {
          var residual := MeasureReturn(forward, backward, norm, row, column);
          match residual
          case Dropped =>
          case Refused(kind) =>
            RefusalStays(mask, pixel, columns, row, column + 1);
            return Failure(kind);
          case Measured(distance) => residuals := residuals + [distance];
        }
      }
    }
    r := Average(residuals);
  }

  /** One turn of the pixel loop. */
  method MeasureReturn(forward: Grid, backward: Grid, norm: (real, real) -> real, row: nat, column: nat)
    returns (residual: Residual)
    ensures residual == Returned(forward, backward, norm, row, column)
  {
    hide Sampled;
    var there := Sample(forward, column as real, row as real);
    if there.Failure? { return Refused(there.kind); }
    var back := Sample(backward, column as real + there.value.x, row as real + there.value.y);
    if back.Failure? {
      if back.kind == "out_of_bounds" { return Dropped; } else { return Refused(back.kind); }
    }
    return Measured(norm(there.value.x + back.value.x, there.value.y + back.value.y));
  }

  /** Going there and back is a chain of two links that should lead nowhere: the residual is the drift
      of the two against a truth of zeros, pixel by pixel and so as a whole. */
  lemma {:induction false} ForwardBackwardIsDrift(forward: Grid, backward: Grid, still: Grid, mask: Mask,
                                                  norm: (real, real) -> real)
    requires Rows(still) == Rows(forward) && Columns(still) == Columns(forward) && IsAffine(still, STILL)
    requires Fits(mask, Rows(forward), Columns(forward))
    ensures Residuals(mask, Returns(forward, backward, norm), Columns(forward), Rows(forward), 0)
         == Residuals(mask, Drifts([forward, backward], still, norm), Columns(forward), Rows(forward), 0)
  {
    hide Residuals, Drift, Returned, IsAffine;
    var a, b := Returns(forward, backward, norm), Drifts([forward, backward], still, norm);
    forall row: nat, column: nat | row < Rows(forward) && column < Columns(forward)
      ensures a(row, column) == b(row, column)
    {
      ReturnIsDrift(forward, backward, still, norm, row, column);
    }
    SameResiduals(mask, a, b, Columns(forward), Rows(forward), 0);
  }

  lemma ReturnIsDrift(forward: Grid, backward: Grid, still: Grid, norm: (real, real) -> real, row: nat, column: nat)
    requires Rows(still) == Rows(forward) && Columns(still) == Columns(forward) && IsAffine(still, STILL)
    requires row < Rows(forward) && column < Columns(forward)
    ensures Returned(forward, backward, norm, row, column) == Drift([forward, backward], still, norm, row, column)
  {
    var links, start := [forward, backward], PixelAt(row, column);
    SamplingAtGridPoint(still, row, column);
    SamplingAtGridPoint(forward, row, column);
    assert At(still, row, column) == Flow(0.0, 0.0);
    hide Sampled, IsAffine;
    assert Advanced(links, 0, start) == Arrived(start);
    assert Advanced(links, 1, start) == Moved(forward, start);
  }

  lemma {:induction false} SameResiduals(mask: Mask, a: (nat, nat) -> Residual, b: (nat, nat) -> Residual, columns: nat,
                                         row: nat, column: nat)
    requires row <= |mask| && column <= columns && (column > 0 ==> row < |mask|) && Fits(mask, |mask|, columns)
    requires forall i: nat, j: nat :: i < |mask| && j < columns ==> a(i, j) == b(i, j)
    ensures Residuals(mask, a, columns, row, column) == Residuals(mask, b, columns, row, column)
    decreases row, column
  {
    if column > 0 {
      SameResiduals(mask, a, b, columns, row, column - 1);
    } else if row > 0 {
      SameResiduals(mask, a, b, columns, row - 1, columns);
    }
  }
}
