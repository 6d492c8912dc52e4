/** The frozen analysis sizing, in exact real arithmetic. The square root the source takes is passed in;
    where its exact value matters it is pinned down by its square. */
module Geometry {
  import opened Arith

  const INT_MAX := 2_147_483_647
  const LLONG_MAX := 9_223_372_036_854_775_807

  datatype Sizing =
    | Dimensions(width: int, height: int)
    | InvalidGeometry | InvalidCap | InvalidDimension | CapViolation

  predicate CapApplies(area: real, capMegapixels: real, capValue: real) {
    capMegapixels > 0.0 && area > capValue
  }

  /** The scale the cap asks for: `sqrt(cap / area)`. */
  predicate IsScale(scale: real, area: real, capValue: real) {
    scale > 0.0 && scale * scale * area == capValue
  }

  function Max(a: int, b: int): int { if a >= b then a else b }
  function Min(a: int, b: int): int { if a <= b then a else b }

  function Area(cw: real, ch: real): (r: real)
    ensures r != 0.0 ==> cw != 0.0 && ch != 0.0
  {
    cw * ch
  }

  function Scaled(extent: real, scale: real): real { extent * scale }

  /** How much one axis was scaled, after rounding. */
  function RoundedScale(rounded: int, canonical: real): real
    requires canonical != 0.0
  {
    rounded as real / canonical
  }

  function CapPixels(capValue: real): (r: int)
    ensures r >= 1
  {
    Max(1, capValue.Floor)
  }

  /** Half-up rounding to at least one pixel. */
  function Rounded(value: real): (r: int)
    ensures r >= 1
  {
    Max(1, (value + 0.5).Floor)
  }

  /** `_rounded_dimension` */
  function RoundedDimension(value: real): Sizing {
    if value <= 0.0 then InvalidGeometry
    else if (value + 0.5).Floor > INT_MAX then InvalidDimension
    else Dimensions(Rounded(value), Rounded(value))
  }

  /** One axis limited so that the pair fits the cap, but not below one pixel. */
  function Clamped(axis: int, other: int, capPixels: int): int {
    Max(1, Min(axis, capPixels / Max(1, other)))
  }

  /** The over-cap repair, with the clamps of the two axes in the order the relative scales decide.
      `turns` counts the corrections made. */
  method Repair(width: int, height: int, canonicalWidth: real, canonicalHeight: real, capPixels: int)
    returns (w: int, h: int, turns: nat)
    requires canonicalWidth != 0.0 && canonicalHeight != 0.0
    ensures (w, h, turns) ==
      Repaired(width, height, RoundedScale(width, canonicalWidth) >= RoundedScale(height, canonicalHeight), capPixels)
    ensures width >= 1 && height >= 1 && capPixels >= 1 ==>
      1 <= w <= width && 1 <= h <= height && w * h <= capPixels && turns <= 2
    ensures width * height <= capPixels ==> (w, h, turns) == (width, height, 0)
  {
    hide Clamped;
    if width >= 1 && height >= 1 && capPixels >= 1 {
      RepairAlwaysFits(width, height, RoundedScale(width, canonicalWidth) >= RoundedScale(height, canonicalHeight),
                       capPixels);
    }
    w, h, turns := width, height, 0;
    if w * h > capPixels {
      if RoundedScale(width, canonicalWidth) >= RoundedScale(height, canonicalHeight) {
        w, turns := Clamped(w, h, capPixels), 1;
        if w * h > capPixels { h, turns := Clamped(h, w, capPixels), 2; }
      } else {
        h, turns := Clamped(h, w, capPixels), 1;
        if w * h > capPixels { w, turns := Clamped(w, h, capPixels), 2; }
      }
      if w * h > capPixels {
        w := Clamped(w, h, capPixels);
        h, turns := Clamped(h, w, capPixels), 3;
      }
    }
  }

  /** The same as a function of the rounded pair and of which axis has the larger relative scale. */
  function Repaired(width: int, height: int, widthFirst: bool, capPixels: int): (int, int, nat) {
    if width * height <= capPixels then (width, height, 0)
    else
      var first := if widthFirst then (Clamped(width, height, capPixels), height)
        else (width, Clamped(height, width, capPixels));
      if first.0 * first.1 <= capPixels then (first.0, first.1, 1)
      else
        var second := if widthFirst then (first.0, Clamped(first.1, first.0, capPixels))
          else (Clamped(first.0, first.1, capPixels), first.1);
        if second.0 * second.1 <= capPixels then (second.0, second.1, 2)
        else
          var third := Clamped(second.0, second.1, capPixels);
          (third, Clamped(second.1, third, capPixels), 3)
  }

  /** What both clamps leave of an axis and the other one. */
  lemma ClampFits(axis: int, other: int, capPixels: int)
    requires axis >= 1 && other >= 1 && capPixels >= 1
    ensures 1 <= Clamped(axis, other, capPixels) <= axis
    ensures Clamped(axis, other, capPixels) * other <= capPixels || Clamped(axis, other, capPixels) == 1
    ensures Clamped(axis, 1, capPixels) <= capPixels
  {
    var limit := capPixels / other;
    assert limit * other + capPixels % other == capPixels;
    if limit >= 1 { Grows(Clamped(axis, other, capPixels), limit, other); }
  }

  /** Whatever was rounded, and whichever axis gives way first, two corrections are enough. */
  lemma RepairAlwaysFits(width: int, height: int, widthFirst: bool, capPixels: int)
    requires width >= 1 && height >= 1 && capPixels >= 1
    ensures var (w, h, turns) := Repaired(width, height, widthFirst, capPixels);
      1 <= w <= width && 1 <= h <= height && w * h <= capPixels && turns <= 2
  {
    hide Clamped;
    if widthFirst {
      ClampFits(width, height, capPixels);
      ClampFits(height, Clamped(width, height, capPixels), capPixels);
    } else {
      ClampFits(height, width, capPixels);
      ClampFits(width, Clamped(height, width, capPixels), capPixels);
    }
  }

  /** `analysis_dimensions`; `turns` is the number of corrections the repair made. However the square root
      is rounded, a result is at least 1x1, fits a cap that applies, and `cap_violation` is not raised. */
  method AnalysisDimensions(sourceWidth: int, sourceHeight: int, aspect: real, capMegapixels: real, capUnit: real,
                            root: real)
    returns (r: Sizing, turns: nat)
    ensures (r, turns) ==
      Sized(sourceWidth as real * aspect, sourceHeight as real, capMegapixels, capMegapixels * capUnit, root)
    ensures r != CapViolation && turns <= 2
    ensures r.Dimensions? ==> 1 <= r.width <= INT_MAX && 1 <= r.height <= INT_MAX
    ensures var area, cap := Area(sourceWidth as real * aspect, sourceHeight as real), capMegapixels * capUnit;
      r.Dimensions? && CapApplies(area, capMegapixels, cap) ==> r.width * r.height <= CapPixels(cap)
  {
    hide Repaired, Rounded, CapPixels, RoundedScale, Scaled, Area;
    CapAlwaysHolds(sourceWidth as real * aspect, sourceHeight as real, capMegapixels, capMegapixels * capUnit, root);
    turns := 0;
    var canonicalWidth, canonicalHeight := sourceWidth as real * aspect, sourceHeight as real;
    var area := Area(canonicalWidth, canonicalHeight);
    if area <= 0.0 { return InvalidGeometry, 0; }
    var capValue := capMegapixels * capUnit;
    if capMegapixels > 0.0 && capValue <= 0.0 { return InvalidCap, 0; }
    var capApplied := capMegapixels > 0.0 && area > capValue;
    if capApplied && capValue > LLONG_MAX as real { return InvalidCap, 0; }
    var scale := 1.0;
    if capApplied { scale := if root <= 1.0 then root else 1.0; }
    var width := RoundedDimension(Scaled(canonicalWidth, scale));
    if !width.Dimensions? { return width, 0; }
    var height := RoundedDimension(Scaled(canonicalHeight, scale));
    if !height.Dimensions? { return height, 0; }
    var w, h := width.width, height.height;
    if capApplied {
      var capPixels := CapPixels(capValue);
      w, h, turns := Repair(w, h, canonicalWidth, canonicalHeight, capPixels);
      if w * h > capPixels { return CapViolation, turns; }
    }
    return Dimensions(w, h), turns;
  }

  /** The same as a function of the canonical extents and the cap in pixels. */
  function Sized(cw: real, ch: real, capMegapixels: real, cap: real, root: real): (Sizing, nat) {
    if Area(cw, ch) <= 0.0 then (InvalidGeometry, 0)
    else if capMegapixels > 0.0 && cap <= 0.0 then (InvalidCap, 0)
    else
      var applied := CapApplies(Area(cw, ch), capMegapixels, cap);
      if applied && cap > LLONG_MAX as real then (InvalidCap, 0)
      else
        var scale := if applied && root <= 1.0 then root else 1.0;
        var width, height := RoundedDimension(Scaled(cw, scale)), RoundedDimension(Scaled(ch, scale));
        if !width.Dimensions? then (width, 0)
        else if !height.Dimensions? then (height, 0)
        else if !applied then (Dimensions(width.width, height.height), 0)
        else WithinCap(width.width, height.height, RoundedScale(width.width, cw) >= RoundedScale(height.height, ch),
                       CapPixels(cap))
  }

  function WithinCap(width: int, height: int, widthFirst: bool, capPixels: int): (Sizing, nat) {
    var (w, h, turns) := Repaired(width, height, widthFirst, capPixels);
    (if w * h > capPixels then CapViolation else Dimensions(w, h), turns)
  }

  // ----- Arithmetic -----

  lemma RoundingError(v: real)
    requires v > 0.0
    ensures Rounded(v) >= 1
    ensures v >= 0.5 ==> v - 0.5 < Rounded(v) as real <= v + 0.5
    ensures v < 1.5 ==> Rounded(v) == 1
    ensures v >= 1.0 ==> Rounded(v) >= 1 && (Rounded(v) as real > v ==> Rounded(v) >= 2)
  {
  }

  lemma FloorAtLeast(n: int, v: real)
    ensures n as real <= v <==> n <= v.Floor
  {
  }

  lemma Cancel(a: real, b: real, c: real)
    requires c > 0.0
    ensures a * c <= b * c <==> a <= b
  {
    if a <= b { MulLe(a, b, c); } else { MulLt(b, a, c); }
  }

  lemma DivExact(c: int, o: int, q: int)
    requires o > 0 && q * o <= c < (q + 1) * o
    ensures c / o == q
  {
    var d := c / o;
    assert c == d * o + c % o;
    if d < q { Grows(d + 1, q, o); } else if d > q { Grows(q + 1, d, o); }
  }

  /** Comparing relative scales does not depend on the common scale, nor on dividing. */
  lemma RelativeScale(w: int, h: int, cw: real, ch: real, s: real)
    requires cw > 0.0 && ch > 0.0 && s > 0.0
    ensures RoundedScale(w, cw) >= RoundedScale(h, ch) <==> w as real * (ch * s) >= h as real * (cw * s)
  {
    var a, b := RoundedScale(w, cw), RoundedScale(h, ch);
    assert a * cw == w as real && b * ch == h as real;
    var k := cw * ch;
    MulLt(0.0, cw, ch);
    MulLt(0.0, k, s);
    Regroup(a, cw, ch, s);
    Regroup(b, ch, cw, s);
    assert ch * cw == k;
    Cancel(b, a, k * s);
  }

  lemma Regroup(a: real, p: real, q: real, s: real)
    ensures (a * p) * (q * s) == a * ((p * q) * s)
  {
  }

  /** The axis that gives way had been rounded up. */
  lemma RoundedUp(W: real, H: real, x: real, y: real)
    requires x > 0.0 && y > 0.0 && W > 0.0 && H > 0.0 && W * y >= H * x && W * H > x * y
    ensures W > x
  {
    if W <= x { NotRoundedUp(W, H, x, y); }
  }

  lemma NotRoundedUp(W: real, H: real, x: real, y: real)
    requires x > 0.0 && y > 0.0 && W > 0.0 && H > 0.0 && W * y >= H * x && W <= x
    ensures W * H <= x * y
  {
    assert x * y == y * x && x * H == H * x;
    MulLe(W, x, y);
    Cancel(H, y, x);
    MulLe(W, x, H);
    MulLe(H, y, x);
  }

  /** One pixel off the axis that was scaled up more always fits. */
  lemma OneLessFits(W: real, H: real, x: real, y: real)
    requires x > 0.0 && y > 0.0 && 0.0 < W <= x + 0.5 && 0.0 < H <= y + 0.5
    requires W * y >= H * x && W * H > x * y
    ensures (W - 1.0) * H <= x * y
  {
    RoundedUp(W, H, x, y);
    if H <= y {
      ShorterFits(W - 1.0, H, x, y);
    } else {
      BothRoundedUp(x, y, W - x, H - y);
    }
  }

  lemma ShorterFits(W: real, H: real, x: real, y: real)
    requires x > 0.0 && 0.0 < H <= y && W <= x
    ensures W * H <= x * y
  {
    MulLe(W, x, H);
    MulLe(H, y, x);
    assert H * x == x * H && y * x == x * y;
  }

  lemma BothRoundedUp(x: real, y: real, a: real, b: real)
    requires x > 0.0 && y > 0.0 && 0.0 < a <= 0.5 && 0.0 < b <= 0.5
    requires (x + a) * y >= (y + b) * x
    ensures ((x + a) - 1.0) * (y + b) <= x * y
  {
    assert (x + a) * y == x * y + a * y && (y + b) * x == x * y + b * x;
    Expand(x, y, a, b);
    MulLe(a - 1.0, 0.0, b);
    MulLe(2.0 * a - 1.0, 0.0, y);
    assert (2.0 * a - 1.0) * y == a * y + (a - 1.0) * y;
  }

  lemma Expand(x: real, y: real, a: real, b: real)
    ensures ((x + a) - 1.0) * (y + b) == x * y + b * x + (a - 1.0) * y + (a - 1.0) * b
  {
  }

  lemma ClampByOne(axis: int, other: int, capPixels: int)
    requires axis >= 2 && other >= 1 && axis * other > capPixels >= (axis - 1) * other
    ensures Clamped(axis, other, capPixels) == axis - 1
  {
    assert (axis - 1 + 1) * other == axis * other;
    DivExact(capPixels, other, axis - 1);
  }

  lemma ClampToCap(axis: int, capPixels: int)
    requires capPixels >= 1
    ensures Clamped(axis, 1, capPixels) == Max(1, Min(axis, capPixels))
  {
  }

  // ----- The repair -----

  /** Over the cap, the axis with the larger relative scale was rounded up from at least one pixel, and
      one pixel off it fits. */
  lemma OverCap(w: int, h: int, x: real, y: real)
    requires x >= 1.0 && y > 0.0 && w >= 1 && h >= 1 && w as real <= x + 0.5 && h as real <= y + 0.5
    requires w as real * y >= h as real * x && w * h > CapPixels(x * y) && x * y >= 1.0
    ensures w >= 2 && w as real > x && (w - 1) * h <= CapPixels(x * y)
    ensures Clamped(w, h, CapPixels(x * y)) == w - 1
  {
    Products(w, h);
    FloorAtLeast(w * h, x * y);
    RoundedUp(w as real, h as real, x, y);
    OneLessFits(w as real, h as real, x, y);
    Products(w - 1, h);
    FloorAtLeast((w - 1) * h, x * y);
    ClampByOne(w, h, CapPixels(x * y));
  }

  /** One correction is made when the first clamp takes one pixel and the pair then fits. */
  lemma RepairedOnce(w: int, h: int, widthFirst: bool, capPixels: int)
    requires w * h > capPixels
    requires if widthFirst then Clamped(w, h, capPixels) == w - 1 && (w - 1) * h <= capPixels
             else Clamped(h, w, capPixels) == h - 1 && w * (h - 1) <= capPixels
    ensures Repaired(w, h, widthFirst, capPixels) == if widthFirst then (w - 1, h, 1) else (w, h - 1, 1)
  {
    hide Clamped;
  }

  /** When both scaled extents are at least one pixel, an over-cap rounding is repaired by taking one
      pixel off one axis, the one with the larger relative scale, and nothing else happens. The pair
      then fits the cap, and the axis that gave way had been rounded up. */
  lemma MinimalRepair(x: real, y: real, widthFirst: bool)
    requires x >= 1.0 && y >= 1.0
    requires widthFirst <==> Rounded(x) as real * y >= Rounded(y) as real * x
    ensures var w, h, capPixels := Rounded(x), Rounded(y), CapPixels(x * y);
      && Repaired(w, h, widthFirst, capPixels) ==
           (if w * h <= capPixels then (w, h, 0) else if widthFirst then (w - 1, h, 1) else (w, h - 1, 1))
      && (w * h > capPixels ==> if widthFirst then w as real > x && w >= 2 else h as real > y && h >= 2)
      && var (w', h', _) := Repaired(w, h, widthFirst, capPixels); w' * h' <= capPixels
  {
    RoundingError(x);
    RoundingError(y);
    hide Rounded, CapPixels, Repaired;
    RepairIsMinimal(Rounded(x), Rounded(y), x, y, widthFirst);
  }

  /** The same of any pair as close to the exact extents as rounding is. */
  lemma RepairIsMinimal(w: int, h: int, x: real, y: real, widthFirst: bool)
    requires x >= 1.0 && y >= 1.0 && w >= 1 && h >= 1 && w as real <= x + 0.5 && h as real <= y + 0.5
    requires widthFirst <==> w as real * y >= h as real * x
    ensures var capPixels := CapPixels(x * y);
      && Repaired(w, h, widthFirst, capPixels) ==
           (if w * h <= capPixels then (w, h, 0) else if widthFirst then (w - 1, h, 1) else (w, h - 1, 1))
      && (w * h > capPixels ==> if widthFirst then w as real > x && w >= 2 else h as real > y && h >= 2)
      && var (w', h', _) := Repaired(w, h, widthFirst, capPixels); w' * h' <= capPixels
  {
    hide CapPixels, Repaired;
    RepairAlwaysFits(w, h, widthFirst, CapPixels(x * y));
    if w * h > CapPixels(x * y) {
      OverCapRepaired(w, h, x, y, widthFirst);
    } else {
      NothingRepaired(w, h, widthFirst, CapPixels(x * y));
    }
  }

  lemma OverCapRepaired(w: int, h: int, x: real, y: real, widthFirst: bool)
    requires x >= 1.0 && y >= 1.0 && w >= 1 && h >= 1 && w as real <= x + 0.5 && h as real <= y + 0.5
    requires w * h > CapPixels(x * y) && (widthFirst <==> w as real * y >= h as real * x)
    ensures Repaired(w, h, widthFirst, CapPixels(x * y)) == if widthFirst then (w - 1, h, 1) else (w, h - 1, 1)
    ensures if widthFirst then w as real > x && w >= 2 else h as real > y && h >= 2
  {
    hide CapPixels, Clamped, Repaired;
    AtLeastOne(x, y);
    if widthFirst { OverCap(w, h, x, y); } else { OverCapTurned(w, h, x, y); }
    RepairedOnce(w, h, widthFirst, CapPixels(x * y));
  }

  lemma NothingRepaired(w: int, h: int, widthFirst: bool, capPixels: int)
    requires w * h <= capPixels
    ensures Repaired(w, h, widthFirst, capPixels) == (w, h, 0)
  {
  }

  lemma AtLeastOne(x: real, y: real)
    requires x >= 1.0 && y >= 1.0
    ensures x * y >= 1.0
  {
    MulLe(1.0, x, y);
  }

  /** The same with the axes exchanged. */
  lemma OverCapTurned(w: int, h: int, x: real, y: real)
    requires y >= 1.0 && x > 0.0 && w >= 1 && h >= 1 && w as real <= x + 0.5 && h as real <= y + 0.5
    requires h as real * x >= w as real * y && w * h > CapPixels(x * y) && x * y >= 1.0
    ensures h >= 2 && h as real > y && w * (h - 1) <= CapPixels(x * y)
    ensures Clamped(h, w, CapPixels(x * y)) == h - 1
  {
    hide CapPixels, Clamped;
    assert y * x == x * y && h * w == w * h;
    OverCap(h, w, y, x);
    assert (h - 1) * w == w * (h - 1);
  }

  /** When an extent is below one pixel it stays one pixel and the other axis takes what the cap leaves. */
  lemma ThinRepair(x: real, y: real, widthFirst: bool)
    requires x > 0.0 && y > 0.0 && (x < 1.0 || y < 1.0)
    ensures var w, h, capPixels := Rounded(x), Rounded(y), CapPixels(x * y);
      var (w', h', turns) := Repaired(w, h, widthFirst, capPixels);
      && turns <= 2
      && (w', h') == (if w * h <= capPixels then (w, h) else if x < 1.0 then (1, capPixels) else (capPixels, 1))
  {
    RoundingError(x);
    RoundingError(y);
    if x < 1.0 {
      ThinAxis(Rounded(y), widthFirst, CapPixels(x * y));
    } else {
      ThinAxisTurned(Rounded(x), widthFirst, CapPixels(x * y));
    }
  }

  lemma ThinAxis(h: int, widthFirst: bool, capPixels: int)
    requires h >= 1 && capPixels >= 1
    ensures var (w', h', turns) := Repaired(1, h, widthFirst, capPixels);
      turns <= 2 && (w', h') == if h <= capPixels then (1, h) else (1, capPixels)
  {
    ClampToCap(h, capPixels);
    ClampToCap(1, capPixels);
    if h > capPixels { DivExact(capPixels, h, 0); }
  }

  lemma ThinAxisTurned(w: int, widthFirst: bool, capPixels: int)
    requires w >= 1 && capPixels >= 1
    ensures var (w', h', turns) := Repaired(w, 1, widthFirst, capPixels);
      turns <= 2 && (w', h') == if w <= capPixels then (w, 1) else (capPixels, 1)
  {
    ClampToCap(w, capPixels);
    ClampToCap(1, capPixels);
    if w > capPixels { DivExact(capPixels, w, 0); }
  }

  // ----- The whole calculation -----

  /** What the cap path computes: the scaled extents, whose area is the cap, rounded and repaired. */
  lemma CappedPath(cw: real, ch: real, cap: real, root: real, w: int, h: int)
    requires Area(cw, ch) > cap > 0.0 && IsScale(root, Area(cw, ch), cap) && Scaled(cw, root) > 0.0 &&
      Scaled(ch, root) > 0.0
    ensures root < 1.0 && cw > 0.0 && ch > 0.0 && Scaled(cw, root) * Scaled(ch, root) == cap
    ensures RoundedScale(w, cw) >= RoundedScale(h, ch) <==> w as real * Scaled(ch, root) >= h as real * Scaled(cw, root)
  {
    ScaleBelowOne(root, Area(cw, ch), cap);
    Cancel(cw, 0.0, root);
    Cancel(ch, 0.0, root);
    Square(cw, ch, root);
    RelativeScale(w, h, cw, ch, root);
  }

  lemma ScaleBelowOne(root: real, area: real, cap: real)
    requires IsScale(root, area, cap) && area > cap > 0.0
    ensures root < 1.0
  {
    if root >= 1.0 {
      MulLe(1.0, root, root);
      MulLe(1.0, root * root, area);
      assert false;
    }
  }

  lemma Square(cw: real, ch: real, root: real)
    ensures (cw * root) * (ch * root) == root * root * (cw * ch)
  {
  }

  /** Whatever root is passed in, a result is at least 1x1 and in the integer range, it fits a cap that
      applies, the third correction never runs and `cap_violation` is never raised. */
  lemma CapAlwaysHolds(cw: real, ch: real, capMegapixels: real, cap: real, root: real)
    ensures var (r, turns) := Sized(cw, ch, capMegapixels, cap, root);
      && r != CapViolation && turns <= 2
      && (r.Dimensions? ==>
            && 1 <= r.width <= INT_MAX && 1 <= r.height <= INT_MAX
            && (CapApplies(Area(cw, ch), capMegapixels, cap) ==>
                  0.0 < cap <= LLONG_MAX as real && r.width * r.height <= CapPixels(cap)))
  {
    hide Scaled, CapPixels, Area, Repaired, RoundedScale;
    var scale := if CapApplies(Area(cw, ch), capMegapixels, cap) && root <= 1.0 then root else 1.0;
    var w, h := Rounded(Scaled(cw, scale)), Rounded(Scaled(ch, scale));
    if Area(cw, ch) > 0.0 { RepairAlwaysFits(w, h, RoundedScale(w, cw) >= RoundedScale(h, ch), CapPixels(cap)); }
  }

  /** The minimal repair on the caller's own arguments: at most one pixel leaves one axis, and both
      results stay within one pixel of the exact scaled extents. */
  lemma WithinOnePixel(cw: real, ch: real, capMegapixels: real, cap: real, root: real)
    requires cap > 0.0 && CapApplies(Area(cw, ch), capMegapixels, cap) && IsScale(root, Area(cw, ch), cap)
    requires Scaled(cw, root) >= 1.0 && Scaled(ch, root) >= 1.0
    requires Sized(cw, ch, capMegapixels, cap, root).0.Dimensions?
    ensures var (r, turns) := Sized(cw, ch, capMegapixels, cap, root);
      var x, y := Scaled(cw, root), Scaled(ch, root);
      && turns <= 1
      && (Rounded(x) - r.width) + (Rounded(y) - r.height) == turns && r.width <= Rounded(x) && r.height <= Rounded(y)
      && x - 1.0 < r.width as real <= x + 0.5 && y - 1.0 < r.height as real <= y + 0.5
  {
    hide WithinCap, CapPixels, IsScale, Scaled, Rounded, RoundedScale, Area;
    ScaleBelowOne(root, Area(cw, ch), cap);
    var x, y := Scaled(cw, root), Scaled(ch, root);
    CappedPath(cw, ch, cap, root, Rounded(x), Rounded(y));
    RepairedNearby(x, y, cap, RoundedScale(Rounded(x), cw) >= RoundedScale(Rounded(y), ch));
  }

  lemma RepairedNearby(x: real, y: real, cap: real, widthFirst: bool)
    requires x >= 1.0 && y >= 1.0 && x * y == cap
    requires widthFirst <==> Rounded(x) as real * y >= Rounded(y) as real * x
    ensures var (r, turns) := WithinCap(Rounded(x), Rounded(y), widthFirst, CapPixels(cap));
      && turns <= 1 && r.Dimensions?
      && (Rounded(x) - r.width) + (Rounded(y) - r.height) == turns && r.width <= Rounded(x) && r.height <= Rounded(y)
      && x - 1.0 < r.width as real <= x + 0.5 && y - 1.0 < r.height as real <= y + 0.5
  {
    hide Repaired, CapPixels;
    RoundingError(x);
    RoundingError(y);
    MinimalRepair(x, y, widthFirst);
  }

  /** Sizing a result again, with square pixels and the same cap, returns it unchanged, however either
      square root is rounded. */
  lemma Idempotent(cw: real, ch: real, capMegapixels: real, cap: real, root: real, root': real)
    requires CapApplies(Area(cw, ch), capMegapixels, cap) && root' > 0.0
    requires Sized(cw, ch, capMegapixels, cap, root).0.Dimensions?
    ensures var r := Sized(cw, ch, capMegapixels, cap, root).0;
      Sized(r.width as real, r.height as real, capMegapixels, cap, root') == (r, 0)
  {
    hide Sized, CapPixels, Area;
    CapAlwaysHolds(cw, ch, capMegapixels, cap, root);
    var r := Sized(cw, ch, capMegapixels, cap, root).0;
    FittingIsFixed(r.width, r.height, capMegapixels, cap, root');
  }

  lemma FittingIsFixed(w: int, h: int, capMegapixels: real, cap: real, root: real)
    requires w >= 1 && h >= 1 && w <= INT_MAX && h <= INT_MAX && root > 0.0
    requires capMegapixels > 0.0 && 0.0 < cap <= LLONG_MAX as real && w * h <= CapPixels(cap)
    ensures Sized(w as real, h as real, capMegapixels, cap, root) == (Dimensions(w, h), 0)
  {
    var area := w as real * h as real;
    Products(w, h);
    Grows(1, w, h);
    Grows(1, h, w);
    FloorAtLeast(w * h, cap);
    RoundWhole(w);
    RoundWhole(h);
    if CapApplies(area, capMegapixels, cap) {
      assert w == 1 && h == 1;
      RoundingError(if root <= 1.0 then root else 1.0);
    }
  }

  lemma RoundWhole(n: int)
    requires n >= 1
    ensures Rounded(n as real) == n && (n as real + 0.5).Floor == n
  {
  }

  // ----- What is refused -----

  /** An extent that rounds to a supported integer. */
  predicate Roundable(value: real) { 0.0 < value < INT_MAX as real + 0.5 }

  /** A cap beyond integer pixel accounting, or none at all where one was asked for. */
  predicate CapRefused(area: real, capMegapixels: real, cap: real) {
    capMegapixels > 0.0 && (cap <= 0.0 || (area > cap && cap > LLONG_MAX as real))
  }

  /** The scale is the given root, but never more than 1, and 1 when the cap does not apply. */
  function ScaleTaken(area: real, capMegapixels: real, cap: real, root: real): real {
    if capMegapixels > 0.0 && area > cap && root <= 1.0 then root else 1.0
  }

  /** Dimensions come back exactly for a positive area under an acceptable cap whose extents, scaled when the
      cap applies, round to supported integers; every refusal has its own reason. */
  lemma AcceptedExactly(cw: real, ch: real, capMegapixels: real, cap: real, root: real)
    ensures var r, s := Sized(cw, ch, capMegapixels, cap, root).0, ScaleTaken(Area(cw, ch), capMegapixels, cap, root);
      var area, x, y := Area(cw, ch), Scaled(cw, s), Scaled(ch, s);
      && (r.Dimensions? <==> area > 0.0 && !CapRefused(area, capMegapixels, cap) && Roundable(x) && Roundable(y))
      && (r == InvalidCap <==> area > 0.0 && CapRefused(area, capMegapixels, cap))
      && (r == InvalidDimension ==> x >= INT_MAX as real + 0.5 || y >= INT_MAX as real + 0.5)
  {
    hide Rounded, CapPixels, RoundedScale, Area, Scaled, RoundedDimension, Roundable, WithinCap;
    NoViolation(cw, ch, capMegapixels, cap, root);
    var s := ScaleTaken(Area(cw, ch), capMegapixels, cap, root);
    var x, y := Scaled(cw, s), Scaled(ch, s);
    InRange(x);
    InRange(y);
    var width, height := RoundedDimension(x), RoundedDimension(y);
    if Area(cw, ch) > 0.0 && width.Dimensions? && height.Dimensions? {
      RepairAnswers(width.width, height.height, RoundedScale(width.width, cw) >= RoundedScale(height.height, ch),
                    CapPixels(cap));
    }
  }

  lemma NoViolation(cw: real, ch: real, capMegapixels: real, cap: real, root: real)
    ensures Sized(cw, ch, capMegapixels, cap, root).0 != CapViolation
  {
    hide *;
    CapAlwaysHolds(cw, ch, capMegapixels, cap, root);
  }

  lemma InRange(value: real)
    ensures RoundedDimension(value).Dimensions? <==> Roundable(value)
    ensures RoundedDimension(value) == InvalidGeometry <==> value <= 0.0
    ensures RoundedDimension(value) == InvalidDimension <==> value >= INT_MAX as real + 0.5
    ensures !RoundedDimension(value).InvalidCap? && !RoundedDimension(value).CapViolation?
  {
  }

  lemma RepairAnswers(width: int, height: int, widthFirst: bool, capPixels: int)
    ensures var (r, _) := WithinCap(width, height, widthFirst, capPixels); r.Dimensions? || r.CapViolation?
  {
    hide Repaired;
  }

  /** Without a cap each extent is rounded half up on its own, to at least one pixel. */
  lemma UncappedIsRounded(cw: real, ch: real, capMegapixels: real, cap: real, root: real)
    requires !CapApplies(Area(cw, ch), capMegapixels, cap) && Sized(cw, ch, capMegapixels, cap, root).0.Dimensions?
    ensures var (r, turns) := Sized(cw, ch, capMegapixels, cap, root);
      && turns == 0
      && (if cw < 1.5 then r.width == 1 else cw - 0.5 < r.width as real <= cw + 0.5)
      && (if ch < 1.5 then r.height == 1 else ch - 0.5 < r.height as real <= ch + 0.5)
  {
    assert Scaled(cw, 1.0) == cw && Scaled(ch, 1.0) == ch;
    RoundingError(cw);
    RoundingError(ch);
  }

  // ----- The path without the cap -----

  /** Where the cap is not applied it is not enforced either: the result is over the cap exactly when
      the canonical width rounds up and the rounded-up rectangle is over it. */
  lemma UncappedMayExceed(cw: real, height: int, capMegapixels: real, cap: real, root: real)
    requires capMegapixels > 0.0 && !CapApplies(Area(cw, height as real), capMegapixels, cap)
    requires Sized(cw, height as real, capMegapixels, cap, root).0.Dimensions?
    ensures var (r, _) := Sized(cw, height as real, capMegapixels, cap, root);
      (r.width * r.height) as real > cap <==>
        (cw < 0.5 && height as real > cap)
        || (cw >= 0.5 && cw - cw.Floor as real >= 0.5 && ((cw.Floor + 1) * height) as real > cap)
  {
    hide Rounded, Repaired, CapPixels;
    assert Scaled(cw, 1.0) == cw && Scaled(height as real, 1.0) == height as real;
    RoundWhole(height);
    Uncapped(cw, height, cap);
  }

  lemma Uncapped(cw: real, h: int, cap: real)
    requires h >= 1 && cw > 0.0 && cw * h as real <= cap
    ensures (Rounded(cw) * h) as real > cap <==>
      (cw < 0.5 && h as real > cap)
      || (cw >= 0.5 && cw - cw.Floor as real >= 0.5 && ((cw.Floor + 1) * h) as real > cap)
  {
    RoundedCases(cw);
    hide Rounded;
    if cw >= 0.5 && cw - cw.Floor as real < 0.5 {
      Products(cw.Floor, h);
      MulLe(cw.Floor as real, cw, h as real);
      assert Rounded(cw) * h == cw.Floor * h;
    }
  }

  lemma RoundedCases(v: real)
    requires v > 0.0
    ensures Rounded(v) == if v < 0.5 then 1 else if v - v.Floor as real < 0.5 then v.Floor else v.Floor + 1
  {
  }

  /** Three source columns of half width and one row are 1.5 canonical pixels, within a cap of 1.5,
      and yet two pixels are returned. */
  lemma UncappedExample()
    ensures !CapApplies(Area(1.5, 1.0), 0.000_001_5, 1.5)
    ensures Sized(1.5, 1.0, 0.000_001_5, 1.5, 1.0) == (Dimensions(2, 1), 0)
  {
    assert Scaled(1.5, 1.0) == 1.5 && Scaled(1.0, 1.0) == 1.0;
    assert Rounded(1.5) == 2 && Rounded(1.0) == 1;
  }
}
