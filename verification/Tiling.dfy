/** The identity ST map: what each pixel holds, and why rendering it tile by tile is rendering it once. */
module Tiling {
  import opened Arith
  import opened HalfFloat
  import opened PixelRows
  import opened HostImage
  import opened Workers

  // ----- What the renderer writes -----

  /** The geometry an identity map is drawn against; `single` is the cast of a double to a float. */
  datatype StMap = StMap(sourceX: int, sourceY: int, sourceWidth: int, sourceHeight: int, relative: bool, topLeft: bool,
                         single: real -> Float32)

  /** The pixel at a global position: its place in the source, or no displacement, opaque. */
  function StPixel(map_: StMap, x: int, y: int): (r: seq<Float32>)
    requires map_.sourceWidth > 0 && map_.sourceHeight > 0
    ensures |r| == 4
  {
    if map_.relative then [ZERO, ZERO, ZERO, ONE]
    else
      var u := ((x - map_.sourceX) as real + 0.5) / map_.sourceWidth as real;
      var bottomLeftV := ((y - map_.sourceY) as real + 0.5) / map_.sourceHeight as real;
      [map_.single(u), map_.single(if map_.topLeft then 1.0 - bottomLeftV else bottomLeftV), ZERO, ONE]
  }

  // ----- What the pixels mean -----

  /** (u, v) points at the centre of pixel (x, y): scaled to the source and moved to its corner it is half a
      pixel in, with v counted from the top or from the bottom. */
  predicate Locates(map_: StMap, u: real, v: real, x: int, y: int) {
    && u * map_.sourceWidth as real - 0.5 + map_.sourceX as real == x as real
    && (if map_.topLeft then 1.0 - v else v) * map_.sourceHeight as real - 0.5 + map_.sourceY as real == y as real
  }

  /** The pixel holds its own place in the source, or no displacement, in an opaque pixel without blue. */
  ghost predicate Places(map_: StMap, pixel: seq<Float32>, x: int, y: int) {
    if map_.relative then pixel == [ZERO, ZERO, ZERO, ONE]
    else exists u: real, v: real ::
      Locates(map_, u, v, x, y) && pixel == [map_.single(u), map_.single(v), ZERO, ONE]
  }

  lemma StPixelPlaces(map_: StMap, x: int, y: int)
    requires map_.sourceWidth > 0 && map_.sourceHeight > 0
    ensures Places(map_, StPixel(map_, x, y), x, y)
  {
    if !map_.relative {
      var w, h := map_.sourceWidth as real, map_.sourceHeight as real;
      var u, bottom := ((x - map_.sourceX) as real + 0.5) / w, ((y - map_.sourceY) as real + 0.5) / h;
      var v := if map_.topLeft then 1.0 - bottom else bottom;
      Divided((x - map_.sourceX) as real + 0.5, w);
      Divided((y - map_.sourceY) as real + 0.5, h);
      assert (if map_.topLeft then 1.0 - v else v) == bottom;
      assert Locates(map_, u, v, x, y);
    }
  }

  lemma Divided(a: real, b: real)
    requires b > 0.0
    ensures a / b * b == a
  {
  }

  /** There is one such place. */
  lemma LocatedOnce(map_: StMap, u: real, v: real, u': real, v': real, x: int, y: int)
    requires map_.sourceWidth > 0 && map_.sourceHeight > 0
    requires Locates(map_, u, v, x, y) && Locates(map_, u', v', x, y)
    ensures u == u' && v == v'
  {
    Cancelled(u, u', map_.sourceWidth as real);
    Cancelled(if map_.topLeft then 1.0 - v else v, if map_.topLeft then 1.0 - v' else v', map_.sourceHeight as real);
  }

  lemma Cancelled(a: real, b: real, c: real)
    requires c > 0.0 && a * c == b * c
    ensures a == b
  {
    if a < b { MulLt(a, b, c); } else if b < a { MulLt(b, a, c); }
  }

  /** Inside the source both coordinates lie strictly between 0 and 1. */
  lemma LocatedInside(map_: StMap, u: real, v: real, x: int, y: int)
    requires map_.sourceWidth > 0 && map_.sourceHeight > 0 && Locates(map_, u, v, x, y)
    requires map_.sourceX <= x < map_.sourceX + map_.sourceWidth && map_.sourceY <= y < map_.sourceY + map_.sourceHeight
    ensures 0.0 < u < 1.0 && 0.0 < v < 1.0
  {
    var w, h, bottom := map_.sourceWidth as real, map_.sourceHeight as real, if map_.topLeft then 1.0 - v else v;
    StrictlyInside(u, w, u * w);
    StrictlyInside(bottom, h, bottom * h);
  }

  lemma StrictlyInside(a: real, c: real, p: real)
    requires c > 0.0 && p == a * c && 0.0 < p < c
    ensures 0.0 < a < 1.0
  {
    if a <= 0.0 { MulLe(a, 0.0, c); }
    if a >= 1.0 { MulLe(1.0, a, c); }
  }

  /** From one pixel to the next u rises by one source width, and v by one source height from the bottom up,
      or falls by it when counted from the top. */
  lemma LocatedNext(map_: StMap, u: real, v: real, u': real, v': real, x: int, y: int)
    requires map_.sourceWidth > 0 && map_.sourceHeight > 0
    requires Locates(map_, u, v, x, y) && Locates(map_, u', v', x + 1, y + 1)
    ensures u' - u == 1.0 / map_.sourceWidth as real
    ensures v' - v == (if map_.topLeft then -1.0 else 1.0) / map_.sourceHeight as real
  {
    var w, h := map_.sourceWidth as real, map_.sourceHeight as real;
    OneApart(u, u', w);
    if map_.topLeft {
      OneApart(1.0 - v, 1.0 - v', h);
      assert -1.0 / h == -(1.0 / h);
    } else {
      OneApart(v, v', h);
    }
  }

  lemma OneApart(a: real, b: real, c: real)
    requires c > 0.0 && b * c == a * c + 1.0
    ensures b - a == 1.0 / c
  {
    assert (b - a) * c == b * c - a * c;
    Divided(1.0, c);
    Cancelled(b - a, 1.0 / c, c);
  }

  // ----- Rows of pixels -----

  /** The first `m` pixels of row `y` of a window whose corner is at (`originX`, `originY`). */
  function StRow(map_: StMap, originX: int, originY: int, y: int, m: nat): (r: seq<Float32>)
    requires map_.sourceWidth > 0 && map_.sourceHeight > 0
    ensures |r| == 4 * m
  {
    if m == 0 then [] else StRow(map_, originX, originY, y, m - 1) + StPixel(map_, originX + m - 1, originY + y)
  }

  /** `StIdentityRenderer::writeRows`, one row of it: pixel after pixel through a moving pointer. */
  method WriteStRow(map_: StMap, originX: int, originY: int, y: int, width: nat, out: array<Float32>, start: nat)
    requires map_.sourceWidth > 0 && map_.sourceHeight > 0 && start + 4 * width <= out.Length
    modifies out
    ensures Overlaid(out[..], old(out[..]), start, StRow(map_, originX, originY, y, width))
    ensures forall c: nat :: c < width ==>
      Places(map_, out[..][start + 4 * c..start + 4 * c + 4], originX + c, originY + y)
  {
    NothingOverlaid(out[..], start);
    hide Overlaid, StPixel, StRow, Places;
    NoPixels(map_, originX, originY, y);
    var at, x := start, 0;
    while x < width
      invariant 0 <= x <= width && at == start + 4 * x
      invariant Overlaid(out[..], old(out[..]), start, StRow(map_, originX, originY, y, x))
    {
      NextPixel(map_, originX, originY, y, x);
      ghost var middle := out[..];
      WriteStPixel(map_, originX + x, originY + y, out, at);
      OverlayMore(out[..], middle, old(out[..]), start, StRow(map_, originX, originY, y, x),
                  StPixel(map_, originX + x, originY + y));
      at, x := at + 4, x + 1;
    }
    forall c: nat | c < width
      ensures Places(map_, out[..][start + 4 * c..start + 4 * c + 4], originX + c, originY + y)
    {
      RowPlaces(out[..], old(out[..]), start, map_, originX, originY, y, width, c);
    }
  }

  /** Every pixel of a row that was laid down holds its own place. */
  lemma {:induction false} RowPlaces(now: seq<Float32>, before: seq<Float32>, start: nat, map_: StMap,
                                     originX: int, originY: int, y: int, width: nat, c: nat)
    requires map_.sourceWidth > 0 && map_.sourceHeight > 0 && c < width
    requires Overlaid(now, before, start, StRow(map_, originX, originY, y, width))
    ensures start + 4 * c + 4 <= |now| && Places(map_, now[start + 4 * c..start + 4 * c + 4], originX + c, originY + y)
  {
    var row := StRow(map_, originX, originY, y, width);
    StRowAt(map_, originX, originY, y, width, c);
    StPixelPlaces(map_, originX + c, originY + y);
    hide StRow, StPixel, Places;
    assert now[start + 4 * c..start + 4 * c + 4] == Item(row, 0, 4, width, c);
  }

  lemma {:induction false} NoPixels(map_: StMap, originX: int, originY: int, y: int)
    requires map_.sourceWidth > 0 && map_.sourceHeight > 0
    ensures StRow(map_, originX, originY, y, 0) == []
  {
  }

  lemma NextPixel(map_: StMap, originX: int, originY: int, y: int, x: nat)
    requires map_.sourceWidth > 0 && map_.sourceHeight > 0
    ensures StRow(map_, originX, originY, y, x + 1)
      == StRow(map_, originX, originY, y, x) + StPixel(map_, originX + x, originY + y)
  {
  }

  method WriteStPixel(map_: StMap, globalX: int, globalY: int, out: array<Float32>, at: nat)
    requires map_.sourceWidth > 0 && map_.sourceHeight > 0 && at + 4 <= out.Length
    modifies out
    ensures Overlaid(out[..], old(out[..]), at, StPixel(map_, globalX, globalY))
  {
    var u, v := ZERO, ZERO;
    if !map_.relative {
      var localX, localY := globalX - map_.sourceX, globalY - map_.sourceY;
      u := map_.single((localX as real + 0.5) / map_.sourceWidth as real);
      var bottomLeftV := (localY as real + 0.5) / map_.sourceHeight as real;
      v := map_.single(if map_.topLeft then 1.0 - bottomLeftV else bottomLeftV);
    }
    out[at] := u;
    out[at + 1] := v;
    out[at + 2] := ZERO;
    out[at + 3] := ONE;
  }

  /** All rows of a window. */
  ghost function StRows(map_: StMap, window: Rect): (r: seq<seq<Float32>>)
    requires map_.sourceWidth > 0 && map_.sourceHeight > 0 && !IsEmptyRect(window)
    ensures |r| == window.y2 - window.y1 && forall y :: 0 <= y < |r| ==>
      r[y] == StRow(map_, window.x1, window.y1, y, window.x2 - window.x1)
  {
    seq(window.y2 - window.y1, y requires 0 <= y < window.y2 - window.y1 =>
      StRow(map_, window.x1, window.y1, y, window.x2 - window.x1))
  }

  /** `writeRows` for a whole window: each row is written pixel by pixel. */
  method WriteStRows(map_: StMap, window: Rect) returns (rows: seq<seq<Float32>>)
    requires map_.sourceWidth > 0 && map_.sourceHeight > 0 && !IsEmptyRect(window)
    ensures rows == StRows(map_, window)
  {
    hide StRow;
    var width, height := window.x2 - window.x1, window.y2 - window.y1;
    rows := [];
    for y := 0 to height
      invariant |rows| == y && forall r :: 0 <= r < y ==> rows[r] == StRow(map_, window.x1, window.y1, r, width)
    {
      var out := new Float32[4 * width](_ => ZERO);
      ghost var blank := out[..];
      WriteStRow(map_, window.x1, window.y1, y, width, out, 0);
      OverlaidRow(out[..], blank, 0, StRow(map_, window.x1, window.y1, y, width));
      rows := rows + [out[..]];
    }
  }

  // ----- Filling regions of a host image -----

  type Content = (int, int) -> seq<Float32>

  predicate InBounds(image: HostPixels, x: int, y: int) {
    image.bounds.x1 <= x < image.bounds.x2 && image.bounds.y1 <= y < image.bounds.y2
  }

  /** What the host stores for one float RGBA pixel. */
  ghost function Code(image: HostPixels, pixel: seq<Float32>, ops: Arithmetic): (r: seq<Byte>)
    requires |pixel| == 4 && Converts(image.depth, image.components, 1)
    ensures |r| == PixelBytes(image.depth, image.components)
  {
    BytesOf(PackPixel(pixel, ComponentCount(image.components), image.depth, ops), image.depth)
  }

  ghost predicate FourChannels(content: Content) {
    forall x: int, y: int :: |content(x, y)| == 4
  }

  /** The pixels of the image that lie in any of the windows. */
  ghost predicate Covered(image: HostPixels, windows: seq<Rect>, x: int, y: int) {
    InBounds(image, x, y) && exists i :: 0 <= i < |windows| && Contains(windows[i], x, y)
  }

  /** Every covered pixel holds its content, and no other byte has changed. */
  ghost predicate Filled(now: seq<Byte>, before: seq<Byte>, image: HostPixels, windows: seq<Rect>, content: Content,
                         ops: Arithmetic)
    requires FourChannels(content) && Converts(image.depth, image.components, 1)
  {
    && |now| == |before|
    && (forall x: int, y: int, k: nat :: k < |now| && Covered(image, windows, x, y) && InPixel(image, x, y, k) ==>
          now[k] == Code(image, content(x, y), ops)[k - PixelAddress(image, x, y)])
    && (forall k: nat ::
         k < |now| && (forall x: int, y: int :: Covered(image, windows, x, y) ==> !InPixel(image, x, y, k)) ==>
           now[k] == before[k])
  }

  /** Two pixels of an image share no byte. */
  lemma PixelsApart(image: HostPixels, x: int, y: int, x': int, y': int, k: int)
    requires !IsEmpty(image) && Writable(image) && InBounds(image, x, y) && InBounds(image, x', y')
    requires InPixel(image, x, y, k) && InPixel(image, x', y', k)
    ensures x == x' && y == y'
  {
    hide PixelBytes, RowAddress;
    var size := PixelBytes(image.depth, image.components);
    PixelInRow(image, x, y);
    PixelInRow(image, x', y');
    var r, r' := y - image.bounds.y1, y' - image.bounds.y1;
    if r < r' { ApartBy(image.address, image.rowBytes, r, r', image.Width() * size); }
    if r' < r { ApartBy(image.address, image.rowBytes, r', r, image.Width() * size); }
    if r == r' {
      if x < x' { PixelsOrdered(image, x, x', y); }
      if x' < x { PixelsOrdered(image, x', x, y); }
    }
  }

  lemma PixelsOrdered(image: HostPixels, x: int, x': int, y: int)
    requires x < x'
    ensures PixelAddress(image, x, y) + PixelBytes(image.depth, image.components) <= PixelAddress(image, x', y)
  {
    hide PixelBytes, RowAddress;
    var c, c', size := x - image.bounds.x1, x' - image.bounds.x1, PixelBytes(image.depth, image.components);
    Grows(c + 1, c', size);
    assert (c + 1) * size == size * c + size && c' * size == size * c';
  }

  /** A pixel lies in its row. */
  lemma PixelInRow(image: HostPixels, x: int, y: int)
    requires InBounds(image, x, y)
    ensures var row, size := RowAddress(image.address, image.rowBytes, y - image.bounds.y1),
      PixelBytes(image.depth, image.components);
      row <= PixelAddress(image, x, y) && PixelAddress(image, x, y) + size <= row + image.Width() * size
  {
    hide PixelBytes, RowAddress;
    var c, size := x - image.bounds.x1, PixelBytes(image.depth, image.components);
    Grows(0, c, size);
    Grows(c + 1, image.Width(), size);
    assert (c + 1) * size == size * c + size && c * size == size * c;
  }

  /** What was filled determines every byte. */
  lemma FilledOnce(a: seq<Byte>, b: seq<Byte>, before: seq<Byte>, image: HostPixels, windows: seq<Rect>,
                   windows': seq<Rect>, content: Content, ops: Arithmetic)
    requires FourChannels(content) && Converts(image.depth, image.components, 1)
    requires forall x: int, y: int :: Covered(image, windows, x, y) == Covered(image, windows', x, y)
    requires Filled(a, before, image, windows, content, ops) && Filled(b, before, image, windows', content, ops)
    ensures a == b
  {
    hide Code, Covered, PixelAddress;
    forall k: nat | k < |before|
      ensures a[k] == b[k]
    {
      if x: int, y: int :| Covered(image, windows, x, y) && InPixel(image, x, y, k) {
        assert a[k] == Code(image, content(x, y), ops)[k - PixelAddress(image, x, y)];
      }
    }
  }

  /** Filling some windows and then others is filling them all, because what a pixel holds does not
      depend on the window. */
  lemma FilledMore(now: seq<Byte>, middle: seq<Byte>, before: seq<Byte>, image: HostPixels, windows: seq<Rect>,
                   more: Rect, content: Content, ops: Arithmetic)
    requires !IsEmpty(image) && Writable(image) && FourChannels(content) && Converts(image.depth, image.components, 1)
    requires Filled(middle, before, image, windows, content, ops) && Filled(now, middle, image, [more], content, ops)
    ensures Filled(now, before, image, windows + [more], content, ops)
  {
    CoveredByEither(image, windows, more);
    hide Code, Covered, PixelAddress, Writable;
    forall x: int, y: int, k: nat | k < |now| && Covered(image, windows + [more], x, y) && InPixel(image, x, y, k)
      ensures now[k] == Code(image, content(x, y), ops)[k - PixelAddress(image, x, y)]
    {
      if !Covered(image, [more], x, y) {
        assert middle[k] == Code(image, content(x, y), ops)[k - PixelAddress(image, x, y)];
        forall x': int, y': int | Covered(image, [more], x', y')
          ensures !InPixel(image, x', y', k)
        {
          if InPixel(image, x', y', k) {
            CoveredInBounds(image, [more], x', y');
            CoveredInBounds(image, windows, x, y);
            PixelsApart(image, x, y, x', y', k);
          }
        }
      }
    }
  }

  lemma CoveredInBounds(image: HostPixels, windows: seq<Rect>, x: int, y: int)
    requires Covered(image, windows, x, y)
    ensures InBounds(image, x, y)
  {
  }

  lemma CoveredByEither(image: HostPixels, windows: seq<Rect>, more: Rect)
    ensures forall x: int, y: int :: Covered(image, windows + [more], x, y) <==>
      Covered(image, windows, x, y) || Covered(image, [more], x, y)
  {
    forall x: int, y: int
      ensures Covered(image, windows + [more], x, y) <==> Covered(image, windows, x, y) || Covered(image, [more], x, y)
    {
      var all := windows + [more];
      assert all[|windows|] == more && [more][0] == more;
      assert forall i :: 0 <= i < |windows| ==> all[i] == windows[i];
    }
  }

  // ----- A painted window is a filled window -----

  lemma {:induction false} StRowAt(map_: StMap, originX: int, originY: int, y: int, m: nat, x: nat)
    requires map_.sourceWidth > 0 && map_.sourceHeight > 0 && x < m
    ensures Item(StRow(map_, originX, originY, y, m), 0, 4, m, x) == StPixel(map_, originX + x, originY + y)
  {
    hide StPixel;
    if x < m - 1 { StRowAt(map_, originX, originY, y, m - 1, x); }
  }

  function StContent(map_: StMap): Content
    requires map_.sourceWidth > 0 && map_.sourceHeight > 0
  {
    (x: int, y: int) => StPixel(map_, x, y)
  }

  /** The bytes of one pixel of a painted row. */
  lemma PaintedPixel(now: seq<Byte>, before: seq<Byte>, image: HostPixels, window: Rect, map_: StMap, ops: Arithmetic,
                     x: int, y: int, k: nat)
    requires map_.sourceWidth > 0 && map_.sourceHeight > 0
    requires Tileable(image, window) && Windowed(image, window).Fits(|before|)
    requires var w := Intersection(window, image.bounds); var t := Windowed(image, window);
      Contains(w, x, y) && Renderable(t, StRows(map_, w)) && Painted(now, before, t, 0, t.height, StRows(map_, w), ops)
    requires k < |now| && InPixel(image, x, y, k) && Converts(image.depth, image.components, 1)
    ensures now[k] == Code(image, StPixel(map_, x, y), ops)[k - PixelAddress(image, x, y)]
  {
    hide Painted, Encoded, StPixel, Code, PixelBytes, PixelAddress, RowAddress, RowsWithin, Writable, IsEmpty,
      Renderable, StRow;
    var w, t := Intersection(window, image.bounds), Windowed(image, window);
    var rows, c, r := StRows(map_, w), x - w.x1, y - w.y1;
    InWindowRow(image, window, x, y);
    EncodedPixel(image, t, map_, w, r, c, ops);
    hide StRows, Intersection, Windowed, Contains, Converts, Item;
    PaintedItem(now, before, t, rows, ops, r, c, k - PixelAddress(image, x, y), k);
  }

  /** Byte `j` of item `c` of a painted row. */
  lemma PaintedItem(now: seq<Byte>, before: seq<Byte>, t: Target, rows: seq<seq<Float32>>, ops: Arithmetic, r: nat,
                    c: nat, j: nat, k: nat)
    requires t.Fits(|before|) && Renderable(t, rows) && Painted(now, before, t, 0, t.height, rows, ops)
    requires r < t.height && c < t.width && j < t.Size() && k < |now| && k == t.Start(r) + c * t.Size() + j
    ensures now[k] == Item(Encoded(t, rows[r], ops), 0, t.Size(), t.width, c)[j]
  {
    hide Painted, Encoded, PixelBytes, RowAddress, RowsWithin, Converts, Item;
    var bytes := Encoded(t, rows[r], ops);
    ByteOfItem(bytes, t.Size(), t.width, c, j);
    PaintedByte(now, before, t, rows, ops, r, k);
  }

  lemma ByteOfItem(bytes: seq<Byte>, size: nat, n: nat, c: nat, j: nat)
    requires |bytes| == n * size && c < n && j < size
    ensures c * size + j < |bytes| && Item(bytes, 0, size, n, c)[j] == bytes[c * size + j]
  {
    NextItem(c, n, size);
  }

  /** A pixel's stretch of an encoded row is that pixel encoded. */
  lemma {:induction false} EncodedPixel(image: HostPixels, t: Target, map_: StMap, w: Rect, r: nat, c: nat,
                                        ops: Arithmetic)
    requires map_.sourceWidth > 0 && map_.sourceHeight > 0 && Converts(image.depth, image.components, 1)
    requires t.depth == image.depth && t.components == image.components && t.width == w.x2 - w.x1 && c < t.width
    ensures var row := StRow(map_, w.x1, w.y1, r, t.width);
      Item(Encoded(t, row, ops), 0, t.Size(), t.width, c) == Code(image, StPixel(map_, w.x1 + c, w.y1 + r), ops)
  {
    hide PackRow, StRow, StPixel, BytesOf, PackPixel, ChannelBytes;
    var row := StRow(map_, w.x1, w.y1, r, t.width);
    PackRowAt(row, 0, ComponentCount(image.components), t.width, t.width, c, image.depth, ops);
    StRowAt(map_, w.x1, w.y1, r, t.width, c);
  }

  lemma PaintedByte(now: seq<Byte>, before: seq<Byte>, t: Target, rows: seq<seq<Float32>>, ops: Arithmetic, y: nat,
                    k: nat)
    requires t.Fits(|before|) && Renderable(t, rows) && Painted(now, before, t, 0, t.height, rows, ops) &&
      y < t.height && t.InRow(y, k)
    ensures now[k] == Encoded(t, rows[y], ops)[k - t.Start(y)]
  {
    hide Encoded;
  }

  ghost predicate Tileable(image: HostPixels, window: Rect) {
    !IsEmpty(image) && Writable(image) && !IsEmptyRect(Intersection(window, image.bounds)) &&
      PixelBytes(image.depth, image.components) != 0
  }

  lemma PaintedIsFilled(now: seq<Byte>, before: seq<Byte>, image: HostPixels, window: Rect, map_: StMap,
                        ops: Arithmetic)
    requires map_.sourceWidth > 0 && map_.sourceHeight > 0 && Converts(image.depth, image.components, 1)
    requires Tileable(image, window) && Windowed(image, window).Fits(|before|)
    requires var w := Intersection(window, image.bounds); var t := Windowed(image, window);
      Renderable(t, StRows(map_, w)) && Painted(now, before, t, 0, t.height, StRows(map_, w), ops)
    ensures Filled(now, before, image, [window], StContent(map_), ops)
  {
    var w, t := Intersection(window, image.bounds), Windowed(image, window);
    assert [window][0] == window;
    forall x: int, y: int, k: nat | k < |now| && Covered(image, [window], x, y) && InPixel(image, x, y, k)
      ensures now[k] == Code(image, StPixel(map_, x, y), ops)[k - PixelAddress(image, x, y)]
    {
      PaintedPixel(now, before, image, window, map_, ops, x, y, k);
    }
    forall k: nat | k < |now| && (forall x: int, y: int :: Covered(image, [window], x, y) ==> !InPixel(image, x, y, k))
      ensures now[k] == before[k]
    {
      UntouchedByte(image, window, k);
    }
  }

  lemma UntouchedByte(image: HostPixels, window: Rect, k: nat)
    requires Tileable(image, window)
    requires forall x: int, y: int :: Covered(image, [window], x, y) ==> !InPixel(image, x, y, k)
    ensures forall r: nat :: r < Windowed(image, window).height ==> !Windowed(image, window).InRow(r, k)
  {
    var t := Windowed(image, window);
    forall r: nat | r < t.height
      ensures !t.InRow(r, k)
    {
      if t.InRow(r, k) { CoveringPixel(image, window, r, k); }
    }
  }

  lemma CoveringPixel(image: HostPixels, window: Rect, r: nat, k: nat)
    requires Tileable(image, window) && r < Windowed(image, window).height && Windowed(image, window).InRow(r, k)
    ensures exists x: int, y: int :: Covered(image, [window], x, y) && InPixel(image, x, y, k)
  {
    var w := Intersection(window, image.bounds);
    assert [window][0] == window;
    OnlyTheWindow(image, window, w.y1 + r, k);
    hide InPixel;
    var y := w.y1 + r;
    var x: int :| w.x1 <= x < w.x2 && InPixel(image, x, y, k);
    assert Covered(image, [window], x, y);
  }

  // ----- Any tiling -----

  /** One render of the identity map through a window, as the row renderers leave host memory. */
  ghost predicate Rendered(now: seq<Byte>, before: seq<Byte>, image: HostPixels, window: Rect, map_: StMap,
                           ops: Arithmetic)
    requires map_.sourceWidth > 0 && map_.sourceHeight > 0
  {
    if IsEmptyRect(Intersection(window, image.bounds)) then now == before
    else
      var w, t := Intersection(window, image.bounds), Windowed(image, window);
      t.Fits(|before|) && Renderable(t, StRows(map_, w)) && Painted(now, before, t, 0, t.height, StRows(map_, w), ops)
  }

  lemma RenderedIsFilled(now: seq<Byte>, before: seq<Byte>, image: HostPixels, window: Rect, map_: StMap,
                         ops: Arithmetic)
    requires map_.sourceWidth > 0 && map_.sourceHeight > 0 && Converts(image.depth, image.components, 1)
    requires !IsEmpty(image) && Writable(image) && Rendered(now, before, image, window, map_, ops)
    ensures Filled(now, before, image, [window], StContent(map_), ops)
  {
    if !IsEmptyRect(Intersection(window, image.bounds)) {
      PaintedIsFilled(now, before, image, window, map_, ops);
    }
  }

  /** `renderStMap` on one window of an image: attach, and let one worker render every row. */
  method RenderWindow(image: HostPixels, window: Rect, map_: StMap, ops: Arithmetic)
    requires map_.sourceWidth > 0 && map_.sourceHeight > 0 && Converts(image.depth, image.components, 1)
    requires !IsEmpty(image) && Writable(image)
    modifies image.memory
    ensures Rendered(image.memory[..], old(image.memory[..]), image, window, map_, ops)
  {
    hide Painted, RowsWithin, StRows, StopsAt;
    var destination := new HostDestinationImage();
    var ok := destination.Attach(image, window);
    var w := Intersection(window, image.bounds);
    if IsEmptyRect(w) { return; }
    WindowFits(image, window);
    var rows := WriteStRows(map_, w);
    SerialBlock(destination.view.height);
    FinishesUnaborted(0, destination.view.height, []);
    var stop := MultiThreadFunction(destination, rows, 0, 1, [], ops);
  }

  /** Renders of windows, one after another, fill their union. */
  lemma {:induction false} TilesFill(memories: seq<seq<Byte>>, windows: seq<Rect>, m: nat, image: HostPixels,
                                     map_: StMap, ops: Arithmetic)
    requires map_.sourceWidth > 0 && map_.sourceHeight > 0 && Converts(image.depth, image.components, 1)
    requires !IsEmpty(image) && Writable(image) && |memories| == |windows| + 1 && m <= |windows|
    requires forall i :: 0 <= i < |windows| ==> Rendered(memories[i + 1], memories[i], image, windows[i], map_, ops)
    ensures Filled(memories[m], memories[0], image, windows[..m], StContent(map_), ops)
  {
    hide Rendered, Filled, Writable;
    if m == 0 {
      NothingFilled(memories[0], image, StContent(map_), ops);
      assert windows[..0] == [];
    } else {
      TilesFill(memories, windows, m - 1, image, map_, ops);
      RenderedIsFilled(memories[m - 1 + 1], memories[m - 1], image, windows[m - 1], map_, ops);
      FilledMore(memories[m], memories[m - 1], memories[0], image, windows[..m - 1], windows[m - 1], StContent(map_),
                 ops);
      assert windows[..m] == windows[..m - 1] + [windows[m - 1]];
    }
  }

  lemma NothingFilled(memory: seq<Byte>, image: HostPixels, content: Content, ops: Arithmetic)
    requires FourChannels(content) && Converts(image.depth, image.components, 1)
    ensures Filled(memory, memory, image, [], content, ops)
  {
    assert forall x: int, y: int :: !Covered(image, [], x, y);
  }

  /** Rendering an image tile by tile, with any windows in any order that together cover it, overlapping
      or not, leaves exactly the bytes of one render of the whole. */
  lemma TilesAreOneRender(memories: seq<seq<Byte>>, windows: seq<Rect>, whole: seq<Byte>, image: HostPixels,
                          map_: StMap, ops: Arithmetic)
    requires map_.sourceWidth > 0 && map_.sourceHeight > 0 && Converts(image.depth, image.components, 1)
    requires !IsEmpty(image) && Writable(image) && |memories| == |windows| + 1
    requires forall i :: 0 <= i < |windows| ==> Rendered(memories[i + 1], memories[i], image, windows[i], map_, ops)
    requires forall x: int, y: int :: InBounds(image, x, y) ==> Covered(image, windows, x, y)
    requires Rendered(whole, memories[0], image, image.bounds, map_, ops)
    ensures memories[|windows|] == whole
  {
    TilesFill(memories, windows, |windows|, image, map_, ops);
    RenderedIsFilled(whole, memories[0], image, image.bounds, map_, ops);
    assert windows[..|windows|] == windows && [image.bounds][0] == image.bounds;
    hide Filled, Rendered, Writable;
    FilledOnce(memories[|windows|], whole, memories[0], image, windows, [image.bounds], StContent(map_), ops);
  }

  /** Rendering the tiles one by one is rendering the image once, on the image's own memory. */
  method RenderTiles(image: HostPixels, windows: seq<Rect>, map_: StMap, ops: Arithmetic)
    requires map_.sourceWidth > 0 && map_.sourceHeight > 0 && Converts(image.depth, image.components, 1)
    requires !IsEmpty(image) && Writable(image)
    requires forall x: int, y: int :: InBounds(image, x, y) ==> Covered(image, windows, x, y)
    modifies image.memory
    ensures forall whole :: Rendered(whole, old(image.memory[..]), image, image.bounds, map_, ops) ==>
      image.memory[..] == whole
  {
    hide Rendered, Covered;
    ghost var memories := [image.memory[..]];
    for i := 0 to |windows|
      invariant |memories| == i + 1 && memories[0] == old(image.memory[..]) && memories[i] == image.memory[..]
      invariant forall j :: 0 <= j < i ==> Rendered(memories[j + 1], memories[j], image, windows[j], map_, ops)
    {
      RenderWindow(image, windows[i], map_, ops);
      memories := memories + [image.memory[..]];
    }
    forall whole | Rendered(whole, memories[0], image, image.bounds, map_, ops)
      ensures image.memory[..] == whole
    {
      TilesAreOneRender(memories, windows, whole, image, map_, ops);
    }
  }
}
