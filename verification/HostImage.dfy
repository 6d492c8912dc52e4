/** A host's image as float RGBA: borrowed in place when its layout allows, converted through scratch
    storage when not. Host memory is bytes, and rows are a signed number of bytes apart. */
module HostImage {
  import opened Arith
  import opened HalfFloat
  import opened PixelRows

  datatype Rect = Rect(x1: int, y1: int, x2: int, y2: int)

  /** What a host hands over: `address` is that of the pixel at (bounds.x1, bounds.y1). */
  datatype HostPixels = HostPixels(memory: array?<Byte>, address: int, bounds: Rect, rowBytes: int, depth: Depth,
                                   components: Components) {
    function Width(): int { bounds.x2 - bounds.x1 }
    function Height(): int { bounds.y2 - bounds.y1 }
  }

  /** Where a view's floats live. */
  datatype Store = Nowhere | Host(memory: array<Byte>, address: int) | Scratch(floats: array<Float32>)

  datatype View = View(store: Store, width: int, height: int, rowStride: int)

  const EMPTY_VIEW := View(Nowhere, 0, 0, 0)

  predicate IsDirectlyUsableLayout(depth: Depth, components: Components, rowBytes: int) {
    depth == Single && components == RGBA && rowBytes % 4 == 0
  }

  /** `hostRowAddress` */
  function RowAddress(base: int, rowBytes: int, row: int): int { base + rowBytes * row }

  /** Rows `0..height` of `width` pixels of `size` bytes lie in memory. */
  ghost predicate RowsWithin(length: nat, base: int, rowBytes: int, width: nat, height: nat, size: nat) {
    forall y :: 0 <= y < height ==>
      0 <= RowAddress(base, rowBytes, y) && RowAddress(base, rowBytes, y) + width * size <= length
  }

  // ----- Equal rows laid end to end -----

  ghost function Flat<T>(rows: seq<seq<T>>): seq<T> {
    if rows == [] then [] else Flat(rows[..|rows| - 1]) + rows[|rows| - 1]
  }

  lemma NoRows<T>()
    ensures Flat<T>([]) == []
  {
  }

  lemma FlatNext<T>(rows: seq<seq<T>>, y: nat)
    requires y < |rows|
    ensures Flat(rows[..y + 1]) == Flat(rows[..y]) + rows[y]
  {
    assert rows[..y + 1][..y] == rows[..y];
  }

  lemma {:induction false} FlatLength<T>(rows: seq<seq<T>>, size: nat)
    requires forall i :: 0 <= i < |rows| ==> |rows[i]| == size
    ensures |Flat(rows)| == |rows| * size
  {
    if rows == [] {
    } else {
      FlatLength(rows[..|rows| - 1], size);
      NextItem(|rows| - 1, |rows|, size);
    }
  }

  /** There is room for row `y` after the rows before it. */
  lemma RowFits<T>(rows: seq<seq<T>>, y: nat, size: nat)
    requires y < |rows| && forall i :: 0 <= i < |rows| ==> |rows[i]| == size
    ensures |Flat(rows[..y])| + size <= |rows| * size
  {
    FlatLength(rows[..y], size);
    NextItem(y, |rows|, size);
  }

  lemma {:induction false} FlatItem<T>(rows: seq<seq<T>>, size: nat, x: nat)
    requires x < |rows| && forall i :: 0 <= i < |rows| ==> |rows[i]| == size
    ensures |Flat(rows)| == |rows| * size && Item(Flat(rows), 0, size, |rows|, x) == rows[x]
  {
    FlatLength(rows, size);
    var before := rows[..|rows| - 1];
    FlatLength(before, size);
    NextItem(|rows| - 1, |rows|, size);
    if x < |before| {
      FlatItem(before, size, x);
      NextItem(x, |before|, size);
      assert Item(Flat(rows), 0, size, |rows|, x) == Item(Flat(before), 0, size, |before|, x);
    } else {
      assert Item(Flat(rows), 0, size, |rows|, x) == rows[x];
    }
  }

  /** Rows laid over the whole of a buffer are its items. */
  lemma {:induction false} RowsLaid<T>(now: seq<T>, before: seq<T>, rows: seq<seq<T>>, size: nat)
    requires |now| == |rows| * size && Overlaid(now, before, 0, Flat(rows))
    requires forall i :: 0 <= i < |rows| ==> |rows[i]| == size
    ensures forall y :: 0 <= y < |rows| ==> Item(now, 0, size, |rows|, y) == rows[y]
  {
    FlatLength(rows, size);
    OverlaidRow(now, before, 0, Flat(rows));
    assert now == Flat(rows);
    hide Flat, Item, Overlaid;
    forall y | 0 <= y < |rows|
      ensures Item(now, 0, size, |rows|, y) == rows[y]
    {
      FlatItem(rows, size, y);
    }
  }

  // ----- Floats in host memory -----

  /** The `n` floats stored from byte `from` on. */
  ghost function FloatsAt(memory: seq<Byte>, from: nat, n: nat): (r: seq<Float32>)
    requires from + 4 * n <= |memory|
    ensures |r| == n
  {
    seq(n, i requires 0 <= i < n => Load(memory[from + 4 * i..from + 4 * i + 4], Single).value)
  }

  /** Borrowing reads what converting reads. */
  lemma {:induction false} BorrowedIsConverted(memory: seq<Byte>, from: nat, n: nat, m: nat, ops: Arithmetic)
    requires m <= n && from + n * 16 <= |memory|
    ensures FloatsAt(memory, from, 4 * m) == ExpandRow(memory, from, 4, n, m, Single, ops)
    decreases m
  {
    hide FloatsAt, ExpandItem, ExpandRow;
    if m == 0 {
      NothingBorrowed(memory, from, n, ops);
    } else {
      BorrowedIsConverted(memory, from, n, m - 1, ops);
      OnePixelMore(memory, from, n, m - 1, ops);
    }
  }

  lemma {:induction false} NothingBorrowed(memory: seq<Byte>, from: nat, n: nat, ops: Arithmetic)
    requires from + n * 16 <= |memory|
    ensures FloatsAt(memory, from, 0) == ExpandRow(memory, from, 4, n, 0, Single, ops)
  {
  }

  lemma OnePixelMore(memory: seq<Byte>, from: nat, n: nat, m: nat, ops: Arithmetic)
    requires m < n && from + n * 16 <= |memory|
    requires FloatsAt(memory, from, 4 * m) == ExpandRow(memory, from, 4, n, m, Single, ops)
    ensures FloatsAt(memory, from, 4 * (m + 1)) == ExpandRow(memory, from, 4, n, m + 1, Single, ops)
  {
    hide FloatsAt, ExpandItem, ExpandRow;
    PixelIsFourFloats(memory, from, n, m, ops);
    FloatsAppend(memory, from, 4 * m, 4);
    ExpandedNext(memory, from, n, m, ops);
    assert from + 4 * (4 * m) == from + 16 * m;
  }

  lemma {:induction false} ExpandedNext(memory: seq<Byte>, from: nat, n: nat, m: nat, ops: Arithmetic)
    requires m < n && from + n * 16 <= |memory|
    ensures ExpandRow(memory, from, 4, n, m + 1, Single, ops)
      == ExpandRow(memory, from, 4, n, m, Single, ops) + ExpandItem(memory, from, 4, n, m, Single, ops)
  {
    hide ExpandItem;
  }

  lemma FloatsAppend(memory: seq<Byte>, from: nat, a: nat, b: nat)
    requires from + 4 * (a + b) <= |memory|
    ensures FloatsAt(memory, from, a + b) == FloatsAt(memory, from, a) + FloatsAt(memory, from + 4 * a, b)
  {
    hide Load;
  }

  lemma SliceOfSlice<T>(s: seq<T>, at: nat, n: nat, i: nat, k: nat)
    requires at + n <= |s| && i + k <= n
    ensures s[at..at + n][i..i + k] == s[at + i..at + i + k]
  {
    var a, b := s[at..at + n][i..i + k], s[at + i..at + i + k];
    forall j | 0 <= j < k
      ensures a[j] == b[j]
    {
      assert a[j] == s[at..at + n][i + j] == s[at + (i + j)];
    }
    assert |a| == |b| == k;
  }

  lemma PixelIsFourFloats(memory: seq<Byte>, from: nat, n: nat, x: nat, ops: Arithmetic)
    requires x < n && from + n * 16 <= |memory|
    ensures ExpandItem(memory, from, 4, n, x, Single, ops) == FloatsAt(memory, from + 16 * x, 4)
  {
    hide Load;
    var bytes := Item(memory, from, 16, n, x);
    assert bytes == memory[from + 16 * x..from + 16 * x + 16];
    forall c: nat | c < 4
      ensures CellsOf(bytes, Single, 4)[c] == Load(memory[from + 16 * x + 4 * c..from + 16 * x + 4 * c + 4], Single)
    {
      CellAt(bytes, Single, 4, c);
      SliceOfSlice(memory, from + 16 * x, 16, 4 * c, 4);
    }
    hide CellsOf;
  }

  /** The bytes of a row of floats. */
  ghost function BytesOfFloats(row: seq<Float32>): (r: seq<Byte>)
    ensures |r| == 4 * |row|
  {
    if row == [] then [] else BytesOfFloats(row[..|row| - 1]) + Stored(Float(row[|row| - 1]), Single)
  }

  /** Writing floats in place writes what converting back would. */
  lemma {:induction false} DirectIsPacked(row: seq<Float32>, n: nat, m: nat, ops: Arithmetic)
    requires m <= n && |row| == 4 * n
    ensures BytesOfFloats(row[..4 * m]) == PackRow(row, 0, 4, n, m, Single, ops)
  {
    hide BytesOfFloats, PackRow, PackPixel, BytesOf, Item;
    if m == 0 {
      NoFloats();
      PackNothing(row, 0, 4, n, Single, ops);
      assert row[..0] == [];
    } else {
      PackNext(row, 0, 4, n, m - 1, Single, ops);
      DirectIsPacked(row, n, m - 1, ops);
      var i := 4 * (m - 1);
      FourFloats(row, i);
      FourCells(Item(row, 0, 4, n, m - 1), ops);
      ItemOfFour(row, n, m - 1);
    }
  }

  lemma NoFloats()
    ensures BytesOfFloats([]) == []
  {
  }

  lemma ItemOfFour(row: seq<Float32>, n: nat, x: nat)
    requires x < n && |row| == 4 * n
    ensures var i := 4 * x; Item(row, 0, 4, n, x) == [row[i], row[i + 1], row[i + 2], row[i + 3]]
  {
  }

  lemma FourFloats(row: seq<Float32>, i: nat)
    requires i + 4 <= |row|
    ensures BytesOfFloats(row[..i + 4]) == BytesOfFloats(row[..i])
      + (Stored(Float(row[i]), Single) + Stored(Float(row[i + 1]), Single) + Stored(Float(row[i + 2]), Single)
        + Stored(Float(row[i + 3]), Single))
  {
    hide Stored;
    FloatNext(row, i);
    FloatNext(row, i + 1);
    FloatNext(row, i + 2);
    FloatNext(row, i + 3);
    Associate(BytesOfFloats(row[..i]), Stored(Float(row[i]), Single), Stored(Float(row[i + 1]), Single),
              Stored(Float(row[i + 2]), Single), Stored(Float(row[i + 3]), Single));
  }

  lemma FloatNext(row: seq<Float32>, i: nat)
    requires i < |row|
    ensures BytesOfFloats(row[..i + 1]) == BytesOfFloats(row[..i]) + Stored(Float(row[i]), Single)
  {
    hide Stored;
    assert row[..i + 1][..i] == row[..i];
  }

  lemma Associate<T>(s: seq<T>, a: seq<T>, b: seq<T>, c: seq<T>, d: seq<T>)
    ensures s + a + b + c + d == s + (a + b + c + d)
  {
  }

  lemma FourCells(p: seq<Float32>, ops: Arithmetic)
    requires |p| == 4
    ensures BytesOf(PackPixel(p, 4, Single, ops), Single) ==
      Stored(Float(p[0]), Single) + Stored(Float(p[1]), Single) + Stored(Float(p[2]), Single)
        + Stored(Float(p[3]), Single)
  {
    hide Stored;
    var cells := PackPixel(p, 4, Single, ops);
    assert cells == [Float(p[0]), Float(p[1]), Float(p[2]), Float(p[3])];
    FewerCells(cells, 0, Single);
    FewerCells(cells, 1, Single);
    FewerCells(cells, 2, Single);
    FewerCells(cells, 3, Single);
    assert cells[..0] == [] && cells[..4] == cells;
  }

  // ----- Views -----

  /** The floats of row `y` of a view lie in its store. */
  ghost predicate ViewFits(view: View) {
    match view.store
    case Nowhere => true
    case Host(memory, address) =>
      view.width >= 0 && view.height >= 0 &&
      RowsWithin(memory.Length, address, 4 * view.rowStride, view.width, view.height, 16)
    case Scratch(floats) =>
      view.width >= 0 && view.height >= 0 && view.rowStride == 4 * view.width &&
        view.height * (4 * view.width) <= floats.Length
  }

  function Heap(view: View): set<object> {
    match view.store
    case Nowhere => {}
    case Host(memory, address) => {memory}
    case Scratch(floats) => {floats}
  }

  /** What `view.row(y)` points at. */
  ghost function RowOf(view: View, y: nat): (r: seq<Float32>)
    requires ViewFits(view) && view.store != Nowhere && y < view.height
    reads Heap(view)
    ensures |r| == 4 * view.width
  {
    match view.store
    case Host(memory, address) => FloatsAt(memory[..], RowAddress(address, 4 * view.rowStride, y), 4 * view.width)
    case Scratch(floats) => Item(floats[..], 0, 4 * view.width, view.height, y)
  }

  ghost function RowsOf(view: View): (r: seq<seq<Float32>>)
    requires ViewFits(view) && view.store != Nowhere && view.height >= 0
    reads Heap(view)
    ensures |r| == view.height && forall y :: 0 <= y < |r| ==> |r[y]| == 4 * view.width
  {
    seq(view.height, y requires 0 <= y < view.height reads Heap(view) => RowOf(view, y))
  }

  // ----- Reading -----

  predicate IsEmpty(image: HostPixels) {
    image.Width() <= 0 || image.Height() <= 0 || image.memory == null
  }

  /** What a host promises of an image it hands over: its rows are in its memory. */
  ghost predicate Provided(image: HostPixels) {
    !IsEmpty(image) ==>
      RowsWithin(image.memory.Length, image.address, image.rowBytes, image.Width(), image.Height(),
                 PixelBytes(image.depth, image.components))
  }

  /** Row `y` of a host image as float RGBA, whatever its layout. */
  ghost function HostRow(image: HostPixels, memory: seq<Byte>, y: nat, ops: Arithmetic): (r: seq<Float32>)
    requires !IsEmpty(image) && Converts(image.depth, image.components, image.Width()) && y < image.Height()
    requires RowsWithin(|memory|, image.address, image.rowBytes, image.Width(), image.Height(),
                        PixelBytes(image.depth, image.components))
    ensures |r| == 4 * image.Width()
  {
    ExpandRow(memory, RowAddress(image.address, image.rowBytes, y), ComponentCount(image.components), image.Width(),
              image.Width(), image.depth, ops)
  }

  ghost function HostRows(image: HostPixels, memory: seq<Byte>, ops: Arithmetic): (r: seq<seq<Float32>>)
    requires !IsEmpty(image) && Converts(image.depth, image.components, image.Width())
    requires RowsWithin(|memory|, image.address, image.rowBytes, image.Width(), image.Height(),
                        PixelBytes(image.depth, image.components))
    ensures |r| == image.Height() && forall y :: 0 <= y < |r| ==>
      r[y] == HostRow(image, memory, y, ops) && |r[y]| == 4 * image.Width()
  {
    seq(image.Height(), y requires 0 <= y < image.Height() => HostRow(image, memory, y, ops))
  }

  function Borrowed(image: HostPixels): View
    requires image.memory != null
  {
    View(Host(image.memory, image.address), image.Width(), image.Height(), image.rowBytes / 4)
  }

  lemma BorrowedFits(image: HostPixels)
    requires !IsEmpty(image) && Provided(image) && IsDirectlyUsableLayout(image.depth, image.components, image.rowBytes)
    ensures ViewFits(Borrowed(image)) && Converts(image.depth, image.components, image.Width())
  {
  }

  lemma BorrowedRow(image: HostPixels, y: nat, ops: Arithmetic)
    requires !IsEmpty(image) && Provided(image) &&
      IsDirectlyUsableLayout(image.depth, image.components, image.rowBytes) && y < image.Height()
    ensures ViewFits(Borrowed(image)) && RowOf(Borrowed(image), y) == HostRow(image, image.memory[..], y, ops)
  {
    hide FloatsAt, ExpandRow;
    BorrowedIsConverted(image.memory[..], RowAddress(image.address, image.rowBytes, y), image.Width(), image.Width(),
                        ops);
  }

  lemma ConvertedRow(view: View, y: nat)
    requires view.store.Scratch? && ViewFits(view) && y < view.height
    ensures RowOf(view, y) == Item(view.store.floats[..], 0, 4 * view.width, view.height, y)
  {
  }

  class HostSourceImage {
    var storage: array<Float32>
    var view: View
    var bounds: Rect

    constructor ()
      ensures fresh(storage) && storage.Length == 0 && view == EMPTY_VIEW
    {
      storage := new Float32[0];
      view, bounds := EMPTY_VIEW, Rect(0, 0, 0, 0);
    }

    predicate IsBorrowed()
      reads this
    {
      storage.Length == 0
    }

    /** `attach`: borrowed or converted, every row of the view is the host's row as float RGBA. */
    method Attach(image: HostPixels, ops: Arithmetic) returns (ok: bool)
      requires Provided(image)
      modifies this
      ensures ok <==> IsEmpty(image) || PixelBytes(image.depth, image.components) != 0
      ensures bounds == image.bounds && fresh(storage)
      ensures IsEmpty(image) ==> view == EMPTY_VIEW
      ensures !ok ==> view == old(view)
      ensures ok && !IsEmpty(image) ==>
        && Converts(image.depth, image.components, image.Width())
        && view.width == image.Width() && view.height == image.Height() && view.store != Nowhere && ViewFits(view)
        && (IsBorrowed() <==> IsDirectlyUsableLayout(image.depth, image.components, image.rowBytes))
        && (view.store.Host? <==> IsBorrowed())
        && (forall y: nat :: y < image.Height() ==> RowOf(view, y) == HostRow(image, image.memory[..], y, ops))
    {
      hide HostRow, RowOf, Item, RowsWithin;
      storage := new Float32[0];
      bounds := image.bounds;
      assert ViewFits(EMPTY_VIEW);
      var width, height := image.Width(), image.Height();
      if width <= 0 || height <= 0 || image.memory == null {
        view := EMPTY_VIEW;
        return true;
      }
      if PixelBytes(image.depth, image.components) == 0 { return false; }
      if IsDirectlyUsableLayout(image.depth, image.components, image.rowBytes) {
        view := Borrowed(image);
        BorrowedFits(image);
        forall y: nat | y < height
          ensures RowOf(view, y) == HostRow(image, image.memory[..], y, ops)
        {
          BorrowedRow(image, y, ops);
        }
        return true;
      }
      var floats := Convert(image, ops);
      storage := floats;
      view := View(Scratch(floats), width, height, 4 * width);
      forall y: nat | y < height
        ensures RowOf(view, y) == HostRow(image, image.memory[..], y, ops)
      {
        ConvertedRow(view, y);
      }
      return true;
    }

    /** The converting half of `attach`: every host row, one below the other, in new storage. */
    static method Convert(image: HostPixels, ops: Arithmetic) returns (floats: array<Float32>)
      requires !IsEmpty(image) && Provided(image) && PixelBytes(image.depth, image.components) != 0
      ensures fresh(floats) && floats.Length == image.Height() * (4 * image.Width()) && floats.Length != 0
      ensures Converts(image.depth, image.components, image.Width())
      ensures forall y: nat :: y < image.Height() ==>
        Item(floats[..], 0, 4 * image.Width(), image.Height(), y) == HostRow(image, image.memory[..], y, ops)
    {
      hide HostRow, Overlaid, Flat, Item, RowsWithin, PixelBytes;
      KnownLayout(image.depth, image.components);
      var width, height := image.Width(), image.Height();
      var stride := 4 * width;
      Grows(1, height, stride);
      floats := new Float32[height * stride](_ => ZERO);
      ghost var memory, blank := image.memory[..], floats[..];
      ghost var rows := HostRows(image, memory, ops);
      NothingOverlaid(blank, 0);
      assert rows[..0] == [];
      NoRows<Float32>();
      var y, at := 0, 0;
      while y < height
        invariant 0 <= y <= height && at == |Flat(rows[..y])|
        invariant image.memory[..] == memory
        invariant Overlaid(floats[..], blank, 0, Flat(rows[..y]))
      {
        RowFits(rows, y, stride);
        ghost var middle := floats[..];
        ConvertRow(image, y, floats, at, ops);
        OverlayMore(floats[..], middle, blank, 0, Flat(rows[..y]), rows[y]);
        FlatNext(rows, y);
        y, at := y + 1, at + stride;
      }
      assert rows[..height] == rows;
      RowsLaid(floats[..], blank, rows, stride);
    }

    static method ConvertRow(image: HostPixels, y: nat, floats: array<Float32>, at: nat, ops: Arithmetic)
      requires !IsEmpty(image) && Provided(image) && PixelBytes(image.depth, image.components) != 0
      requires y < image.Height() && at + 4 * image.Width() <= floats.Length
      modifies floats
      ensures Overlaid(floats[..], old(floats[..]), at, HostRow(image, image.memory[..], y, ops))
    {
      hide ExpandRow, Overlaid;
      ReadHostRow(image.memory, RowAddress(image.address, image.rowBytes, y), image.depth, image.components,
                  image.Width(), floats, at, ops);
    }
  }

  // ----- Painting rows into host memory -----

  /** A rectangle of host pixels: where its row 0 is, how far apart its rows are, and what a row holds. */
  datatype Target = Target(base: int, rowBytes: int, width: nat, height: nat, depth: Depth, components: Components) {
    function Size(): nat { PixelBytes(depth, components) }

    function Start(y: int): int { RowAddress(base, rowBytes, y) }

    /** Byte `k` belongs to row `y`. */
    predicate InRow(y: int, k: int) { Start(y) <= k < Start(y) + width * Size() }

    ghost predicate Fits(length: nat) {
      Converts(depth, components, width) && RowsWithin(length, base, rowBytes, width, height, Size())
    }

    /** No byte belongs to two rows. */
    ghost predicate Apart() {
      forall y: nat, z: nat, k: int :: y < z < height && InRow(y, k) ==> !InRow(z, k)
    }
  }

  /** A float RGBA row as the host stores it. */
  ghost function Encoded(t: Target, row: seq<Float32>, ops: Arithmetic): (r: seq<Byte>)
    requires Converts(t.depth, t.components, t.width) && |row| == 4 * t.width
    ensures |r| == t.width * t.Size()
  {
    PackRow(row, 0, ComponentCount(t.components), t.width, t.width, t.depth, ops)
  }

  ghost predicate Renderable(t: Target, rows: seq<seq<Float32>>) {
    |rows| == t.height && forall y :: 0 <= y < |rows| ==> |rows[y]| == 4 * t.width
  }

  /** Rows `first..last` of the target hold `rows`, and every other byte is as it was. */
  ghost predicate Painted(now: seq<Byte>, before: seq<Byte>, t: Target, first: nat, last: nat, rows: seq<seq<Float32>>,
                          ops: Arithmetic)
    requires t.Fits(|before|) && Renderable(t, rows) && last <= t.height
  {
    && |now| == |before|
    && (forall y: nat, k: nat :: first <= y < last && t.InRow(y, k) ==>
         now[k] == Encoded(t, rows[y], ops)[k - t.Start(y)])
    && (forall k: nat :: k < |now| && (forall y: nat :: first <= y < last ==> !t.InRow(y, k)) ==> now[k] == before[k])
  }

  /** What was painted determines every byte of memory. */
  lemma PaintedOnce(a: seq<Byte>, b: seq<Byte>, before: seq<Byte>, t: Target, first: nat, last: nat,
                    rows: seq<seq<Float32>>, ops: Arithmetic)
    requires t.Fits(|before|) && Renderable(t, rows) && last <= t.height
    requires Painted(a, before, t, first, last, rows, ops) && Painted(b, before, t, first, last, rows, ops)
    ensures a == b
  {
    hide Encoded;
    forall k: nat | k < |before|
      ensures a[k] == b[k]
    {
      if y: nat :| first <= y < last && t.InRow(y, k) {
        assert a[k] == Encoded(t, rows[y], ops)[k - t.Start(y)];
      }
    }
  }

  lemma NothingPainted(memory: seq<Byte>, t: Target, first: nat, last: nat, rows: seq<seq<Float32>>, ops: Arithmetic)
    requires t.Fits(|memory|) && Renderable(t, rows) && last <= first && last <= t.height
    ensures Painted(memory, memory, t, first, last, rows, ops)
  {
  }

  lemma PaintedMore(now: seq<Byte>, middle: seq<Byte>, before: seq<Byte>, t: Target, first: nat, y: nat,
                    rows: seq<seq<Float32>>, ops: Arithmetic)
    requires t.Fits(|before|) && Renderable(t, rows) && first <= y < t.height && t.Apart()
    requires Painted(middle, before, t, first, y, rows, ops) &&
      Overlaid(now, middle, t.Start(y), Encoded(t, rows[y], ops))
    ensures Painted(now, before, t, first, y + 1, rows, ops)
  {
    hide Encoded;
    forall r: nat, k: nat | first <= r < y + 1 && t.InRow(r, k)
      ensures now[k] == Encoded(t, rows[r], ops)[k - t.Start(r)]
    {
      if r < y { assert !t.InRow(y, k); }
    }
    forall k: nat | k < |now| && (forall r: nat :: first <= r < y + 1 ==> !t.InRow(r, k))
      ensures now[k] == before[k]
    {
      assert !t.InRow(y, k);
    }
  }

  /** A packed row depends on its own floats only. */
  lemma {:induction false} PackShift(rgba: seq<Float32>, at: nat, row: seq<Float32>, channels: nat, n: nat, m: nat,
                                     depth: Depth, ops: Arithmetic)
    requires m <= n && at + n * 4 <= |rgba| && row == rgba[at..at + n * 4] && channels in {1, 3, 4} &&
      depth != UnknownDepth
    ensures PackRow(rgba, at, channels, n, m, depth, ops) == PackRow(row, 0, channels, n, m, depth, ops)
  {
    hide PackPixel, BytesOf, ChannelBytes, PackRow;
    if m == 0 {
      PackNothing(rgba, at, channels, n, depth, ops);
      PackNothing(row, 0, channels, n, depth, ops);
    } else {
      PackShift(rgba, at, row, channels, n, m - 1, depth, ops);
      PackNext(rgba, at, channels, n, m - 1, depth, ops);
      PackNext(row, 0, channels, n, m - 1, depth, ops);
      assert Item(rgba, at, 4, n, m - 1) == Item(row, 0, 4, n, m - 1);
    }
  }

  // ----- Writing through a view -----

  /** Stores a row of floats at `view.row(y)`. */
  method WriteViewRow(view: View, y: nat, row: seq<Float32>)
    requires ViewFits(view) && view.store != Nowhere && y < view.height && |row| == 4 * view.width
    modifies Heap(view)
    ensures view.store.Host? ==>
      Overlaid(view.store.memory[..], old(view.store.memory[..]), RowAddress(view.store.address, 4 * view.rowStride, y),
               BytesOfFloats(row))
    ensures view.store.Scratch? ==>
      Overlaid(view.store.floats[..], old(view.store.floats[..]), y * (4 * view.width), row)
  {
    match view.store
    case Host(memory, address) => WriteFloats(memory, RowAddress(address, 4 * view.rowStride, y), row);
    case Scratch(floats) =>
      NextItem(y, view.height, 4 * view.width);
      CopyFloats(floats, y * (4 * view.width), row);
  }

  method WriteFloats(memory: array<Byte>, start: nat, row: seq<Float32>)
    requires start + 4 * |row| <= memory.Length
    modifies memory
    ensures Overlaid(memory[..], old(memory[..]), start, BytesOfFloats(row))
  {
    NoFloats();
    assert row[..0] == [];
    NothingOverlaid(memory[..], start);
    hide Overlaid, BytesOfFloats, Stored;
    var i := 0;
    while i < |row|
      invariant 0 <= i <= |row|
      invariant Overlaid(memory[..], old(memory[..]), start, BytesOfFloats(row[..i]))
    {
      FloatNext(row, i);
      ghost var middle := memory[..];
      StoreCell(memory, start + 4 * i, Float(row[i]), Single);
      OverlayMore(memory[..], middle, old(memory[..]), start, BytesOfFloats(row[..i]), Stored(Float(row[i]), Single));
      i := i + 1;
    }
    assert row[..i] == row;
  }

  method CopyFloats(floats: array<Float32>, start: nat, row: seq<Float32>)
    requires start + |row| <= floats.Length
    modifies floats
    ensures Overlaid(floats[..], old(floats[..]), start, row)
  {
    var i := 0;
    while i < |row|
      invariant 0 <= i <= |row|
      invariant Overlaid(floats[..], old(floats[..]), start, row[..i])
    {
      floats[start + i] := row[i];
      i := i + 1;
    }
    assert row[..i] == row;
  }

  // ----- The destination -----

  function Intersection(a: Rect, b: Rect): Rect {
    Rect(Max(a.x1, b.x1), Max(a.y1, b.y1), Min(a.x2, b.x2), Min(a.y2, b.y2))
  }

  function Max(a: int, b: int): int { if a >= b then a else b }
  function Min(a: int, b: int): int { if a <= b then a else b }

  predicate IsEmptyRect(r: Rect) { r.x2 <= r.x1 || r.y2 <= r.y1 }

  /** The address of a pixel inside the image. */
  function PixelAddress(image: HostPixels, x: int, y: int): int {
    RowAddress(image.address, image.rowBytes, y - image.bounds.y1)
      + PixelBytes(image.depth, image.components) * (x - image.bounds.x1)
  }

  /** What a host promises of an image to be written: its rows are in its memory and do not overlap. */
  ghost predicate Writable(image: HostPixels) {
    && Provided(image)
    && (!IsEmpty(image) && image.Height() > 1 ==>
          var row := image.Width() * PixelBytes(image.depth, image.components);
          row <= image.rowBytes || row <= -image.rowBytes)
  }

  /** The part of an image a window selects. */
  function Windowed(image: HostPixels, window: Rect): Target
    requires !IsEmptyRect(Intersection(window, image.bounds))
  {
    var w := Intersection(window, image.bounds);
    Target(PixelAddress(image, w.x1, w.y1), image.rowBytes, w.x2 - w.x1, w.y2 - w.y1, image.depth, image.components)
  }

  /** Row `y` of the window is a stretch of its row of the image. */
  lemma WindowRow(image: HostPixels, window: Rect, y: nat)
    requires !IsEmpty(image) && Provided(image) && !IsEmptyRect(Intersection(window, image.bounds)) &&
      y < Windowed(image, window).height
    ensures var t, r := Windowed(image, window), Intersection(window, image.bounds).y1 - image.bounds.y1 + y;
      && 0 <= r < image.Height()
      && RowAddress(image.address, image.rowBytes, r) <= t.Start(y)
      && t.Start(y) + t.width * t.Size() <= RowAddress(image.address, image.rowBytes, r) + image.Width() * t.Size()
  {
    var w, size := Intersection(window, image.bounds), PixelBytes(image.depth, image.components);
    hide PixelBytes;
    var r, c := w.y1 - image.bounds.y1 + y, w.x1 - image.bounds.x1;
    assert image.rowBytes * (w.y1 - image.bounds.y1) + image.rowBytes * y == image.rowBytes * r;
    Grows(0, c, size);
    Grows(c + (w.x2 - w.x1), image.Width(), size);
    assert (c + (w.x2 - w.x1)) * size == size * c + (w.x2 - w.x1) * size;
  }

  lemma WindowFits(image: HostPixels, window: Rect)
    requires !IsEmpty(image) && Provided(image) && !IsEmptyRect(Intersection(window, image.bounds))
    requires PixelBytes(image.depth, image.components) != 0
    ensures Windowed(image, window).Fits(image.memory.Length)
  {
    var t := Windowed(image, window);
    KnownLayout(image.depth, image.components);
    hide PixelBytes, ComponentCount;
    forall y: nat | y < t.height
      ensures 0 <= RowAddress(t.base, t.rowBytes, y) &&
        RowAddress(t.base, t.rowBytes, y) + t.width * t.Size() <= image.memory.Length
    {
      WindowRow(image, window, y);
    }
    hide RowAddress, PixelAddress, Provided;
  }

  lemma WindowApart(image: HostPixels, window: Rect)
    requires !IsEmpty(image) && Writable(image) && !IsEmptyRect(Intersection(window, image.bounds))
    ensures Windowed(image, window).Apart()
  {
    var t := Windowed(image, window);
    hide PixelBytes;
    forall y: nat, z: nat, k: int | y < z < t.height && t.InRow(y, k)
      ensures !t.InRow(z, k)
    {
      RowsApart(image, window, y, z);
    }
  }

  lemma KnownLayout(depth: Depth, components: Components)
    requires PixelBytes(depth, components) != 0
    ensures ComponentCount(components) != 0 && depth != UnknownDepth
  {
  }

  lemma RowsApart(image: HostPixels, window: Rect, y: nat, z: nat)
    requires !IsEmpty(image) && Writable(image) && !IsEmptyRect(Intersection(window, image.bounds))
    requires y < z < Windowed(image, window).height
    ensures var t := Windowed(image, window);
      t.Start(y) + t.width * t.Size() <= t.Start(z) || t.Start(z) + t.width * t.Size() <= t.Start(y)
  {
    var t := Windowed(image, window);
    hide PixelBytes, RowAddress;
    Grows(t.width, image.Width(), t.Size());
    ApartBy(t.base, t.rowBytes, y, z, t.width * t.Size());
  }

  lemma ApartBy(base: int, rowBytes: int, y: nat, z: nat, length: int)
    requires y < z && (length <= rowBytes || length <= -rowBytes) && length >= 0
    ensures RowAddress(base, rowBytes, y) + length <= RowAddress(base, rowBytes, z)
      || RowAddress(base, rowBytes, z) + length <= RowAddress(base, rowBytes, y)
  {
    assert rowBytes * z == rowBytes * y + rowBytes * (z - y);
    if rowBytes >= 0 {
      Multiple(rowBytes, z - y);
    } else {
      Multiple(-rowBytes, z - y);
      assert -rowBytes * (z - y) == -(rowBytes * (z - y));
    }
  }

  lemma Multiple(a: int, n: int)
    requires a >= 0 && n >= 1
    ensures a * n >= a
  {
    Grows(1, n, a);
  }

  /** Byte `k` belongs to the pixel (x, y) of the image. */
  predicate InPixel(image: HostPixels, x: int, y: int, k: int) {
    PixelAddress(image, x, y) <= k < PixelAddress(image, x, y) + PixelBytes(image.depth, image.components)
  }

  predicate Contains(r: Rect, x: int, y: int) { r.x1 <= x < r.x2 && r.y1 <= y < r.y2 }

  /** Pixel (x, y) of the image is pixel `x - x1` of row `y - y1` of the window. */
  lemma InWindowRow(image: HostPixels, window: Rect, x: int, y: int)
    requires !IsEmptyRect(Intersection(window, image.bounds)) && Contains(Intersection(window, image.bounds), x, y)
    ensures var w, t := Intersection(window, image.bounds), Windowed(image, window);
      PixelAddress(image, x, y) == t.Start(y - w.y1) + (x - w.x1) * t.Size()
  {
    hide PixelBytes;
    var w, size := Intersection(window, image.bounds), PixelBytes(image.depth, image.components);
    Differences(image.rowBytes, w.y1 - image.bounds.y1, y - w.y1);
    Differences(size, w.x1 - image.bounds.x1, x - w.x1);
  }

  lemma Differences(k: int, a: int, b: int)
    ensures k * a + k * b == k * (a + b) && k * b == b * k
  {
  }

  /** The image starts at its address with the first pixel of its bounds, pixels of a row follow one another,
      and rows are the signed row stride apart. */
  lemma LaidOut(image: HostPixels, x: int, y: int)
    ensures PixelAddress(image, image.bounds.x1, image.bounds.y1) == image.address
    ensures PixelAddress(image, x + 1, y) == PixelAddress(image, x, y) + PixelBytes(image.depth, image.components)
    ensures PixelAddress(image, x, y + 1) == PixelAddress(image, x, y) + image.rowBytes
  {
    Differences(PixelBytes(image.depth, image.components), x - image.bounds.x1, 1);
    Differences(image.rowBytes, y - image.bounds.y1, 1);
    hide PixelBytes;
  }

  /** A byte of the target is a byte of a pixel inside both the window and the image. */
  lemma OnlyTheWindow(image: HostPixels, window: Rect, y: int, k: int)
    requires !IsEmpty(image) && Provided(image) && !IsEmptyRect(Intersection(window, image.bounds))
    requires var w := Intersection(window, image.bounds); w.y1 <= y < w.y2 && Windowed(image, window).InRow(y - w.y1, k)
    ensures var w := Intersection(window, image.bounds); exists x: int :: w.x1 <= x < w.x2 && InPixel(image, x, y, k)
  {
    var t, w := Windowed(image, window), Intersection(window, image.bounds);
    var c := Quotient(k - t.Start(y - w.y1), t.Size(), t.width);
    InWindowRow(image, window, w.x1 + c, y);
    hide PixelBytes, PixelAddress, RowAddress;
    assert t.Size() * c == c * t.Size();
    assert InPixel(image, w.x1 + c, y, k);
  }

  lemma Quotient(d: nat, size: nat, n: nat) returns (c: nat)
    requires d < n * size
    ensures c < n && size * c <= d < size * c + size
  {
    c := d / size;
    assert d == size * c + d % size;
    if c >= n { Grows(n, c, size); }
  }

  class HostDestinationImage {
    var storage: array<Float32>
    var view: View
    var window: Rect
    var memory: array?<Byte>
    var hostRowZero: int
    var rowBytes: int
    var depth: Depth
    var components: Components

    constructor ()
      ensures fresh(storage) && storage.Length == 0 && view == EMPTY_VIEW && memory == null
    {
      storage := new Float32[0];
      view, window, memory := EMPTY_VIEW, Rect(0, 0, 0, 0), null;
      hostRowZero, rowBytes, depth, components := 0, 0, UnknownDepth, UnknownComponents;
    }

    function At(): Target
      requires view.width >= 0 && view.height >= 0
      reads this
    {
      Target(hostRowZero, rowBytes, view.width, view.height, depth, components)
    }

    /** Attached to a part of host memory whose rows do not overlap, either directly or with scratch. */
    ghost predicate Valid()
      reads this
    {
      && memory != null && ViewFits(view) && view.width > 0 && view.height > 0
      && At().Fits(memory.Length) && At().Apart()
      && match view.store
         case Nowhere => false
         case Host(m, address) =>
           && m == memory && address == hostRowZero && 4 * view.rowStride == rowBytes
           && depth == Single && components == RGBA
         case Scratch(floats) => floats == storage && storage.Length != 0
    }

    /** `attach`, to the part of `wanted` that exists. Scratch storage of an earlier attachment is kept when
        the new one needs none. */
    method Attach(image: HostPixels, wanted: Rect) returns (ok: bool)
      requires Writable(image)
      modifies this
      ensures window == Intersection(wanted, image.bounds)
      ensures ok <==> IsEmptyRect(window) || PixelBytes(image.depth, image.components) != 0
      ensures ok && (IsEmptyRect(window) || image.memory == null) ==> view == EMPTY_VIEW
      ensures !ok ==> view == old(view)
      ensures fresh(storage) || storage == old(storage)
      ensures ok && !IsEmptyRect(window) && image.memory != null ==>
        && Valid() && memory == image.memory && At() == Windowed(image, wanted)
        && (view.store.Host? <==> IsDirectlyUsableLayout(image.depth, image.components, image.rowBytes))
        && (view.store.Scratch? ==> fresh(storage))
    {
      window := Intersection(wanted, image.bounds);
      var width, height := window.x2 - window.x1, window.y2 - window.y1;
      depth, components, rowBytes := image.depth, image.components, image.rowBytes;
      if width <= 0 || height <= 0 {
        view := EMPTY_VIEW;
        return true;
      }
      if PixelBytes(depth, components) == 0 { return false; }
      memory := image.memory;
      if memory == null {
        view := EMPTY_VIEW;
        return true;
      }
      hostRowZero := PixelAddress(image, window.x1, window.y1);
      WindowFits(image, wanted);
      WindowApart(image, wanted);
      hide RowsWithin, PixelBytes;
      if IsDirectlyUsableLayout(depth, components, rowBytes) {
        view := View(Host(memory, hostRowZero), width, height, rowBytes / 4);
        assert PixelBytes(Single, RGBA) == 16;
        return true;
      }
      Grows(1, height, 4 * width);
      storage := new Float32[height * (4 * width)](_ => ZERO);
      view := View(Scratch(storage), width, height, 4 * width);
      return true;
    }

    function FirstRow(firstRow: int): nat { Max(0, firstRow) }

    function LastRow(firstRow: int, rowCount: int): (r: nat)
      requires view.height >= 0
      reads this
      ensures r <= view.height
    {
      Max(0, Min(view.height, firstRow + rowCount))
    }

    /** `writeBackRows`: host memory ends up painted with the scratch rows. A view that is host memory is
        left as it is: there is no scratch to write back, or only that of an earlier attachment, and then the
        rows are copied onto themselves. */
    method WriteBackRows(firstRow: int, rowCount: int, ops: Arithmetic)
      requires Valid()
      modifies memory
      ensures view.store.Host? ==> memory[..] == old(memory[..])
      ensures view.store.Scratch? ==>
        && RowsOf(view) == old(RowsOf(view))
        && Painted(memory[..], old(memory[..]), At(), FirstRow(firstRow), LastRow(firstRow, rowCount), RowsOf(view),
                   ops)
    {
      if storage.Length == 0 || memory == null { return; }
      var first, last := Max(0, firstRow), Min(view.height, firstRow + rowCount);
      ghost var t, rows, before := At(), RowsOf(view), memory[..];
      hide Encoded, Painted, RowOf, ViewFits, Target.Apart;
      if first >= last {
        if view.store.Scratch? { NothingPainted(before, t, first, LastRow(firstRow, rowCount), rows, ops); }
        return;
      }
      NothingPainted(before, t, first, first, rows, ops);
      var y := first;
      while y < last
        invariant first <= y <= last
        invariant view.store.Host? ==> memory[..] == before
        invariant view.store.Scratch? ==> Painted(memory[..], before, t, first, y, rows, ops) && RowsOf(view) == rows
      {
        if view.store.Host? {
          assert RowAddress(hostRowZero, rowBytes, y) >= 0;
          CopyOnItself(memory, RowAddress(hostRowZero, rowBytes, y), 4 * view.width);
        } else {
          ghost var middle := memory[..];
          assert RowOf(view, y) == rows[y];
          WriteBackRow(y, ops);
          PaintedMore(memory[..], middle, before, t, first, y, rows, ops);
        }
        y := y + 1;
      }
    }

    /** One turn of the write-back loop. */
    method WriteBackRow(y: nat, ops: Arithmetic)
      requires Valid() && view.store.Scratch? && y < view.height
      modifies memory
      ensures Overlaid(memory[..], old(memory[..]), At().Start(y), Encoded(At(), RowOf(view, y), ops))
    {
      hide PackRow, Overlaid, ChannelBytes;
      var stride := 4 * view.width;
      NextItem(y, view.height, stride);
      ghost var channels := ComponentCount(components);
      PackShift(storage[..], y * stride, RowOf(view, y), channels, view.width, view.width, depth, ops);
      WriteHostRow(storage, y * stride, view.width, depth, components, memory, RowAddress(hostRowZero, rowBytes, y),
                   ops);
    }

    /** A block of rows as a worker renders it: the renderer writes the view's rows, then they are
        written back. Directly or through scratch, host memory ends up painted with the same rows. */
    method RenderRows(firstRow: nat, rowCount: nat, rows: seq<seq<Float32>>, ops: Arithmetic)
      requires Valid() && Renderable(At(), rows)
      modifies memory, storage
      ensures Painted(memory[..], old(memory[..]), At(), firstRow, LastRow(firstRow, rowCount), rows, ops)
    {
      hide Painted, RowOf, RowsWithin;
      var last := LastRow(firstRow, rowCount);
      if view.store.Host? {
        WriteDirectly(firstRow, last, rows, ops);
        WriteBackRows(firstRow, rowCount, ops);
      } else {
        WriteScratch(firstRow, last, rows);
        ghost var rendered := RowsOf(view);
        WriteBackRows(firstRow, rowCount, ops);
        SamePainting(memory[..], old(memory[..]), At(), firstRow, last, rendered, rows, ops);
      }
    }

    /** The renderer's row loop on a view that is host memory. */
    method WriteDirectly(first: nat, last: nat, rows: seq<seq<Float32>>, ops: Arithmetic)
      requires Valid() && view.store.Host? && Renderable(At(), rows) && last <= view.height
      modifies memory
      ensures Painted(memory[..], old(memory[..]), At(), first, last, rows, ops)
    {
      ghost var t, before := At(), memory[..];
      if first >= last {
        NothingPainted(before, t, first, last, rows, ops);
        return;
      }
      NothingPainted(before, t, first, first, rows, ops);
      hide Painted, BytesOfFloats, Overlaid;
      var y := first;
      while y < last
        invariant first <= y <= last
        invariant Painted(memory[..], before, t, first, y, rows, ops)
      {
        ghost var middle := memory[..];
        WriteViewRow(view, y, rows[y]);
        DirectRow(t, rows[y], ops);
        PaintedMore(memory[..], middle, before, t, first, y, rows, ops);
        y := y + 1;
      }
    }

    /** The renderer's row loop on scratch storage. */
    method WriteScratch(first: nat, last: nat, rows: seq<seq<Float32>>)
      requires Valid() && view.store.Scratch? && Renderable(At(), rows) && last <= view.height
      modifies storage
      ensures forall y :: first <= y < last ==> RowOf(view, y) == rows[y]
    {
      hide Overlaid, Item, RowsWithin;
      ghost var stride := 4 * view.width;
      var y := first;
      while y < last
        invariant first <= y
        invariant forall r :: first <= r < y && r < last ==> Item(storage[..], 0, stride, view.height, r) == rows[r]
      {
        ghost var middle := storage[..];
        WriteViewRow(view, y, rows[y]);
        OverlaidItem(storage[..], middle, stride, view.height, y, rows[y]);
        forall r | first <= r < y
          ensures Item(storage[..], 0, stride, view.height, r) == rows[r]
        {
          OtherItem(storage[..], middle, stride, view.height, y, rows[y], r);
        }
        y := y + 1;
      }
    }
  }

  /** A float row stored where it was loaded from, channel by channel. */
  method CopyOnItself(memory: array<Byte>, start: nat, n: nat)
    requires start + 4 * n <= memory.Length
    modifies memory
    ensures memory[..] == old(memory[..])
  {
    hide Load, Stored;
    var i := 0;
    while i < n
      invariant 0 <= i <= n
      invariant memory[..] == old(memory[..])
    {
      var bytes := memory[start + 4 * i..start + 4 * i + 4];
      StoredLoad(bytes, Single);
      StoreCell(memory, start + 4 * i, Load(bytes, Single), Single);
      i := i + 1;
    }
  }

  lemma {:induction false} DirectRow(t: Target, row: seq<Float32>, ops: Arithmetic)
    requires Converts(t.depth, t.components, t.width) && |row| == 4 * t.width && t.depth == Single &&
      t.components == RGBA
    ensures BytesOfFloats(row) == Encoded(t, row, ops)
  {
    hide BytesOfFloats, PackRow;
    DirectIsPacked(row, t.width, t.width, ops);
    assert row[..4 * t.width] == row;
  }

  lemma SamePainting(now: seq<Byte>, before: seq<Byte>, t: Target, first: nat, last: nat, rows: seq<seq<Float32>>,
                     rows': seq<seq<Float32>>, ops: Arithmetic)
    requires t.Fits(|before|) && Renderable(t, rows) && Renderable(t, rows') && last <= t.height
    requires Painted(now, before, t, first, last, rows, ops) && forall y :: first <= y < last ==> rows[y] == rows'[y]
    ensures Painted(now, before, t, first, last, rows', ops)
  {
    hide Encoded;
  }

  lemma OverlaidItem<T>(now: seq<T>, before: seq<T>, size: nat, n: nat, x: nat, row: seq<T>)
    requires x < n && n * size <= |now| && |row| == size && Overlaid(now, before, x * size, row)
    ensures Item(now, 0, size, n, x) == row
  {
    NextItem(x, n, size);
  }

  lemma OtherItem<T>(now: seq<T>, before: seq<T>, size: nat, n: nat, x: nat, row: seq<T>, r: nat)
    requires r < x < n && n * size <= |now| && |row| == size && Overlaid(now, before, x * size, row)
    ensures Item(now, 0, size, n, r) == Item(before, 0, size, n, r)
  {
    NextItem(r, x, size);
  }

  /** Zero copy refines the copy: the same rows rendered straight into host memory and through scratch
      storage, from equal bytes, leave equal bytes. */
  method ZeroCopyRefinesCopy(direct: HostDestinationImage, copying: HostDestinationImage, first: nat, count: nat,
                             rows: seq<seq<Float32>>, ops: Arithmetic)
    requires direct.Valid() && copying.Valid() && direct.view.store.Host? && copying.view.store.Scratch?
    requires direct.At() == copying.At() && direct.memory != copying.memory && direct.storage != copying.storage
    requires direct.memory[..] == copying.memory[..] && Renderable(direct.At(), rows)
    modifies direct.memory, direct.storage, copying.memory, copying.storage
    ensures direct.memory[..] == copying.memory[..]
  {
    hide Painted, RowsWithin;
    ghost var before := direct.memory[..];
    direct.RenderRows(first, count, rows, ops);
    ghost var painted := direct.memory[..];
    copying.RenderRows(first, count, rows, ops);
    PaintedOnce(painted, copying.memory[..], before, direct.At(), first, direct.LastRow(first, count), rows, ops);
  }
}
