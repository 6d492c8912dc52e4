/** Converting one row between a host's pixels and interleaved float RGBA. */
module PixelRows {
  import opened Arith
  import opened HalfFloat

  datatype Depth = UByte | UShort | Half | Single | UnknownDepth
  datatype Components = RGBA | RGB | Alpha | UnknownComponents

  type Byte = n: nat | n < 0x100

  /** One stored channel: an unsigned word for the byte, short and half depths, a float otherwise. */
  datatype Cell = Word(word: nat) | Float(value: Float32)

  predicate Holds(depth: Depth, cell: Cell) {
    match depth
    case UByte => cell.Word? && cell.word <= 255
    case UShort => cell.Word? && cell.word <= 65535
    case Half => cell.Word? && cell.word <= 65535
    case Single => cell.Float?
    case UnknownDepth => false
  }

  function ComponentCount(components: Components): nat {
    match components
    case RGBA => 4
    case RGB => 3
    case Alpha => 1
    case UnknownComponents => 0
  }

  // ----- Float arithmetic with rounding -----

  /** The float operations the integer scaling uses. */
  datatype Arithmetic = Arithmetic(mul: (Float32, Float32) -> Float32, div: (Float32, Float32) -> Float32,
                                   add: (Float32, Float32) -> Float32)

  function Real(f: Float32): real { Signed32(f) as real / Pow2(149) as real }

  predicate IsFinite(f: Float32) { f.exponent < 0xff }

  /** Within a relative error of 2^-24, and an absolute one of 2^-40 for results that underflow. */
  predicate Near(x: real, exact: real) { exact - Slack(exact) <= x <= exact + Slack(exact) }

  predicate Rounds(f: Float32, exact: real) { IsFinite(f) && Near(Real(f), exact) }

  function Slack(exact: real): real {
    (if exact < 0.0 then -exact else exact) / 16_777_216.0 + 1.0 / 1_099_511_627_776.0
  }

  predicate InRange(exact: real) { -1_048_576.0 <= exact <= 1_048_576.0 }

  /** Every operation on finite numbers, with a result up to 2^20, is rounded in any way that stays
      within the error bound. */
  ghost predicate Faithful(ops: Arithmetic) {
    forall a: Float32, b: Float32 :: IsFinite(a) && IsFinite(b) ==>
      && (InRange(Real(a) * Real(b)) ==> Rounds(ops.mul(a, b), Real(a) * Real(b)))
      && (InRange(Real(a) + Real(b)) ==> Rounds(ops.add(a, b), Real(a) + Real(b)))
      && (Real(b) > 0.0 && InRange(Real(a) / Real(b)) ==> Rounds(ops.div(a, b), Real(a) / Real(b)))
  }

  function FloatOf(n: nat): Float32
    requires n < 0x100_0000
  {
    if n == 0 then ZERO else Exactly(0, n, 150)
  }

  const ZERO := Float32(0, 0, 0)
  const ONE := Float32(0, 127, 0)
  const ONE_HALF := Float32(0, 126, 0)

  // ----- Channel scaling -----

  /** `fromUnsignedByte` for `top` 255, `fromUnsignedShort` for `top` 65535. */
  function FromUnsigned(word: nat, top: nat, ops: Arithmetic): Float32
    requires word <= top < 0x100_0000
  {
    ops.mul(FloatOf(word), ops.div(ONE, FloatOf(top)))
  }

  /** `toUnsignedByte` and `toUnsignedShort`; the comparisons are false of a NaN. */
  function ToUnsigned(f: Float32, top: nat, ops: Arithmetic): nat
    requires top < 0x100_0000
  {
    if IsNaN32(f) || Real(f) <= 0.0 then 0
    else if Real(f) >= 1.0 then top
    else Truncated(ops.add(ops.mul(f, FloatOf(top)), ONE_HALF), top)
  }

  /** The cast of a float to an unsigned type is defined only in range; `CastIsDefined` shows it is. */
  function Truncated(f: Float32, top: nat): nat {
    if 0 <= Real(f).Floor <= top then Real(f).Floor else 0
  }

  function ReadCell(depth: Depth, cell: Cell, ops: Arithmetic): Float32
    requires Holds(depth, cell)
  {
    match depth
    case UByte => FromUnsigned(cell.word, 255, ops)
    case UShort => FromUnsigned(cell.word, 65535, ops)
    case Half => HalfToFloat(cell.word)
    case Single => cell.value
  }

  function WriteCell(depth: Depth, f: Float32, ops: Arithmetic): (r: Cell)
    requires depth != UnknownDepth
    ensures Holds(depth, r)
  {
    match depth
    case UByte => Word(ToUnsigned(f, 255, ops))
    case UShort => Word(ToUnsigned(f, 65535, ops))
    case Half => Word(FloatToHalf(f))
    case Single => Float(f)
  }

  // ----- Bytes -----

  /** Bytes of one stored channel. */
  function Size(depth: Depth): nat {
    match depth
    case UByte => 1
    case UShort => 2
    case Half => 2
    case Single => 4
    case UnknownDepth => 0
  }

  /** `hostPixelBytes`: zero for a layout that cannot be handled. */
  function PixelBytes(depth: Depth, components: Components): nat { ChannelBytes(depth, ComponentCount(components)) }

  function ChannelBytes(depth: Depth, channels: nat): nat {
    match depth
    case UByte => channels
    case UShort => 2 * channels
    case Half => 2 * channels
    case Single => 4 * channels
    case UnknownDepth => 0
  }

  /** Words and floats are stored low byte first. */
  function Load(bytes: seq<Byte>, depth: Depth): (r: Cell)
    requires depth != UnknownDepth && |bytes| == Size(depth)
    ensures Holds(depth, r)
  {
    match depth
    case UByte => Word(bytes[0])
    case UShort => Word(Joined(bytes[0], bytes[1]))
    case Half => Word(Joined(bytes[0], bytes[1]))
    case Single => Float(FloatOfBytes(bytes[0], bytes[1], bytes[2], bytes[3]))
  }

  function Joined(low: int, high: int): int { low + 0x100 * high }

  function FloatOfBytes(b0: nat, b1: nat, b2: nat, b3: nat): Float32
    requires b0 < 0x100 && b1 < 0x100 && b2 < 0x100 && b3 < 0x100
  {
    Float32(b3 / 0x80, b3 % 0x80 * 2 + b2 / 0x80, b0 + 0x100 * b1 + 0x1_0000 * (b2 % 0x80))
  }

  function FloatBytes(f: Float32): seq<Byte> {
    [f.mantissa % 0x100, f.mantissa / 0x100 % 0x100, f.mantissa / 0x1_0000 + 0x80 * (f.exponent % 2),
      f.exponent / 2 + 0x80 * f.sign]
  }

  function Stored(cell: Cell, depth: Depth): (r: seq<Byte>)
    requires Holds(depth, cell)
    ensures |r| == Size(depth)
  {
    match depth
    case UByte => [cell.word]
    case UShort => [cell.word % 0x100, cell.word / 0x100]
    case Half => [cell.word % 0x100, cell.word / 0x100]
    case Single => FloatBytes(cell.value)
  }

  lemma StoredLoad(bytes: seq<Byte>, depth: Depth)
    requires depth != UnknownDepth && |bytes| == Size(depth)
    ensures Stored(Load(bytes, depth), depth) == bytes
  {
    hide FloatOfBytes, FloatBytes;
    if depth == Single { BytesOfFloat(bytes[0], bytes[1], bytes[2], bytes[3]); }
  }

  lemma LoadStored(cell: Cell, depth: Depth)
    requires depth != UnknownDepth && Holds(depth, cell)
    ensures Load(Stored(cell, depth), depth) == cell
  {
    hide FloatOfBytes, FloatBytes;
    if depth == Single { FloatOfItsBytes(cell.value); }
  }

  lemma FloatOfItsBytes(f: Float32)
    ensures var b := FloatBytes(f); FloatOfBytes(b[0], b[1], b[2], b[3]) == f
  {
    var m, e := f.mantissa, f.exponent;
    DivMod(e / 2 + 0x80 * f.sign, 0x80, f.sign, e / 2);
    DivMod(m / 0x1_0000 + 0x80 * (e % 2), 0x80, e % 2, m / 0x1_0000);
    assert m / 0x1_0000 == m / 0x100 / 0x100;
  }

  /** Words and floats are laid out low byte first: the bytes spell the bit pattern in base 256. */
  lemma {:induction false} LowByteFirst(bytes: seq<Byte>, depth: Depth)
    requires depth != UnknownDepth && |bytes| == Size(depth)
    ensures Pattern(Load(bytes, depth), depth) == Spelled(bytes)
  {
    if depth == Single {
      var b2, b3 := bytes[2], bytes[3];
      ExponentBits(b2, b3);
      SpelledFour(bytes);
    } else {
      SpelledTwo(bytes);
    }
  }

  lemma {:induction false} SpelledTwo(bytes: seq<Byte>)
    ensures |bytes| == 1 ==> Spelled(bytes) == bytes[0]
    ensures |bytes| == 2 ==> Spelled(bytes) == Joined(bytes[0], bytes[1])
  {
    if |bytes| == 2 { SpelledTwo(bytes[1..]); }
  }

  lemma {:induction false} SpelledFour(bytes: seq<Byte>)
    requires |bytes| == 4
    ensures Spelled(bytes) == Joined(bytes[0], Joined(bytes[1], Joined(bytes[2], bytes[3])))
  {
    assert bytes[1..][1..] == bytes[2..];
    SpelledTwo(bytes[2..]);
  }

  /** Sign, exponent and mantissa side by side, or the word itself. */
  function Pattern(cell: Cell, depth: Depth): nat
    requires Holds(depth, cell)
  {
    if depth == Single then cell.value.sign * 0x8000_0000 + cell.value.exponent * 0x80_0000 + cell.value.mantissa
    else cell.word
  }

  function Spelled(bytes: seq<Byte>): nat {
    if bytes == [] then 0 else bytes[0] + 0x100 * Spelled(bytes[1..])
  }

  lemma BytesOfFloat(b0: nat, b1: nat, b2: nat, b3: nat)
    requires b0 < 0x100 && b1 < 0x100 && b2 < 0x100 && b3 < 0x100
    ensures FloatBytes(FloatOfBytes(b0, b1, b2, b3)) == [b0, b1, b2, b3]
  {
    var f := FloatOfBytes(b0, b1, b2, b3);
    MantissaBytes(b0, b1, b2 % 0x80);
    ExponentBits(b2, b3);
    BytesOfFields(f, b0, b1, b2, b3);
  }

  lemma BytesOfFields(f: Float32, b0: nat, b1: nat, b2: nat, b3: nat)
    requires f.mantissa % 0x100 == b0 < 0x100 && f.mantissa / 0x100 % 0x100 == b1 < 0x100
    requires f.mantissa / 0x1_0000 + 0x80 * (f.exponent % 2) == b2 < 0x100
    requires f.exponent / 2 + 0x80 * f.sign == b3 < 0x100
    ensures FloatBytes(f) == [b0, b1, b2, b3]
  {
  }

  lemma MantissaBytes(b0: nat, b1: nat, low: nat)
    requires b0 < 0x100 && b1 < 0x100
    ensures var m := b0 + 0x100 * b1 + 0x1_0000 * low;
      m % 0x100 == b0 && m / 0x100 % 0x100 == b1 && m / 0x1_0000 == low
  {
    var m := b0 + 0x100 * b1 + 0x1_0000 * low;
    DivMod(m, 0x100, b1 + 0x100 * low, b0);
    DivMod(b1 + 0x100 * low, 0x100, low, b1);
    DivMod(m, 0x1_0000, low, b0 + 0x100 * b1);
  }

  lemma ExponentBits(b2: nat, b3: nat)
    requires b2 < 0x100
    ensures var e := b3 % 0x80 * 2 + b2 / 0x80; e % 2 == b2 / 0x80 && e / 2 == b3 % 0x80
    ensures b2 == b2 % 0x80 + 0x80 * (b2 / 0x80) && b3 == b3 % 0x80 + 0x80 * (b3 / 0x80)
  {
    DivMod(b3 % 0x80 * 2 + b2 / 0x80, 2, b3 % 0x80, b2 / 0x80);
  }

  /** Quotient and remainder, told from their defining equation. */
  lemma DivMod(n: nat, d: nat, q: nat, r: nat)
    requires n == q * d + r && r < d
    ensures n / d == q && n % d == r
  {
    var p := n / d;
    assert n == p * d + n % d;
    if p < q { Grows(p + 1, q, d); } else if q < p { Grows(q + 1, p, d); }
  }

  ghost predicate HoldsRow(depth: Depth, cells: seq<Cell>) {
    forall k :: 0 <= k < |cells| ==> Holds(depth, cells[k])
  }

  /** The channels of one stored pixel. */
  ghost function CellsOf(bytes: seq<Byte>, depth: Depth, channels: nat): (r: seq<Cell>)
    requires depth != UnknownDepth && |bytes| == ChannelBytes(depth, channels)
    ensures |r| == channels && HoldsRow(depth, r)
  {
    if channels == 0 then []
    else
      var rest := ChannelBytes(depth, channels - 1);
      FewerChannels(depth, channels);
      CellsOf(bytes[..rest], depth, channels - 1) + [Load(bytes[rest..], depth)]
  }

  lemma FewerChannels(depth: Depth, channels: nat)
    requires channels > 0
    ensures ChannelBytes(depth, channels) == ChannelBytes(depth, channels - 1) + Size(depth)
  {
  }

  ghost function BytesOf(cells: seq<Cell>, depth: Depth): (r: seq<Byte>)
    requires HoldsRow(depth, cells)
    ensures |r| == ChannelBytes(depth, |cells|)
  {
    if cells == [] then []
    else
      FewerChannels(depth, |cells|);
      BytesOf(cells[..|cells| - 1], depth) + Stored(cells[|cells| - 1], depth)
  }

  lemma SliceOfPrefix<T>(s: seq<T>, n: nat, i: nat, j: nat)
    requires i <= j <= n <= |s|
    ensures s[..n][i..j] == s[i..j]
  {
  }

  lemma {:induction false} CellAt(bytes: seq<Byte>, depth: Depth, channels: nat, c: nat)
    requires depth != UnknownDepth && |bytes| == ChannelBytes(depth, channels) && c < channels
    ensures ChannelBytes(depth, c) + Size(depth) <= |bytes|
    ensures CellsOf(bytes, depth, channels)[c]
      == Load(bytes[ChannelBytes(depth, c)..ChannelBytes(depth, c) + Size(depth)], depth)
    decreases channels
  {
    hide ChannelBytes, Load;
    FewerChannels(depth, channels);
    var rest := ChannelBytes(depth, channels - 1);
    if c < channels - 1 {
      CellAt(bytes[..rest], depth, channels - 1, c);
      SliceOfPrefix(bytes, rest, ChannelBytes(depth, c), ChannelBytes(depth, c) + Size(depth));
    } else {
      assert bytes[rest..rest + Size(depth)] == bytes[rest..];
    }
  }

  lemma {:induction false} CellsNext(front: seq<Byte>, last: seq<Byte>, depth: Depth, n: nat)
    requires depth != UnknownDepth && |front| == ChannelBytes(depth, n) && |last| == Size(depth)
    ensures |front + last| == ChannelBytes(depth, n + 1)
    ensures CellsOf(front + last, depth, n + 1) == CellsOf(front, depth, n) + [Load(last, depth)]
  {
    hide ChannelBytes, Load;
    FewerChannels(depth, n + 1);
    assert (front + last)[..|front|] == front && (front + last)[|front|..] == last;
  }

  lemma {:induction false} BytesNext(cells: seq<Cell>, last: Cell, depth: Depth)
    requires HoldsRow(depth, cells) && Holds(depth, last)
    ensures HoldsRow(depth, cells + [last])
    ensures BytesOf(cells + [last], depth) == BytesOf(cells, depth) + Stored(last, depth)
  {
    hide Stored;
    assert (cells + [last])[..|cells|] == cells;
  }

  lemma OneMoreCell(front: seq<Byte>, last: seq<Byte>, depth: Depth, n: nat)
    requires depth != UnknownDepth && |front| == ChannelBytes(depth, n) && |last| == Size(depth)
    requires BytesOf(CellsOf(front, depth, n), depth) == front
    ensures |front + last| == ChannelBytes(depth, n + 1)
    ensures BytesOf(CellsOf(front + last, depth, n + 1), depth) == front + last
  {
    hide ChannelBytes, Load, Stored, CellsOf, BytesOf, Size;
    CellsNext(front, last, depth, n);
    BytesNext(CellsOf(front, depth, n), Load(last, depth), depth);
    StoredLoad(last, depth);
  }

  lemma {:induction false} NoMoreCells(bytes: seq<Byte>, depth: Depth)
    requires depth != UnknownDepth && |bytes| == ChannelBytes(depth, 0)
    ensures BytesOf(CellsOf(bytes, depth, 0), depth) == bytes
  {
    NoBytes(depth);
  }

  lemma {:induction false} BytesOfCells(bytes: seq<Byte>, depth: Depth, channels: nat)
    requires depth != UnknownDepth && |bytes| == ChannelBytes(depth, channels)
    ensures BytesOf(CellsOf(bytes, depth, channels), depth) == bytes
    decreases channels
  {
    hide ChannelBytes, CellsOf, BytesOf, Size;
    if channels == 0 {
      NoMoreCells(bytes, depth);
    } else {
      FewerChannels(depth, channels);
      var rest := ChannelBytes(depth, channels - 1);
      var front, last := bytes[..rest], bytes[rest..];
      BytesOfCells(front, depth, channels - 1);
      OneMoreCell(front, last, depth, channels - 1);
      assert bytes == front + last;
    }
  }

  lemma NoBytes(depth: Depth)
    ensures ChannelBytes(depth, 0) == 0
  {
  }

  // ----- Rows as sequences -----

  /** One pixel as float RGBA: colour is black where the host has none, and alpha is opaque. */
  ghost function ExpandPixel(pixel: seq<Cell>, depth: Depth, ops: Arithmetic): (r: seq<Float32>)
    requires |pixel| in {1, 3, 4} && HoldsRow(depth, pixel)
    ensures |r| == 4
  {
    if |pixel| == 1 then [ZERO, ZERO, ZERO, ReadCell(depth, pixel[0], ops)]
    else
      [ReadCell(depth, pixel[0], ops), ReadCell(depth, pixel[1], ops), ReadCell(depth, pixel[2], ops),
       if |pixel| == 4 then ReadCell(depth, pixel[3], ops) else ONE]
  }

  /** The channels the host keeps of one RGBA pixel; an alpha-only host keeps channel 3. */
  ghost function PackPixel(rgba: seq<Float32>, channels: nat, depth: Depth, ops: Arithmetic): (r: seq<Cell>)
    requires |rgba| == 4 && channels in {1, 3, 4} && depth != UnknownDepth
    ensures |r| == channels && HoldsRow(depth, r)
  {
    if channels == 1 then [WriteCell(depth, rgba[3], ops)]
    else
      [WriteCell(depth, rgba[0], ops), WriteCell(depth, rgba[1], ops), WriteCell(depth, rgba[2], ops)]
      + if channels == 4 then [WriteCell(depth, rgba[3], ops)] else []
  }

  /** Item `x` of `n` items of `size` elements that start at `from`. */
  ghost function Item<T>(buffer: seq<T>, from: nat, size: nat, n: nat, x: nat): (r: seq<T>)
    requires x < n && from + n * size <= |buffer|
    ensures |r| == size
    ensures from + x * size + size <= from + n * size
    ensures forall c :: 0 <= c < size ==> r[c] == buffer[from + x * size + c]
  {
    NextItem(x, n, size);
    buffer[from + x * size..from + x * size + size]
  }

  lemma NextItem(x: nat, n: nat, size: nat)
    requires x < n
    ensures (x + 1) * size == x * size + size <= n * size
  {
    Grows(x + 1, n, size);
  }

  /** Stored pixel `x` of `n`, as float RGBA. */
  ghost function ExpandItem(memory: seq<Byte>, from: nat, channels: nat, n: nat, x: nat, depth: Depth,
                            ops: Arithmetic): (r: seq<Float32>)
    requires channels in {1, 3, 4} && depth != UnknownDepth && x < n &&
      from + n * ChannelBytes(depth, channels) <= |memory|
    ensures |r| == 4
  {
    ExpandPixel(CellsOf(Item(memory, from, ChannelBytes(depth, channels), n, x), depth, channels), depth, ops)
  }

  /** The first `m` of `n` stored pixels as float RGBA. */
  ghost function ExpandRow(memory: seq<Byte>, from: nat, channels: nat, n: nat, m: nat, depth: Depth,
                           ops: Arithmetic): (r: seq<Float32>)
    requires channels in {1, 3, 4} && depth != UnknownDepth && m <= n &&
      from + n * ChannelBytes(depth, channels) <= |memory|
    ensures |r| == 4 * m
  {
    if m == 0 then []
    else
      ExpandRow(memory, from, channels, n, m - 1, depth, ops) + ExpandItem(memory, from, channels, n, m - 1, depth, ops)
  }

  /** Float RGBA pixel `x` of `n`, as the host stores it. */
  ghost function PackItem(rgba: seq<Float32>, at: nat, channels: nat, n: nat, x: nat, depth: Depth,
                          ops: Arithmetic): (r: seq<Byte>)
    requires x < n && at + n * 4 <= |rgba| && channels in {1, 3, 4} && depth != UnknownDepth
    ensures |r| == ChannelBytes(depth, channels)
  {
    BytesOf(PackPixel(Item(rgba, at, 4, n, x), channels, depth, ops), depth)
  }

  /** The first `m` of `n` float RGBA pixels as the host stores them. */
  ghost function PackRow(rgba: seq<Float32>, at: nat, channels: nat, n: nat, m: nat, depth: Depth,
                         ops: Arithmetic): (r: seq<Byte>)
    requires m <= n && at + n * 4 <= |rgba| && channels in {1, 3, 4} && depth != UnknownDepth
    ensures |r| == m * ChannelBytes(depth, channels)
  {
    if m == 0 then []
    else
      NextItem(m - 1, m, ChannelBytes(depth, channels));
      PackRow(rgba, at, channels, n, m - 1, depth, ops) + PackItem(rgba, at, channels, n, m - 1, depth, ops)
  }

  // ----- Rows in place -----

  predicate Converts(depth: Depth, components: Components, pixelCount: int) {
    ComponentCount(components) != 0 && pixelCount > 0 && depth != UnknownDepth
  }

  /** `now` is `before` with `row` laid over it from `at` on. */
  ghost predicate Overlaid<T>(now: seq<T>, before: seq<T>, at: nat, row: seq<T>) {
    && |now| == |before| && at + |row| <= |now|
    && forall k :: 0 <= k < |now| ==> now[k] == if at <= k < at + |row| then row[k - at] else before[k]
  }

  lemma OverlaidRow<T>(now: seq<T>, before: seq<T>, at: nat, row: seq<T>)
    requires Overlaid(now, before, at, row)
    ensures now[at..at + |row|] == row && now[..at] == before[..at] && now[at + |row|..] == before[at + |row|..]
  {
  }

  lemma OverlayMore<T>(now: seq<T>, middle: seq<T>, before: seq<T>, at: nat, row: seq<T>, more: seq<T>)
    requires Overlaid(middle, before, at, row) && Overlaid(now, middle, at + |row|, more)
    ensures Overlaid(now, before, at, row + more)
  {
  }

  lemma NothingOverlaid<T>(s: seq<T>, at: nat)
    requires at <= |s|
    ensures Overlaid(s, s, at, [])
  {
  }

  /** `readHostRow`: the row starts at `from` in host memory and at `at` in the float buffer. An unknown
      layout or an empty row changes nothing, and nothing outside the row ever changes. */
  method ReadHostRow(source: array<Byte>, from: nat, depth: Depth, components: Components, pixelCount: int,
                     rgba: array<Float32>, at: nat, ops: Arithmetic)
    requires Converts(depth, components, pixelCount) ==>
      from + pixelCount * PixelBytes(depth, components) <= source.Length && at + 4 * pixelCount <= rgba.Length
    modifies rgba
    ensures !Converts(depth, components, pixelCount) ==> rgba[..] == old(rgba[..])
    ensures Converts(depth, components, pixelCount) ==>
      Overlaid(rgba[..], old(rgba[..]), at, ExpandRow(source[..], from, ComponentCount(components), pixelCount,
                                                      pixelCount, depth, ops))
  {
    hide Overlaid, ChannelBytes, ExpandItem;
    var channels := ComponentCount(components);
    if channels == 0 || pixelCount <= 0 || depth == UnknownDepth { return; }
    ghost var memory, before := source[..], rgba[..];
    NothingOverlaid(before, at);
    var step := ChannelBytes(depth, channels);
    var i, x := from, 0;
    while x < pixelCount
      invariant 0 <= x <= pixelCount && i == from + x * step
      invariant Overlaid(rgba[..], before, at, ExpandRow(memory, from, channels, pixelCount, x, depth, ops))
    {
      NextItem(x, pixelCount, step);
      ghost var middle := rgba[..];
      ReadPixel(source, from, i, x, pixelCount, channels, depth, rgba, at + 4 * x, ops);
      OverlayMore(rgba[..], middle, before, at, ExpandRow(memory, from, channels, pixelCount, x, depth, ops),
                  ExpandItem(memory, from, channels, pixelCount, x, depth, ops));
      i, x := i + step, x + 1;
    }
  }

  /** One turn of the reading loop: pixel `x`, at byte `i`. */
  method ReadPixel(source: array<Byte>, ghost from: nat, i: nat, ghost x: nat, ghost n: nat, channels: nat,
                   depth: Depth,
                   rgba: array<Float32>, out: nat, ops: Arithmetic)
    requires channels in {1, 3, 4} && depth != UnknownDepth && out + 4 <= rgba.Length
    requires x < n && from + n * ChannelBytes(depth, channels) <= source.Length &&
      i == from + x * ChannelBytes(depth, channels)
    modifies rgba
    ensures Overlaid(rgba[..], old(rgba[..]), out, ExpandItem(source[..], from, channels, n, x, depth, ops))
  {
    hide ReadCell, Holds, ChannelBytes, Load, CellsOf;
    NextItem(x, n, ChannelBytes(depth, channels));
    ghost var pixel := Item(source[..], from, ChannelBytes(depth, channels), n, x);
    ghost var cells := CellsOf(pixel, depth, channels);
    var first := ReadChannel(source, i, pixel, 0, channels, depth, ops);
    if channels == 1 {
      rgba[out], rgba[out + 1], rgba[out + 2] := ZERO, ZERO, ZERO;
      rgba[out + 3] := first;
    } else {
      var second := ReadChannel(source, i, pixel, 1, channels, depth, ops);
      var third := ReadChannel(source, i, pixel, 2, channels, depth, ops);
      var alpha := ONE;
      if channels == 4 { alpha := ReadChannel(source, i, pixel, 3, channels, depth, ops); }
      rgba[out] := first;
      rgba[out + 1] := second;
      rgba[out + 2] := third;
      rgba[out + 3] := alpha;
    }
  }

  /** `readChannel`, and its half-float counterpart */
  method ReadChannel(source: array<Byte>, i: nat, ghost pixel: seq<Byte>, c: nat, channels: nat, depth: Depth,
                     ops: Arithmetic)
    returns (value: Float32)
    requires depth != UnknownDepth && c < channels && |pixel| == ChannelBytes(depth, channels)
    requires i + |pixel| <= source.Length && pixel == source[i..i + |pixel|]
    ensures value == ReadCell(depth, CellsOf(pixel, depth, channels)[c], ops)
  {
    hide ChannelBytes, Load, CellsOf, ReadCell;
    CellAt(pixel, depth, channels, c);
    var start, size := i + ChannelBytes(depth, c), Size(depth);
    ghost var within := ChannelBytes(depth, c);
    SliceOfArray(source, i, |pixel|, within, within + size);
    return ReadCell(depth, Load(source[start..start + size], depth), ops);
  }

  lemma SliceOfArray<T>(a: array<T>, i: nat, n: nat, j: nat, k: nat)
    requires i + n <= a.Length && j <= k <= n
    ensures a[i..i + n][j..k] == a[i + j..i + k]
  {
    var s, t := a[i..i + n][j..k], a[i + j..i + k];
    assert forall c :: 0 <= c < k - j ==> s[c] == t[c];
  }

  /** `writeHostRow`, the other way about. */
  method WriteHostRow(rgba: array<Float32>, at: nat, pixelCount: int, depth: Depth, components: Components,
                      destination: array<Byte>, start: nat, ops: Arithmetic)
    requires Converts(depth, components, pixelCount) ==>
      at + pixelCount * 4 <= rgba.Length && start + pixelCount * PixelBytes(depth, components) <= destination.Length
    modifies destination
    ensures !Converts(depth, components, pixelCount) ==> destination[..] == old(destination[..])
    ensures Converts(depth, components, pixelCount) ==>
      Overlaid(destination[..], old(destination[..]), start,
               PackRow(rgba[..], at, ComponentCount(components), pixelCount, pixelCount, depth, ops))
  {
    hide Overlaid, ChannelBytes, PackItem, PackRow;
    var channels := ComponentCount(components);
    if channels == 0 || pixelCount <= 0 || depth == UnknownDepth { return; }
    ghost var row, before := rgba[..], destination[..];
    var step := ChannelBytes(depth, channels);
    PackNothing(row, at, channels, pixelCount, depth, ops);
    NothingOverlaid(before, start);
    var out, x := start, 0;
    while x < pixelCount
      invariant 0 <= x <= pixelCount && out == start + x * step
      invariant Overlaid(destination[..], before, start, PackRow(row, at, channels, pixelCount, x, depth, ops))
    {
      NextItem(x, pixelCount, step);
      PackNext(row, at, channels, pixelCount, x, depth, ops);
      ghost var middle := destination[..];
      WritePixel(rgba, at, x, pixelCount, channels, depth, destination, out, ops);
      OverlayMore(destination[..], middle, before, start, PackRow(row, at, channels, pixelCount, x, depth, ops),
                  PackItem(row, at, channels, pixelCount, x, depth, ops));
      out, x := out + step, x + 1;
    }
  }

  lemma {:induction false} PackNothing(rgba: seq<Float32>, at: nat, channels: nat, n: nat, depth: Depth,
                                       ops: Arithmetic)
    requires at + n * 4 <= |rgba| && channels in {1, 3, 4} && depth != UnknownDepth
    ensures PackRow(rgba, at, channels, n, 0, depth, ops) == []
  {
  }

  lemma PackNext(rgba: seq<Float32>, at: nat, channels: nat, n: nat, x: nat, depth: Depth, ops: Arithmetic)
    requires x < n && at + n * 4 <= |rgba| && channels in {1, 3, 4} && depth != UnknownDepth
    ensures PackRow(rgba, at, channels, n, x + 1, depth, ops)
         == PackRow(rgba, at, channels, n, x, depth, ops) + PackItem(rgba, at, channels, n, x, depth, ops)
  {
  }

  /** One turn of the writing loop: pixel `x`, to byte `out`. */
  method WritePixel(rgba: array<Float32>, at: nat, x: nat, n: nat, channels: nat, depth: Depth,
                    destination: array<Byte>, out: nat, ops: Arithmetic)
    requires channels in {1, 3, 4} && depth != UnknownDepth && x < n && at + n * 4 <= rgba.Length
    requires out + ChannelBytes(depth, channels) <= destination.Length
    modifies destination
    ensures Overlaid(destination[..], old(destination[..]), out, PackItem(rgba[..], at, channels, n, x, depth, ops))
  {
    hide WriteCell, Overlaid, ChannelBytes, Stored, Size, PackPixel, Holds, BytesOf, Item;
    var first, i := if channels == 1 then 3 else 0, at + x * 4;
    NextItem(x, n, 4);
    ghost var before, pixel := destination[..], Item(rgba[..], at, 4, n, x);
    ghost var packed := PackPixel(pixel, channels, depth, ops);
    assert BytesOf(packed[..0], depth) == [] by { NoCells(depth); assert packed[..0] == []; }
    NothingOverlaid(before, out);
    var c, address := 0, out;
    while c < channels
      invariant 0 <= c <= channels && address == out + |BytesOf(packed[..c], depth)|
      invariant Overlaid(destination[..], before, out, BytesOf(packed[..c], depth))
    {
      FewerCells(packed, c, depth);
      PackedAt(pixel, channels, depth, c, ops);
      ghost var middle := destination[..];
      var cell := WriteCell(depth, rgba[i + first + c], ops);
      StoreCell(destination, address, cell, depth);
      OverlayMore(destination[..], middle, before, out, BytesOf(packed[..c], depth), Stored(cell, depth));
      address, c := address + Size(depth), c + 1;
    }
    assert packed[..channels] == packed;
  }

  lemma PackedAt(rgba: seq<Float32>, channels: nat, depth: Depth, c: nat, ops: Arithmetic)
    requires |rgba| == 4 && channels in {1, 3, 4} && depth != UnknownDepth && c < channels
    ensures PackPixel(rgba, channels, depth, ops)[c]
      == WriteCell(depth, rgba[(if channels == 1 then 3 else 0) + c], ops)
  {
    hide WriteCell;
  }

  lemma {:induction false} NoCells(depth: Depth)
    ensures BytesOf([], depth) == []
  {
  }

  lemma {:induction false} FewerCells(cells: seq<Cell>, c: nat, depth: Depth)
    requires c < |cells| && HoldsRow(depth, cells)
    ensures BytesOf(cells[..c + 1], depth) == BytesOf(cells[..c], depth) + Stored(cells[c], depth)
    ensures |BytesOf(cells[..c], depth)| + Size(depth) <= ChannelBytes(depth, |cells|)
  {
    assert cells[..c + 1][..c] == cells[..c];
  }

  method StoreCell(destination: array<Byte>, address: nat, cell: Cell, depth: Depth)
    requires Holds(depth, cell) && address + Size(depth) <= destination.Length
    modifies destination
    ensures Overlaid(destination[..], old(destination[..]), address, Stored(cell, depth))
  {
    var bytes := Stored(cell, depth);
    hide Stored;
    var k := 0;
    while k < |bytes|
      invariant 0 <= k <= |bytes|
      invariant Overlaid(destination[..], old(destination[..]), address, bytes[..k])
    {
      destination[address + k] := bytes[k];
      k := k + 1;
    }
    assert bytes[..k] == bytes;
  }

  // ----- Integer depths survive the float -----

  lemma ExactReal(n: nat)
    requires n < 0x100_0000
    ensures IsFinite(FloatOf(n)) && Real(FloatOf(n)) == n as real
  {
    hide Pow2, Exactly;
    if n > 0 {
      ExactValue(0, n, 150);
      Ratio(n, Pow2(149));
    }
  }

  lemma Ratio(n: nat, d: nat)
    requires d > 0
    ensures (n * d) as real / d as real == n as real
  {
    assert (n * d) as real == n as real * d as real;
  }

  lemma Constants()
    ensures IsFinite(ONE) && Real(ONE) == 1.0 && IsFinite(ONE_HALF) && Real(ONE_HALF) == 0.5
  {
    hide Pow2;
    SmallPowers();
    Pow2Add(23, 126);
    Pow2Add(23, 125);
    Pow2Double(149);
    Ratio(1, Pow2(149));
    Halved(Pow2(148));
  }

  lemma Halved(d: nat)
    requires d > 0
    ensures d as real / (2 * d) as real == 0.5
  {
    assert (2 * d) as real == 2.0 * d as real;
  }

  /** The scaled-down value, times `top`, is still close to the integer. */
  lemma ScaledDown(n: real, top: real, c: real, p: real)
    requires (top == 255.0 || top == 65535.0) && 0.0 <= n <= top && Near(c, 1.0 / top) && p == n * c
    ensures n - 0.01 <= p * top <= n + 0.01 && 0.0 <= p <= 1.01
  {
    if top == 255.0 {
      ByteProduct(n, c, p);
    } else {
      ShortProduct(n, c, p);
    }
  }

  lemma Between(n: real, c: real, p: real, lo: real, hi: real)
    requires n >= 0.0 && lo <= c <= hi && p == n * c
    ensures n * lo <= p <= n * hi
  {
  }

  lemma ByteProduct(n: real, c: real, p: real)
    requires n >= 0.0 && Near(c, 1.0 / 255.0) && p == n * c
    ensures n * 0.00392156838 <= p <= n * 0.00392156887
  {
    Between(n, c, p, 0.00392156838, 0.00392156887);
  }

  lemma ShortProduct(n: real, c: real, p: real)
    requires n >= 0.0 && Near(c, 1.0 / 65535.0) && p == n * c
    ensures n * 0.00001525902 <= p <= n * 0.0000152590238
  {
    Between(n, c, p, 0.00001525902, 0.0000152590238);
  }

  lemma ScaledDownOnce(n: real, top: real, p: real, f: real)
    requires (top == 255.0 || top == 65535.0) && 0.0 <= n <= top && n - 0.01 <= p * top <= n + 0.01 &&
      0.0 <= p <= 1.01 && Near(f, p)
    ensures n - 0.02 <= f * top <= n + 0.02 && (n >= 1.0 ==> f > 0.0) && (n <= top - 1.0 ==> f < 1.0)
  {
  }

  /** Scaling up, adding a half and truncating recovers an integer that is at most 0.02 away. */
  lemma ScaledUp(n: real, top: real, q: real, g: real, s: real)
    requires (top == 255.0 || top == 65535.0) && 0.0 <= n <= top && n - 0.02 <= q <= n + 0.02 && Near(g, q) &&
      Near(s, g + 0.5)
    ensures n <= s < n + 1.0
  {
  }

  /** A byte or short that is read and written back is the same byte or short, however the four
      operations round within the bound. */
  lemma IntegerRoundTrip(word: nat, top: nat, ops: Arithmetic)
    requires (top == 255 || top == 65535) && word <= top && Faithful(ops)
    ensures ToUnsigned(FromUnsigned(word, top, ops), top, ops) == word
  {
    hide Real, FloatOf, Faithful, Slack;
    ExactReal(word);
    ExactReal(top);
    Constants();
    var n, t, unit := word as real, top as real, ops.div(ONE, FloatOf(top));
    var f := ops.mul(FloatOf(word), unit);
    Divided(ops, ONE, FloatOf(top), 1.0 / t);
    var p := n * Real(unit);
    ScaledDown(n, t, Real(unit), p);
    Multiplied(ops, FloatOf(word), unit, p);
    ScaledDownOnce(n, t, p, Real(f));
    if 0.0 < Real(f) < 1.0 {
      ScaleUp(f, top, ops);
      var g := ops.mul(f, FloatOf(top));
      ScaledUp(n, t, Real(f) * t, Real(g), Real(ops.add(g, ONE_HALF)));
    }
  }

  /** Scaling up any float strictly between 0 and 1 stays within the error bound. */
  lemma ScaleUp(f: Float32, top: nat, ops: Arithmetic)
    requires (top == 255 || top == 65535) && Faithful(ops) && IsFinite(f) && 0.0 < Real(f) < 1.0
    ensures var g := ops.mul(f, FloatOf(top));
      Near(Real(g), Real(f) * top as real) && Near(Real(ops.add(g, ONE_HALF)), Real(g) + 0.5)
  {
    hide Real, FloatOf, Faithful;
    ExactReal(top);
    Constants();
    var q := Real(f) * top as real;
    Multiplied(ops, f, FloatOf(top), q);
    var g := ops.mul(f, FloatOf(top));
    Added(ops, g, ONE_HALF, Real(g) + 0.5);
  }

  /** The cast at the end of a conversion is always in range, so it is defined. */
  lemma CastIsDefined(f: Float32, top: nat, ops: Arithmetic)
    requires (top == 255 || top == 65535) && Faithful(ops) && IsFinite(f) && 0.0 < Real(f) < 1.0
    ensures 0 <= Real(ops.add(ops.mul(f, FloatOf(top)), ONE_HALF)).Floor <= top
  {
    hide Real, FloatOf, Faithful;
    ScaleUp(f, top, ops);
    var q := Real(f) * top as real;
    assert 0.0 <= q <= top as real;
  }

  // The three operations, one instance at a time.

  lemma Divided(ops: Arithmetic, a: Float32, b: Float32, q: real)
    requires Faithful(ops) && IsFinite(a) && IsFinite(b) && Real(b) > 0.0 && q == Real(a) / Real(b) && InRange(q)
    ensures IsFinite(ops.div(a, b)) && Near(Real(ops.div(a, b)), q)
  {
  }

  lemma Multiplied(ops: Arithmetic, a: Float32, b: Float32, p: real)
    requires Faithful(ops) && IsFinite(a) && IsFinite(b) && p == Real(a) * Real(b) && InRange(p)
    ensures IsFinite(ops.mul(a, b)) && Near(Real(ops.mul(a, b)), p)
  {
  }

  lemma Added(ops: Arithmetic, a: Float32, b: Float32, p: real)
    requires Faithful(ops) && IsFinite(a) && IsFinite(b) && p == Real(a) + Real(b) && InRange(p)
    ensures IsFinite(ops.add(a, b)) && Near(Real(ops.add(a, b)), p)
  {
  }

  // ----- What the numbers mean -----

  /** A byte or short is read as its fraction of the largest one. */
  lemma ReadAsFraction(word: nat, top: nat, ops: Arithmetic)
    requires (top == 255 || top == 65535) && word <= top && Faithful(ops)
    ensures var f := FromUnsigned(word, top, ops);
      IsFinite(f) && word as real - 0.02 <= Real(f) * top as real <= word as real + 0.02
  {
    hide Real, FloatOf, Faithful, Slack;
    ExactReal(word);
    ExactReal(top);
    Constants();
    var n, t, unit := word as real, top as real, ops.div(ONE, FloatOf(top));
    var f := ops.mul(FloatOf(word), unit);
    Divided(ops, ONE, FloatOf(top), 1.0 / t);
    var p := n * Real(unit);
    ScaledDown(n, t, Real(unit), p);
    Multiplied(ops, FloatOf(word), unit, p);
    ScaledDownOnce(n, t, p, Real(f));
  }

  /** A float is written as the nearest byte or short, up to the rounding of the operations; anything from 1
      on as the largest, and anything up to 0, and a NaN, as 0. */
  lemma WrittenAsNearest(f: Float32, top: nat, ops: Arithmetic)
    requires (top == 255 || top == 65535) && Faithful(ops)
    ensures var r := ToUnsigned(f, top, ops);
      if IsNaN32(f) || Real(f) <= 0.0 then r == 0
      else if Real(f) >= 1.0 then r == top
      else IsFinite(f) ==> r as real - 0.52 <= Real(f) * top as real <= r as real + 0.52
  {
    hide Real, FloatOf, Faithful;
    if !IsNaN32(f) && IsFinite(f) && 0.0 < Real(f) < 1.0 {
      ScaleUp(f, top, ops);
      CastIsDefined(f, top, ops);
      var g := ops.mul(f, FloatOf(top));
      BetweenSteps(Real(f), top as real, Real(f) * top as real, Real(g), Real(ops.add(g, ONE_HALF)));
    }
  }

  lemma BetweenSteps(f: real, top: real, q: real, g: real, s: real)
    requires (top == 255.0 || top == 65535.0) && 0.0 < f < 1.0 && q == f * top && Near(g, q) && Near(s, g + 0.5)
    ensures s.Floor as real - 0.52 <= q <= s.Floor as real + 0.52
  {
    assert 0.0 <= q <= top;
  }

  /** Stored channel `c` of pixel `x` of `n`. */
  ghost function StoredChannel(memory: seq<Byte>, from: nat, channels: nat, n: nat, x: nat, c: nat, depth: Depth): Cell
    requires depth != UnknownDepth && x < n && c < channels && from + n * ChannelBytes(depth, channels) <= |memory|
  {
    CellsOf(Item(memory, from, ChannelBytes(depth, channels), n, x), depth, channels)[c]
  }

  lemma {:induction false} ExpandRowAt(memory: seq<Byte>, from: nat, channels: nat, n: nat, m: nat, x: nat,
                                       depth: Depth,
                                       ops: Arithmetic)
    requires channels in {1, 3, 4} && depth != UnknownDepth && x < m <= n
    requires from + n * ChannelBytes(depth, channels) <= |memory|
    ensures Item(ExpandRow(memory, from, channels, n, m, depth, ops), 0, 4, m, x)
      == ExpandItem(memory, from, channels, n, x, depth, ops)
    decreases m
  {
    hide ExpandItem, ChannelBytes;
    if x < m - 1 { ExpandRowAt(memory, from, channels, n, m - 1, x, depth, ops); }
  }

  /** Red, green, blue and alpha are the host's channels in this order. Without alpha a pixel is opaque, and
      with nothing but alpha it is black. */
  lemma {:induction false} ReadChannels(memory: seq<Byte>, from: nat, channels: nat, n: nat, x: nat, depth: Depth,
                                        ops: Arithmetic)
    requires channels in {1, 3, 4} && depth != UnknownDepth && x < n
    requires from + n * ChannelBytes(depth, channels) <= |memory|
    ensures var rgba := Item(ExpandRow(memory, from, channels, n, n, depth, ops), 0, 4, n, x);
      && (channels >= 3 ==> forall c :: 0 <= c < 3 ==>
            rgba[c] == ReadCell(depth, StoredChannel(memory, from, channels, n, x, c, depth), ops))
      && (channels == 1 ==> forall c :: 0 <= c < 3 ==> IsFinite(rgba[c]) && Real(rgba[c]) == 0.0)
      && (channels != 3 ==>
           rgba[3] == ReadCell(depth, StoredChannel(memory, from, channels, n, x, channels - 1, depth), ops))
      && (channels == 3 ==> IsFinite(rgba[3]) && Real(rgba[3]) == 1.0)
  {
    hide ChannelBytes, CellsOf, ExpandRow, ExpandPixel, ReadCell, Real;
    ExpandRowAt(memory, from, channels, n, n, x, depth, ops);
    PixelChannels(CellsOf(Item(memory, from, ChannelBytes(depth, channels), n, x), depth, channels), depth, ops);
  }

  lemma PixelChannels(pixel: seq<Cell>, depth: Depth, ops: Arithmetic)
    requires |pixel| in {1, 3, 4} && HoldsRow(depth, pixel)
    ensures var rgba := ExpandPixel(pixel, depth, ops);
      && (|pixel| >= 3 ==> forall c :: 0 <= c < 3 ==> rgba[c] == ReadCell(depth, pixel[c], ops))
      && (|pixel| == 1 ==> forall c :: 0 <= c < 3 ==> IsFinite(rgba[c]) && Real(rgba[c]) == 0.0)
      && (|pixel| != 3 ==> rgba[3] == ReadCell(depth, pixel[|pixel| - 1], ops))
      && (|pixel| == 3 ==> IsFinite(rgba[3]) && Real(rgba[3]) == 1.0)
  {
    hide ReadCell, Real, Holds;
    BlackAndOpaque();
  }

  lemma BlackAndOpaque()
    ensures IsFinite(ZERO) && Real(ZERO) == 0.0 && IsFinite(ONE) && Real(ONE) == 1.0
  {
    hide Real;
    Constants();
    ExactReal(0);
  }

  // ----- Round trips -----

  /** Every stored value of an integer or half depth comes back as it was: halves bit for bit. */
  lemma CellRoundTrip(depth: Depth, cell: Cell, ops: Arithmetic)
    requires Faithful(ops) && Holds(depth, cell)
    ensures WriteCell(depth, ReadCell(depth, cell, ops), ops) == cell
  {
    hide FromUnsigned, ToUnsigned, HalfToFloat, FloatToHalf, Faithful;
    match depth
    case UByte => IntegerRoundTrip(cell.word, 255, ops);
    case UShort => IntegerRoundTrip(cell.word, 65535, ops);
    case Half => RoundTrip(cell.word);
    case Single =>
  }

  lemma PixelRoundTrip(pixel: seq<Cell>, depth: Depth, ops: Arithmetic)
    requires Faithful(ops) && |pixel| in {1, 3, 4} && HoldsRow(depth, pixel) && depth != UnknownDepth
    ensures PackPixel(ExpandPixel(pixel, depth, ops), |pixel|, depth, ops) == pixel
  {
    hide ReadCell, WriteCell, Faithful, Holds;
    forall k | 0 <= k < |pixel|
      ensures WriteCell(depth, ReadCell(depth, pixel[k], ops), ops) == pixel[k]
    {
      CellRoundTrip(depth, pixel[k], ops);
    }
  }

  /** The channels of a pixel are the ones that were stored in it. */
  lemma {:induction false} CellsOfBytes(cells: seq<Cell>, depth: Depth)
    requires depth != UnknownDepth && HoldsRow(depth, cells)
    ensures CellsOf(BytesOf(cells, depth), depth, |cells|) == cells
  {
    hide ChannelBytes, Load, Stored, Size, Holds;
    if cells != [] {
      var n := |cells| - 1;
      CellsOfBytes(cells[..n], depth);
      LoadStored(cells[n], depth);
      CellsNext(BytesOf(cells[..n], depth), Stored(cells[n], depth), depth, n);
    }
  }

  lemma {:induction false} PackRowAt(rgba: seq<Float32>, at: nat, channels: nat, n: nat, m: nat, x: nat, depth: Depth,
                                     ops: Arithmetic)
    requires x < m <= n && at + n * 4 <= |rgba| && channels in {1, 3, 4} && depth != UnknownDepth
    ensures Item(PackRow(rgba, at, channels, n, m, depth, ops), 0, ChannelBytes(depth, channels), m, x)
      == PackItem(rgba, at, channels, n, x, depth, ops)
    decreases m
  {
    hide PackItem, ChannelBytes;
    NextItem(x, m, ChannelBytes(depth, channels));
    NextItem(m - 1, m, ChannelBytes(depth, channels));
    if x < m - 1 {
      NextItem(x, m - 1, ChannelBytes(depth, channels));
      PackRowAt(rgba, at, channels, n, m - 1, x, depth, ops);
    }
  }

  /** Whatever a float row holds, channel `c` the host keeps of a pixel is the conversion of that pixel's red,
      green, blue or alpha in this order, or of its alpha where the host keeps nothing else. */
  lemma {:induction false} WrittenChannels(rgba: seq<Float32>, at: nat, channels: nat, n: nat, x: nat, c: nat,
                                           depth: Depth, ops: Arithmetic)
    requires at + n * 4 <= |rgba| && channels in {1, 3, 4} && depth != UnknownDepth && x < n && c < channels
    ensures var row := PackRow(rgba, at, channels, n, n, depth, ops);
      StoredChannel(row, 0, channels, n, x, c, depth)
        == WriteCell(depth, Item(rgba, at, 4, n, x)[if channels == 1 then 3 + c else c], ops)
  {
    hide ChannelBytes, PackRow, PackPixel, WriteCell, Holds, Item, BytesOf, CellsOf;
    var pixel := Item(rgba, at, 4, n, x);
    PackRowAt(rgba, at, channels, n, n, x, depth, ops);
    CellsOfBytes(PackPixel(pixel, channels, depth, ops), depth);
    PackedAt(pixel, channels, depth, c, ops);
  }

  /** Reading a row of any length and any known layout and writing it back restores every byte. */
  lemma {:induction false} RowRoundTrip(memory: seq<Byte>, from: nat, channels: nat, n: nat, m: nat, depth: Depth,
                                        rgba: seq<Float32>, at: nat, ops: Arithmetic)
    requires Faithful(ops) && channels in {1, 3, 4} && depth != UnknownDepth && m <= n
    requires from + n * ChannelBytes(depth, channels) <= |memory| && at + n * 4 <= |rgba|
    requires rgba[at..at + 4 * m] == ExpandRow(memory, from, channels, n, m, depth, ops)
    ensures PackRow(rgba, at, channels, n, m, depth, ops)
      == StoredRow(memory, from, ChannelBytes(depth, channels), n, m)
  {
    hide ExpandItem, PackItem, Faithful, ChannelBytes, PackRow, StoredRow, Item;
    if m == 0 {
      PackNothing(rgba, at, channels, n, depth, ops);
    } else {
      PackNext(rgba, at, channels, n, m - 1, depth, ops);
      LastItem(rgba, at, n, m, ExpandRow(memory, from, channels, n, m - 1, depth, ops),
               ExpandItem(memory, from, channels, n, m - 1, depth, ops));
      RowRoundTrip(memory, from, channels, n, m - 1, depth, rgba, at, ops);
      ItemRoundTrip(memory, from, channels, n, m - 1, depth, rgba, at, ops);
    }
    StoredNext(memory, from, ChannelBytes(depth, channels), n, m);
  }

  lemma LastItem(rgba: seq<Float32>, at: nat, n: nat, m: nat, before: seq<Float32>, last: seq<Float32>)
    requires 0 < m <= n && at + n * 4 <= |rgba| && |last| == 4 && rgba[at..at + 4 * m] == before + last
    ensures rgba[at..at + 4 * (m - 1)] == before && Item(rgba, at, 4, n, m - 1) == last
  {
    var row := rgba[at..at + 4 * m];
    assert row[..4 * (m - 1)] == before && row[4 * (m - 1)..] == last;
    assert rgba[at..at + 4 * (m - 1)] == row[..4 * (m - 1)];
  }

  /** The bytes of the first `m` of `n` items. */
  ghost function StoredRow(memory: seq<Byte>, from: nat, size: nat, n: nat, m: nat): seq<Byte>
    requires m <= n && from + n * size <= |memory|
  {
    Grows(m, n, size);
    memory[from..from + m * size]
  }

  lemma StoredNext(memory: seq<Byte>, from: nat, size: nat, n: nat, m: nat)
    requires m <= n && from + n * size <= |memory|
    ensures StoredRow(memory, from, size, n, m) ==
      if m == 0 then [] else StoredRow(memory, from, size, n, m - 1) + Item(memory, from, size, n, m - 1)
  {
    Grows(m, n, size);
    if m > 0 { NextItem(m - 1, n, size); }
  }

  lemma ItemRoundTrip(memory: seq<Byte>, from: nat, channels: nat, n: nat, x: nat, depth: Depth, rgba: seq<Float32>,
                      at: nat, ops: Arithmetic)
    requires Faithful(ops) && channels in {1, 3, 4} && depth != UnknownDepth && x < n
    requires from + n * ChannelBytes(depth, channels) <= |memory| && at + n * 4 <= |rgba|
    requires Item(rgba, at, 4, n, x) == ExpandItem(memory, from, channels, n, x, depth, ops)
    ensures PackItem(rgba, at, channels, n, x, depth, ops) == Item(memory, from, ChannelBytes(depth, channels), n, x)
  {
    hide ExpandPixel, PackPixel, CellsOf, BytesOf, Faithful, ChannelBytes;
    var bytes := Item(memory, from, ChannelBytes(depth, channels), n, x);
    PixelRoundTrip(CellsOf(bytes, depth, channels), depth, ops);
    BytesOfCells(bytes, depth, channels);
  }

  /** The two row converters, one after the other through a float row, copy the row exactly and touch
      nothing else. */
  method ReadThenWrite(source: array<Byte>, from: nat, depth: Depth, components: Components, pixelCount: int,
                       rgba: array<Float32>, at: nat, destination: array<Byte>, start: nat, ops: Arithmetic)
    requires Faithful(ops) && source != destination
    requires Converts(depth, components, pixelCount) ==>
      var k := pixelCount * PixelBytes(depth, components);
      from + k <= source.Length && at + 4 * pixelCount <= rgba.Length && start + k <= destination.Length
    modifies rgba, destination
    ensures !Converts(depth, components, pixelCount) ==> destination[..] == old(destination[..])
    ensures Converts(depth, components, pixelCount) ==>
      Overlaid(destination[..], old(destination[..]), start,
               old(source[..])[from..from + pixelCount * PixelBytes(depth, components)])
  {
    hide ExpandRow, PackRow, Faithful, ChannelBytes;
    ReadHostRow(source, from, depth, components, pixelCount, rgba, at, ops);
    ghost var row := rgba[..];
    if Converts(depth, components, pixelCount) {
      ghost var channels := ComponentCount(components);
      OverlaidRow(row, old(rgba[..]), at, ExpandRow(source[..], from, channels, pixelCount, pixelCount, depth, ops));
      RowRoundTrip(source[..], from, channels, pixelCount, pixelCount, depth, row, at, ops);
    }
    WriteHostRow(rgba, at, pixelCount, depth, components, destination, start, ops);
  }
}
