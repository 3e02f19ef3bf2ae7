/** The frame scalers of the Windows receiver: fitting a frame into a container, and the buffer it is drawn in. */
module FrameScaling {
  import opened Octets
  import opened Rasters

  /** The three scalers, with the size of the container that they are given. */
  datatype Scaler = DirectShow(width: nat, height: nat) | GuiPreview(width: nat, height: nat) | OneToOne

  datatype Size = Size(width: int, height: int)

  datatype Dimensions = Dimensions(
    width: int, height: int, containerWidth: int, containerHeight: int, xOffset: int, yOffset: int, hasPadding: bool)

  predicate ValidScaler(s: Scaler) {
    !s.OneToOne? ==> s.width > 0 && s.height > 0
  }

  // ---------------------------------------------------------------- fitting

  /** Scales a frame to fit inside a box; the conversion to int drops the fraction of a number that is not negative. */
  function Fit(boxWidth: nat, boxHeight: nat, width: nat, height: nat): Size
    requires boxWidth > 0 && boxHeight > 0 && width > 0 && height > 0
  {
    RatioPositive(width, height);
    var containerRatio := boxWidth as real / boxHeight as real;
    var srcRatio := width as real / height as real;
    if srcRatio > containerRatio then Size(boxWidth, (boxWidth as real / srcRatio).Floor)
    else Size((boxHeight as real * srcRatio).Floor, boxHeight)
  }

  lemma RatioPositive(width: nat, height: nat)
    requires width > 0 && height > 0
    ensures width as real / height as real > 0.0
  {
  }

  // The margins are not negative (FitInIntegers), so it does not matter how the division rounds below zero.
  function CalculateTargetDimensions(s: Scaler, width: nat, height: nat): Dimensions
    requires ValidScaler(s) && width > 0 && height > 0
  {
    match s
    case DirectShow(w, h) =>
      var fit := Fit(w, h, width, height);
      Dimensions(fit.width, fit.height, w, h, (w - fit.width) / 2, (h - fit.height) / 2, true)
    case GuiPreview(w, h) =>
      var fit := Fit(w, h, width, height);
      Dimensions(fit.width, fit.height, fit.width, fit.height, 0, 0, false)
    case OneToOne => Dimensions(width, height, width, height, 0, 0, false)
  }

  lemma QuotientFloor(p: real, a: nat, b: nat)
    requires b > 0 && p * b as real == a as real
    ensures p.Floor == a / b
  {
    var q := a / b;
    assert q * b <= a < (q + 1) * b;
    assert (q as real) * b as real == (q * b) as real;
    assert ((q + 1) as real) * b as real == ((q + 1) * b) as real;
    NotGreater(q as real, p, b as real);
    if p >= (q + 1) as real {
      NotGreater(p, (q + 1) as real, b as real);
    }
  }

  lemma NotGreater(x: real, y: real, b: real)
    requires b > 0.0 && x * b <= y * b
    ensures x <= y
  {
  }

  lemma CrossMultiply(w: nat, h: nat, W: nat, H: nat)
    requires h > 0 && H > 0
    ensures w as real / h as real > W as real / H as real <==> w * H > W * h
  {
    var p, q := w as real / h as real, W as real / H as real;
    var b := h as real * H as real;
    Scaled(w, h, p, H);
    Scaled(W, H, q, h);
    assert p * b == (w * H) as real && q * b == (W * h) as real;
    if p <= q {
      NotGreater(0.0, q - p, b);
      ProductMonotone(p, q, b);
    } else {
      ProductMonotone(q, p, b);
      if q * b == p * b {
        NotGreater(p, q, b);
      }
    }
  }

  lemma ProductMonotone(x: real, y: real, b: real)
    requires x <= y && b > 0.0
    ensures x * b <= y * b
  {
  }

  lemma Scaled(w: nat, h: nat, p: real, H: nat)
    requires h > 0 && p == w as real / h as real
    ensures p * h as real == w as real
    ensures p * (h as real * H as real) == (w * H) as real
    ensures p * (H as real * h as real) == (w * H) as real
  {
    assert p * (h as real * H as real) == p * h as real * H as real;
    assert (w * H) as real == w as real * H as real;
  }

  /**
   In whole numbers: the frame takes the full width of the box, or its full height, and the other side is
   the exact proportion rounded down. It never exceeds the box.
   */
  lemma FitInIntegers(W: nat, H: nat, w: nat, h: nat)
    requires W > 0 && H > 0 && w > 0 && h > 0
    ensures Fit(W, H, w, h) == if w * H > W * h then Size(W, W * h / w) else Size(H * w / h, H)
    ensures 0 <= Fit(W, H, w, h).width <= W && 0 <= Fit(W, H, w, h).height <= H
  {
    CrossMultiply(w, h, W, H);
    RatioPositive(w, h);
    hide Fit;
    if w * H > W * h {
      WideFit(W, H, w, h);
    } else {
      TallFit(W, H, w, h);
    }
  }

  lemma WideFit(W: nat, H: nat, w: nat, h: nat)
    requires W > 0 && H > 0 && w > 0 && h > 0 && w * H > W * h
    requires w as real / h as real > W as real / H as real && w as real / h as real > 0.0
    ensures Fit(W, H, w, h) == Size(W, W * h / w) && 0 <= W * h / w <= H
  {
    QuotientTimes(W, w, h);
    QuotientFloor(W as real / (w as real / h as real), W * h, w);
    QuotientAtMost(W * h, w, H);
  }

  lemma TallFit(W: nat, H: nat, w: nat, h: nat)
    requires W > 0 && H > 0 && w > 0 && h > 0 && w * H <= W * h
    requires w as real / h as real <= W as real / H as real
    ensures Fit(W, H, w, h) == Size(H * w / h, H) && 0 <= H * w / h <= W
  {
    var ratio := w as real / h as real;
    Scaled(w, h, ratio, H);
    assert H as real * ratio * h as real == (w * H) as real;
    QuotientFloor(H as real * ratio, H * w, h);
    QuotientAtMost(H * w, h, W);
  }

  lemma QuotientTimes(W: nat, w: nat, h: nat)
    requires w > 0 && h > 0 && w as real / h as real > 0.0
    ensures W as real / (w as real / h as real) * w as real == (W * h) as real
  {
    var ratio := w as real / h as real;
    var q := W as real / ratio;
    assert q * ratio == W as real;
    assert ratio * h as real == w as real;
    assert q * w as real == q * (ratio * h as real) == q * ratio * h as real;
    assert (W * h) as real == W as real * h as real;
  }

  lemma QuotientAtMost(a: nat, b: nat, limit: nat)
    requires b > 0 && a <= limit * b
    ensures 0 <= a / b <= limit
  {
    TimesMonotone(limit, a / b, b);
  }

  /** The drawn rectangle lies inside the container, and without padding it is the container. */
  predicate Inside(d: Dimensions) {
    && 0 <= d.xOffset && 0 <= d.width && d.xOffset + d.width <= d.containerWidth
    && 0 <= d.yOffset && 0 <= d.height && d.yOffset + d.height <= d.containerHeight
    && (!d.hasPadding ==> d.xOffset == d.yOffset == 0 && d.width == d.containerWidth && d.height == d.containerHeight)
  }

  lemma AlwaysInside(s: Scaler, width: nat, height: nat)
    requires ValidScaler(s) && width > 0 && height > 0
    ensures Inside(CalculateTargetDimensions(s, width, height))
  {
    if !s.OneToOne? {
      FitInIntegers(s.width, s.height, width, height);
    }
    hide Fit;
  }

  /** The DirectShow scaler centres the frame: opposite margins differ by one at most, and two of them vanish. */
  lemma Centred(W: nat, H: nat, width: nat, height: nat)
    requires W > 0 && H > 0 && width > 0 && height > 0
    ensures var d := CalculateTargetDimensions(DirectShow(W, H), width, height);
            && 0 <= (W - d.width - d.xOffset) - d.xOffset <= 1
            && 0 <= (H - d.height - d.yOffset) - d.yOffset <= 1
            && (d.width == W || d.height == H)
  {
    FitInIntegers(W, H, width, height);
    hide Fit;
  }

  /**
   No frame is stretched: the sides of the rectangle are in the proportion of the frame, short of one pixel on the
   rounded side. Two scalers fill a side of their box, the preview without margins; the third keeps the size.
   */
  lemma NotStretched(s: Scaler, width: nat, height: nat)
    requires ValidScaler(s) && width > 0 && height > 0
    ensures var d := CalculateTargetDimensions(s, width, height);
            && (if s.OneToOne? then d.width == width && d.height == height
                else || (d.width == s.width && 0 <= d.width * height - d.height * width < width)
                     || (d.height == s.height && 0 <= d.height * width - d.width * height < height))
            && (if s.DirectShow? then d.containerWidth == s.width && d.containerHeight == s.height
                else d.containerWidth == d.width && d.containerHeight == d.height)
            && (d.hasPadding <==> s.DirectShow?)
  {
    if !s.OneToOne? {
      FitInIntegers(s.width, s.height, width, height);
      RoundedDown(s.width * height, width);
      RoundedDown(s.height * width, height);
    }
    hide Fit;
  }

  lemma RoundedDown(a: nat, b: nat)
    requires b > 0
    ensures 0 <= a - a / b * b < b
  {
  }

  // ---------------------------------------------------------------- the buffer

  const INPUT_BUFFER_PADDING: nat := 64

  function Aligned(stride: nat): nat {
    (stride + 31) / 32 * 32
  }

  /** The byte at index i lies in the given rows, from column first on. */
  predicate InRows(i: nat, stride: int, row: int, rows: nat, first: int, length: int) {
    stride > 0 && row <= i / stride < row + rows && first <= i % stride < first + length
  }

  /** The byte at index i belongs to the first rows of the drawn rectangle. */
  predicate Drawn(d: Dimensions, bpp: nat, rows: nat, i: nat) {
    InRows(i, d.containerWidth * bpp, d.yOffset, rows, d.xOffset * bpp, d.width * bpp)
  }

  /** Where in the rectangle a byte of the buffer lies: its row, and its column counted in octets. */
  function RowOf(d: Dimensions, bpp: nat, i: nat): int {
    var stride := d.containerWidth * bpp;
    if stride > 0 then i / stride - d.yOffset else 0
  }

  function ColumnOf(d: Dimensions, bpp: nat, i: nat): int {
    var stride := d.containerWidth * bpp;
    if stride > 0 then i % stride - d.xOffset * bpp else 0
  }

  /** One more row is one more range of bytes. */
  lemma OneMoreRow(i: nat, stride: nat, top: nat, row: nat, first: nat, length: nat)
    requires first + length <= stride
    ensures var start := (top + row) * stride + first;
            && (InRows(i, stride, top, row + 1, first, length)
               <==> (InRows(i, stride, top, row, first, length) || start <= i < start + length))
            && (start <= i < start + length ==>
                  stride > 0 && i / stride - top == row && i % stride - first == i - start)
  {
    if length > 0 {
      RowRange(i, top + row, stride, first, length);
    }
  }

  /** What a frame source gives: the size and the pixel format of the frame, and its pixels once scaled. */
  datatype Frame = Frame(width: int, height: int, format: int, scaled: (int, int) -> byte)

  /** A scaling context, with the sizes that it has been made for. */
  datatype Context = Context(srcWidth: int, srcHeight: int, srcFormat: int, width: int, height: int)

  class FrameScaler {
    const scaler: Scaler
    const bpp: nat    // octets per pixel of the output format
    var context: Option<Context>
    var buffer: array<byte>
    var cachedTargetDims: Dimensions
    var lastSrcWidth: int
    var lastSrcHeight: int
    var lastSrcFormat: int

    constructor (scaler: Scaler, bpp: nat)
      requires ValidScaler(scaler) && bpp > 0
      ensures Valid() && fresh(buffer)
    {
      this.scaler, this.bpp := scaler, bpp;
      context := None;
      buffer := new byte[0];
      cachedTargetDims := Dimensions(0, 0, 0, 0, 0, 0, false);
      lastSrcWidth, lastSrcHeight, lastSrcFormat := 0, 0, 0;
    }

    /** There is a context, and the last frame was of this kind. */
    predicate MadeFor(width: int, height: int, format: int)
      reads this
    {
      context.Some? && width == lastSrcWidth && height == lastSrcHeight && format == lastSrcFormat
    }

    /** The context, the dimensions and the buffer are those for frames of the given kind. */
    ghost predicate PreparedFor(width: int, height: int, format: int)
      reads this, buffer
    {
      && ValidScaler(scaler) && bpp > 0 && width > 0 && height > 0
      && cachedTargetDims == CalculateTargetDimensions(scaler, width, height)
      && context == Some(Context(width, height, format, cachedTargetDims.width, cachedTargetDims.height))
      && cachedTargetDims.containerHeight * (cachedTargetDims.containerWidth * bpp) <= buffer.Length
      && cachedTargetDims.containerHeight * Aligned(cachedTargetDims.containerWidth * bpp) + 64 <= buffer.Length
      && BlackOutside()
    }

    /** Where there is padding, everything that is not the drawn rectangle is zero. */
    ghost predicate BlackOutside()
      reads this, buffer
    {
      cachedTargetDims.hasPadding && cachedTargetDims.height >= 0 ==>
        forall i: nat | i < buffer.Length && !Drawn(cachedTargetDims, bpp, cachedTargetDims.height, i) :: buffer[i] == 0
    }

    ghost predicate Valid()
      reads this, buffer
    {
      && ValidScaler(scaler) && bpp > 0
      && (context.Some? ==> PreparedFor(lastSrcWidth, lastSrcHeight, lastSrcFormat))
    }

    /**
     Process. contextMade says whether a new context could be made and rows how many rows the scaler wrote.
     Whatever frames came before, the frame is drawn with dimensions computed for it alone.
     */
    method Process(srcFrame: Option<Frame>, contextMade: bool, rows: nat) returns (r: Option<Size>)
      requires Valid()
      modifies this, buffer
      ensures Valid() && (buffer == old(buffer) || fresh(buffer))
      ensures srcFrame.None? || srcFrame.value.width <= 0 || srcFrame.value.height <= 0 ==>
                r.None? && context == old(context) && buffer == old(buffer) && buffer[..] == old(buffer[..])
      ensures r.Some? ==>
                && rows > 0 && srcFrame.Some? && PreparedFor(srcFrame.value.width, srcFrame.value.height,
                    srcFrame.value.format)
                && r.value == Size(cachedTargetDims.containerWidth, cachedTargetDims.containerHeight)
                && cachedTargetDims.height >= 0
                && ShowsFrame(srcFrame.value, if rows < cachedTargetDims.height then rows else cachedTargetDims.height)
      ensures r.Some? <==>
                && srcFrame.Some? && srcFrame.value.width > 0 && srcFrame.value.height > 0
                && (contextMade || old(MadeFor(srcFrame.value.width, srcFrame.value.height, srcFrame.value.format)))
                && rows > 0 && cachedTargetDims.height > 0
    {
      if srcFrame.None? || srcFrame.value.width <= 0 || srcFrame.value.height <= 0 {
        return None;
      }
      var frame := srcFrame.value;
      var ready := PrepareContext(frame.width, frame.height, frame.format, contextMade);
      if !ready {
        return None;
      }
      AlwaysInside(scaler, frame.width, frame.height);
      var result := if rows < cachedTargetDims.height then rows else cachedTargetDims.height;
      Scale(frame, result);
      if result == 0 {
        return None;
      }
      r := Some(Size(cachedTargetDims.containerWidth, cachedTargetDims.containerHeight));
    }

    /** The first rows of the rectangle hold the pixels of the scaled frame. */
    ghost predicate ShowsFrame(frame: Frame, rows: nat)
      reads this, buffer
    {
      var d := cachedTargetDims;
      forall i: nat | i < buffer.Length && Drawn(d, bpp, rows, i) ::
        buffer[i] == frame.scaled(RowOf(d, bpp, i), ColumnOf(d, bpp, i))
    }

    method PrepareContext(srcWidth: int, srcHeight: int, srcFormat: int, contextMade: bool) returns (ready: bool)
      requires Valid() && srcWidth > 0 && srcHeight > 0
      modifies this, buffer
      ensures Valid() && (buffer == old(buffer) || fresh(buffer))
      ensures ready ==> PreparedFor(srcWidth, srcHeight, srcFormat)
      ensures ready ==> lastSrcWidth == srcWidth && lastSrcHeight == srcHeight && lastSrcFormat == srcFormat
      ensures ready <==> contextMade || old(MadeFor(srcWidth, srcHeight, srcFormat))
    {
      if MadeFor(srcWidth, srcHeight, srcFormat) {
        return true;
      }
      cachedTargetDims := CalculateTargetDimensions(scaler, srcWidth, srcHeight);
      AlwaysInside(scaler, srcWidth, srcHeight);
      context := None;
      if contextMade {
        context := Some(Context(srcWidth, srcHeight, srcFormat, cachedTargetDims.width, cachedTargetDims.height));
      }
      if context.None? {
        return false;
      }
      var stride := Aligned(cachedTargetDims.containerWidth * bpp);
      var neededSize := cachedTargetDims.containerHeight * stride + INPUT_BUFFER_PADDING;
      RoomEnough(cachedTargetDims.containerHeight, cachedTargetDims.containerWidth * bpp);
      if buffer.Length < neededSize {
        buffer := new byte[neededSize](i => 0);
      }
      if cachedTargetDims.hasPadding {
        forall i | 0 <= i < buffer.Length {
          buffer[i] := 0;
        }
      }
      lastSrcWidth, lastSrcHeight, lastSrcFormat := srcWidth, srcHeight, srcFormat;
      ready := true;
    }

    /** The contract of the scaling library: it writes rows of the target rectangle and nothing else. */
    method Scale(frame: Frame, rows: nat)
      requires PreparedFor(lastSrcWidth, lastSrcHeight, lastSrcFormat) && Inside(cachedTargetDims)
      requires rows <= cachedTargetDims.height
      modifies buffer
      ensures PreparedFor(lastSrcWidth, lastSrcHeight, lastSrcFormat) && ShowsFrame(frame, rows)
    {
      hide Drawn, Inside, CalculateTargetDimensions, RowOf, ColumnOf;
      var d := cachedTargetDims;
      var dstStride := d.containerWidth * bpp;
      var dstSlice := d.yOffset * dstStride + d.xOffset * bpp;
      NothingDrawn(d, bpp);
      for row := 0 to rows
        invariant BlackOutside() && ShowsFrame(frame, row)
      {
        Placed(d, bpp, row);
        ScaleRow(frame, row, dstSlice + row * dstStride);
      }
    }

    method ScaleRow(frame: Frame, row: nat, start: nat)
      requires row < cachedTargetDims.height && RowIs(cachedTargetDims, bpp, row, start)
      requires start + cachedTargetDims.width * bpp <= buffer.Length
      requires BlackOutside() && ShowsFrame(frame, row)
      modifies buffer
      ensures BlackOutside() && ShowsFrame(frame, row + 1)
    {
      var length := cachedTargetDims.width * bpp;
      hide Drawn, RowOf, ColumnOf;
      forall i | start <= i < start + length {
        buffer[i] := frame.scaled(row, i - start);
      }
      ghost var d := cachedTargetDims;
      forall i: nat | i < buffer.Length && Drawn(d, bpp, row + 1, i)
        ensures buffer[i] == frame.scaled(RowOf(d, bpp, i), ColumnOf(d, bpp, i))
      {
        if !(start <= i < start + length) {
          assert Drawn(d, bpp, row, i);
          assert buffer[i] == old(buffer[i]);
        }
      }
    }
  }

  /** The row of the rectangle that starts at this index. */
  ghost predicate RowIs(d: Dimensions, bpp: nat, row: nat, start: nat)
    requires d.height >= 0
  {
    forall i: nat {:trigger Drawn(d, bpp, row + 1, i)} ::
      && (Drawn(d, bpp, row + 1, i) <==> Drawn(d, bpp, row, i) || start <= i < start + d.width * bpp)
      && (start <= i < start + d.width * bpp ==>
            Drawn(d, bpp, d.height, i) && RowOf(d, bpp, i) == row && ColumnOf(d, bpp, i) == i - start)
  }

  lemma Placed(d: Dimensions, bpp: nat, row: nat)
    requires Inside(d) && row < d.height
    ensures var stride := d.containerWidth * bpp;
            var start := d.yOffset * stride + d.xOffset * bpp + row * stride;
            start >= 0 && RowIs(d, bpp, row, start) && start + d.width * bpp <= d.containerHeight * stride
  {
    var stride := d.containerWidth * bpp;
    var start := d.yOffset * stride + d.xOffset * bpp + row * stride;
    RowFits(d, bpp, row);
    FirstAndLength(d, bpp);
    SumTimes(d.yOffset, row, stride);
    hide Drawn, RowOf, ColumnOf, Inside;
    forall i: nat
      ensures Drawn(d, bpp, row + 1, i) <==> Drawn(d, bpp, row, i) || start <= i < start + d.width * bpp
      ensures start <= i < start + d.width * bpp ==>
                Drawn(d, bpp, d.height, i) && RowOf(d, bpp, i) == row && ColumnOf(d, bpp, i) == i - start
    {
      PlacedAt(d, bpp, row, i);
    }
  }

  lemma SumTimes(a: int, b: int, s: int)
    ensures (a + b) * s == a * s + b * s
  {
  }

  lemma PlacedAt(d: Dimensions, bpp: nat, row: nat, i: nat)
    requires Inside(d) && row < d.height
    ensures var start := (d.yOffset + row) * (d.containerWidth * bpp) + d.xOffset * bpp;
            && (Drawn(d, bpp, row + 1, i) <==> (Drawn(d, bpp, row, i) || start <= i < start + d.width * bpp))
            && (start <= i < start + d.width * bpp ==>
                  Drawn(d, bpp, d.height, i) && RowOf(d, bpp, i) == row && ColumnOf(d, bpp, i) == i - start)
  {
    FirstAndLength(d, bpp);
    OneMoreRow(i, d.containerWidth * bpp, d.yOffset, row, d.xOffset * bpp, d.width * bpp);
    MoreRows(d, bpp, row + 1, d.height, i);
    hide InRows;
  }

  lemma FirstAndLength(d: Dimensions, bpp: nat)
    requires Inside(d)
    ensures d.xOffset * bpp >= 0 && d.width * bpp >= 0 && d.xOffset * bpp + d.width * bpp <= d.containerWidth * bpp
  {
    TimesMonotone(d.xOffset + d.width, d.containerWidth, bpp);
    assert (d.xOffset + d.width) * bpp == d.xOffset * bpp + d.width * bpp;
  }

  lemma NothingDrawn(d: Dimensions, bpp: nat)
    ensures forall i: nat :: !Drawn(d, bpp, 0, i)
  {
  }

  lemma MoreRows(d: Dimensions, bpp: nat, rows: nat, more: nat, i: nat)
    requires rows <= more
    ensures Drawn(d, bpp, rows, i) ==> Drawn(d, bpp, more, i)
  {
  }

  /** Rows are counted up to the next multiple of 32 octets. */
  lemma AlignedMeans(stride: nat)
    ensures Aligned(stride) % 32 == 0 && stride <= Aligned(stride) < stride + 32
  {
  }

  lemma RoomEnough(height: nat, stride: nat)
    ensures height * stride <= height * Aligned(stride)
  {
    assert stride <= Aligned(stride);
  }

  lemma RowFits(d: Dimensions, bpp: nat, row: nat)
    requires Inside(d) && row < d.height
    ensures var stride := d.containerWidth * bpp;
            0 <= d.yOffset * stride + d.xOffset * bpp + row * stride + d.width * bpp <= d.containerHeight * stride
  {
    FirstAndLength(d, bpp);
    RowsFit(d.yOffset, row, d.containerHeight, d.containerWidth * bpp);
  }

  /** A scaler without padding draws every byte of its container, so nothing of an earlier frame shows. */
  lemma WithoutPaddingAllIsDrawn(d: Dimensions, bpp: nat, i: nat)
    requires Inside(d) && !d.hasPadding && i < d.containerHeight * (d.containerWidth * bpp)
    ensures Drawn(d, bpp, d.height, i)
  {
    var stride := d.containerWidth * bpp;
    if stride > 0 {
      assert i / stride * stride + i % stride == i;
      TimesMonotone(d.containerHeight, i / stride, stride);
    }
  }
}
