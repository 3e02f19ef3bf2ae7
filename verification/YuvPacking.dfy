/** The packed planar YUV 4:2:0 frame that the media pipeline writes to the loopback device. */
module YuvPacking {
  import opened Octets
  import opened Rasters

  const WIDTH: nat := 640
  const HEIGHT: nat := 480

  datatype Layout = Layout(yStride: nat, chromaStride: nat, packedFrameSize: nat)

  /**
   The end of configureV4L2Output: the strides and the size of the packed frame, from what the driver
   reports; None stands for an error.
   */
  method Strides(bytesPerLine: nat, sizeImage: nat) returns (r: Option<Layout>)
    ensures r.Some? ==>
              ValidLayout(r.value) && r.value.yStride == (if bytesPerLine < WIDTH then WIDTH else bytesPerLine)
    ensures r.None? <==>
              || (bytesPerLine >= WIDTH && bytesPerLine % 2 == 1)
              || 0 < sizeImage < (if bytesPerLine < WIDTH then WIDTH else bytesPerLine) * (HEIGHT + HEIGHT / 2)
  {
    var yStride := bytesPerLine;
    if yStride < WIDTH {
      yStride := WIDTH;
    }
    if yStride % 2 != 0 {
      return None;
    }
    var chromaStride := yStride / 2;
    var packedFrameSize := yStride * HEIGHT + 2 * chromaStride * (HEIGHT / 2);
    if sizeImage != 0 && sizeImage < packedFrameSize {
      return None;
    }
    r := Some(Layout(yStride, chromaStride, packedFrameSize));
  }

  predicate ValidLayout(l: Layout) {
    && l.yStride >= WIDTH && l.yStride == 2 * l.chromaStride
    && l.packedFrameSize == l.yStride * HEIGHT + 2 * (l.chromaStride * (HEIGHT / 2))
  }

  /** A plane of a decoded frame: rows of pixels, linesize apart. */
  datatype Plane = Plane(data: Bytes, linesize: nat)

  datatype Frame = Frame(y: Plane, u: Plane, v: Plane)

  predicate ValidPlane(p: Plane, rows: nat, width: nat) {
    p.linesize >= width && |p.data| >= rows * p.linesize
  }

  predicate ValidFrame(f: Frame) {
    && ValidPlane(f.y, HEIGHT, WIDTH)
    && ValidPlane(f.u, HEIGHT / 2, WIDTH / 2)
    && ValidPlane(f.v, HEIGHT / 2, WIDTH / 2)
  }

  function Pixel(p: Plane, row: nat, column: nat): byte {
    var k := row * p.linesize + column;
    if k < |p.data| then p.data[k] else 0
  }

  // ---------------------------------------------------------------- the packed frame

  datatype Component = Y | U | V

  function Offset(l: Layout, c: Component): nat {
    match c
    case Y => 0
    case U => l.yStride * HEIGHT
    case V => l.yStride * HEIGHT + l.chromaStride * (HEIGHT / 2)
  }

  function Stride(l: Layout, c: Component): nat {
    if c.Y? then l.yStride else l.chromaStride
  }

  function Rows(c: Component): nat {
    if c.Y? then HEIGHT else HEIGHT / 2
  }

  function Width(c: Component): nat {
    if c.Y? then WIDTH else WIDTH / 2
  }

  function PlaneOf(f: Frame, c: Component): Plane {
    match c
    case Y => f.y
    case U => f.u
    case V => f.v
  }

  /** Where in the frame a byte of the packed frame belongs; columns from the width on are padding. */
  datatype Place = Place(component: Component, row: nat, column: nat)

  predicate IsPlace(l: Layout, p: Place) {
    p.row < Rows(p.component) && p.column < Stride(l, p.component)
  }

  function Index(l: Layout, p: Place): nat {
    Offset(l, p.component) + (p.row * Stride(l, p.component) + p.column)
  }

  function ComponentAt(l: Layout, i: nat): Component {
    if i < Offset(l, U) then Y else if i < Offset(l, V) then U else V
  }

  function PlaceAt(l: Layout, i: nat): Place
    requires l.chromaStride > 0 && l.yStride > 0
  {
    var c := ComponentAt(l, i);
    assert i >= Offset(l, c);
    var j: nat := i - Offset(l, c);
    Place(c, j / Stride(l, c), j % Stride(l, c))
  }

  function PlaceByte(f: Frame, p: Place): byte {
    if p.column < Width(p.component) then Pixel(PlaneOf(f, p.component), p.row, p.column) else 0
  }

  /** The planes are disjoint and cover the packed frame: places and indices correspond one to one. */
  lemma PlaceHasOneIndex(l: Layout, p: Place)
    requires ValidLayout(l) && IsPlace(l, p)
    ensures Index(l, p) < l.packedFrameSize && PlaceAt(l, Index(l, p)) == p
  {
    var c, stride := p.component, Stride(l, p.component);
    RowsFit(0, p.row, Rows(c), stride);
    RowAndColumn(p.row, p.column, stride);
    PlanesAreApart(l, c);
    hide Offset;
    assert ComponentAt(l, Index(l, p)) == c;
  }

  lemma PlanesAreApart(l: Layout, c: Component)
    requires ValidLayout(l)
    ensures Offset(l, c) + Rows(c) * Stride(l, c) <= l.packedFrameSize
    ensures forall i: nat | i < l.packedFrameSize ::
              ComponentAt(l, i) == c <==> Offset(l, c) <= i < Offset(l, c) + Rows(c) * Stride(l, c)
  {
  }

  lemma IndexHasOnePlace(l: Layout, i: nat)
    requires ValidLayout(l) && i < l.packedFrameSize
    ensures IsPlace(l, PlaceAt(l, i)) && Index(l, PlaceAt(l, i)) == i
  {
    var c := ComponentAt(l, i);
    var stride, j := Stride(l, c), i - Offset(l, c);
    PlanesAreApart(l, c);
    hide Offset, ValidLayout;
    assert j / stride * stride + j % stride == j;
    TimesMonotone(Rows(c), j / stride, stride);
  }

  // ---------------------------------------------------------------- packing

  method WritePackedYuv420(f: Frame, l: Layout) returns (packed: array<byte>)
    requires ValidFrame(f) && ValidLayout(l)
    ensures fresh(packed) && packed.Length == l.packedFrameSize
    ensures forall i: nat | i < packed.Length :: packed[i] == PlaceByte(f, PlaceAt(l, i))
  {
    hide PlaceAt, PlaceByte, RowsDone, IsRowPacked;
    packed := new byte[l.packedFrameSize](i => 0);
    assert forall c, s :: RowsDone(s, f, l, c, 0) by { NoRowsDone(f, l); }
    for row := 0 to HEIGHT
      invariant RowsDone(packed[..], f, l, Y, row)
    {
      ghost var was := packed[..];
      PackRow(packed, f, l, Y, row);
      OneMoreRow(was, packed[..], f, l, Y, row);
    }
    for row := 0 to HEIGHT / 2
      invariant RowsDone(packed[..], f, l, Y, HEIGHT)
      invariant RowsDone(packed[..], f, l, U, row) && RowsDone(packed[..], f, l, V, row)
    {
      PackChroma(packed, f, l, row);
    }
    AllRowsDone(packed[..], f, l);
  }

  /** The first rows of a plane hold what they should. */
  ghost predicate RowsDone(s: Bytes, f: Frame, l: Layout, c: Component, rows: nat)
    requires l.chromaStride > 0 && l.yStride > 0
  {
    forall i: nat | i < |s| && PlaceAt(l, i).component == c && PlaceAt(l, i).row < rows ::
        s[i] == PlaceByte(f, PlaceAt(l, i))
  }

  lemma AllRowsDone(s: Bytes, f: Frame, l: Layout)
    requires ValidLayout(l) && |s| == l.packedFrameSize
    requires RowsDone(s, f, l, Y, HEIGHT) && RowsDone(s, f, l, U, HEIGHT / 2) && RowsDone(s, f, l, V, HEIGHT / 2)
    ensures forall i: nat | i < |s| :: s[i] == PlaceByte(f, PlaceAt(l, i))
  {
    forall i: nat | i < |s| ensures s[i] == PlaceByte(f, PlaceAt(l, i)) {
      IndexHasOnePlace(l, i);
      hide PlaceAt, PlaceByte;
    }
  }

  lemma NoRowsDone(f: Frame, l: Layout)
    requires l.chromaStride > 0 && l.yStride > 0
    ensures forall c, s :: RowsDone(s, f, l, c, 0)
  {
  }

  method PackChroma(packed: array<byte>, f: Frame, l: Layout, row: nat)
    requires ValidFrame(f) && ValidLayout(l) && packed.Length == l.packedFrameSize && row < HEIGHT / 2
    requires RowsDone(packed[..], f, l, Y, HEIGHT)
    requires RowsDone(packed[..], f, l, U, row) && RowsDone(packed[..], f, l, V, row)
    modifies packed
    ensures RowsDone(packed[..], f, l, Y, HEIGHT)
    ensures RowsDone(packed[..], f, l, U, row + 1) && RowsDone(packed[..], f, l, V, row + 1)
  {
    hide PlaceAt, PlaceByte, RowsDone, IsRowPacked;
    ghost var before := packed[..];
    PackRow(packed, f, l, U, row);
    ghost var between := packed[..];
    PackRow(packed, f, l, V, row);
    ghost var after := packed[..];
    OneMoreRow(before, between, f, l, U, row);
    OtherRowsKept(before, between, f, l, U, row, V, row);
    OtherRowsKept(before, between, f, l, U, row, Y, HEIGHT);
    OneMoreRow(between, after, f, l, V, row);
    OtherRowsKept(between, after, f, l, V, row, U, row + 1);
    OtherRowsKept(between, after, f, l, V, row, Y, HEIGHT);
  }

  /** One row of one plane has been written, and nothing else. */
  ghost predicate IsRowPacked(was: Bytes, now: Bytes, f: Frame, l: Layout, c: Component, row: nat) {
    var start := Offset(l, c) + row * Stride(l, c);
    && |was| == |now|
    && forall i: nat | i < |now| ::
         now[i] == if start <= i < start + Stride(l, c) then PlaceByte(f, Place(c, row, i - start)) else was[i]
  }

  /** Copies one row of pixels and clears the rest of the stride. */
  method PackRow(packed: array<byte>, f: Frame, l: Layout, c: Component, row: nat)
    requires ValidFrame(f) && ValidLayout(l) && packed.Length == l.packedFrameSize && row < Rows(c)
    modifies packed
    ensures IsRowPacked(old(packed[..]), packed[..], f, l, c, row)
  {
    hide IsFilled, IsRowPacked;
    ghost var was := packed[..];
    var start := Offset(l, c) + row * Stride(l, c);
    RowInside(l, c, row);
    FillRow(packed, PlaneOf(f, c), row, start, Width(c), Stride(l, c));
    FilledIsPacked(was, packed[..], f, l, c, row, start);
  }

  ghost predicate IsFilled(was: Bytes, now: Bytes, plane: Plane, row: nat, start: nat, width: nat, stride: nat) {
    && |was| == |now|
    && forall i: nat | i < |now| ::
         now[i] == if start <= i < start + width then Pixel(plane, row, i - start)
                   else if start <= i < start + stride then 0 else was[i]
  }

  lemma FilledIsPacked(was: Bytes, now: Bytes, f: Frame, l: Layout, c: Component, row: nat, start: nat)
    requires start == Offset(l, c) + row * Stride(l, c) && Width(c) <= Stride(l, c)
    requires IsFilled(was, now, PlaneOf(f, c), row, start, Width(c), Stride(l, c))
    ensures IsRowPacked(was, now, f, l, c, row)
  {
    hide Offset, Stride, Pixel;
  }

  lemma RowInside(l: Layout, c: Component, row: nat)
    requires ValidLayout(l) && row < Rows(c)
    ensures Width(c) <= Stride(l, c) && Offset(l, c) + row * Stride(l, c) + Stride(l, c) <= l.packedFrameSize
  {
    RowsFit(0, row, Rows(c), Stride(l, c));
    PlanesAreApart(l, c);
  }

  method FillRow(packed: array<byte>, plane: Plane, row: nat, start: nat, width: nat, stride: nat)
    requires width <= stride && start + stride <= packed.Length
    modifies packed
    ensures IsFilled(old(packed[..]), packed[..], plane, row, start, width, stride)
  {
    hide Pixel;
    forall i | start <= i < start + width {
      packed[i] := Pixel(plane, row, i - start);
    }
    if stride > width {
      forall i | start + width <= i < start + stride {
        packed[i] := 0;
      }
    }
  }

  lemma OneMoreRow(was: Bytes, now: Bytes, f: Frame, l: Layout, c: Component, row: nat)
    requires ValidLayout(l) && row < Rows(c) && |was| == l.packedFrameSize
    requires IsRowPacked(was, now, f, l, c, row) && RowsDone(was, f, l, c, row)
    ensures RowsDone(now, f, l, c, row + 1)
  {
    PlacesOfRow(l, c, row);
    hide PlaceAt, Offset, PlaceByte, Stride, ValidLayout;
  }

  lemma OtherRowsKept(was: Bytes, now: Bytes, f: Frame, l: Layout, c: Component, row: nat, d: Component, rows: nat)
    requires ValidLayout(l) && row < Rows(c) && |was| == l.packedFrameSize && c != d
    requires IsRowPacked(was, now, f, l, c, row) && RowsDone(was, f, l, d, rows)
    ensures RowsDone(now, f, l, d, rows)
  {
    PlacesOfRow(l, c, row);
    hide PlaceAt, Offset, PlaceByte, Stride, ValidLayout;
  }

  lemma PlacesOfRow(l: Layout, c: Component, row: nat)
    requires ValidLayout(l) && row < Rows(c)
    ensures var start := Offset(l, c) + row * Stride(l, c);
            && start + Stride(l, c) <= l.packedFrameSize
            && forall i: nat {:trigger PlaceAt(l, i)} ::
                 if start <= i < start + Stride(l, c) then PlaceAt(l, i) == Place(c, row, i - start)
                 else i < l.packedFrameSize ==> PlaceAt(l, i).component != c || PlaceAt(l, i).row != row
  {
    forall i: nat
      ensures var start := Offset(l, c) + row * Stride(l, c);
              if start <= i < start + Stride(l, c) then PlaceAt(l, i) == Place(c, row, i - start)
              else i < l.packedFrameSize ==> PlaceAt(l, i).component != c || PlaceAt(l, i).row != row
    {
      PlaceInRow(l, c, row, i);
    }
    RowsFit(0, row, Rows(c), Stride(l, c));
    PlanesAreApart(l, c);
  }

  lemma PlaceInRow(l: Layout, c: Component, row: nat, i: nat)
    requires ValidLayout(l) && row < Rows(c)
    ensures var start := Offset(l, c) + row * Stride(l, c);
            if start <= i < start + Stride(l, c) then PlaceAt(l, i) == Place(c, row, i - start)
            else i < l.packedFrameSize ==> PlaceAt(l, i).component != c || PlaceAt(l, i).row != row
  {
    hide PlaceAt, Offset, ComponentAt;
    var start := Offset(l, c) + row * Stride(l, c);
    if start <= i < start + Stride(l, c) {
      PlaceHasOneIndex(l, Place(c, row, i - start));
    } else if i < l.packedFrameSize {
      IndexHasOnePlace(l, i);
    }
  }

  /** A reader that knows the layout finds every pixel of every plane, and zeros as padding. */
  lemma UnpackingRecovers(packed: Bytes, f: Frame, l: Layout, c: Component, row: nat, column: nat)
    requires ValidLayout(l) && |packed| == l.packedFrameSize && row < Rows(c) && column < Stride(l, c)
    requires forall i: nat | i < |packed| :: packed[i] == PlaceByte(f, PlaceAt(l, i))
    ensures Index(l, Place(c, row, column)) < |packed|
    ensures packed[Index(l, Place(c, row, column))] ==
              if column < Width(c) then Pixel(PlaneOf(f, c), row, column) else 0
  {
    PlaceHasOneIndex(l, Place(c, row, column));
  }

  /** The octet at index k is this pixel of the plane, or the zero behind its row. */
  predicate IsPixel(packed: Bytes, k: nat, p: Plane, width: nat, row: nat, column: nat) {
    && k < |packed|
    && if column < width then
         row * p.linesize + column < |p.data| && packed[k] == p.data[row * p.linesize + column]
       else packed[k] == 0
  }

  /** The place of the three planes in what is written: all of Y, then all of U, then all of V, padded with zeros. */
  lemma PlanesInOrder(packed: Bytes, f: Frame, l: Layout, row: nat, column: nat)
    requires ValidLayout(l) && |packed| == l.packedFrameSize && ValidFrame(f)
    requires forall i: nat | i < |packed| :: packed[i] == PlaceByte(f, PlaceAt(l, i))
    ensures row < 480 && column < l.yStride ==>
              IsPixel(packed, row * l.yStride + column, f.y, 640, row, column)
    ensures row < 240 && column < l.chromaStride ==>
              && IsPixel(packed, 480 * l.yStride + row * l.chromaStride + column, f.u, 320, row, column)
              && IsPixel(packed, 480 * l.yStride + 240 * l.chromaStride + row * l.chromaStride + column, f.v, 320,
                         row, column)
  {
    hide PlaceAt, PlaceByte, ValidPlane, IsPixel, Index;
    if row < 480 && column < l.yStride {
      PixelFound(packed, f, l, Y, row, column);
      IndexOf(l, Y, row, column);
    }
    if row < 240 && column < l.chromaStride {
      PixelFound(packed, f, l, U, row, column);
      PixelFound(packed, f, l, V, row, column);
      IndexOf(l, U, row, column);
      IndexOf(l, V, row, column);
    }
  }

  lemma PixelFound(packed: Bytes, f: Frame, l: Layout, c: Component, row: nat, column: nat)
    requires ValidLayout(l) && |packed| == l.packedFrameSize && ValidFrame(f) && row < Rows(c) && column < Stride(l, c)
    requires forall i: nat | i < |packed| :: packed[i] == PlaceByte(f, PlaceAt(l, i))
    ensures IsPixel(packed, Index(l, Place(c, row, column)), PlaneOf(f, c), Width(c), row, column)
  {
    UnpackingRecovers(packed, f, l, c, row, column);
    PixelInside(PlaneOf(f, c), Rows(c), Width(c), row, column);
    hide PlaceAt, PlaceByte, ValidPlane, Index;
  }

  lemma IndexOf(l: Layout, c: Component, row: nat, column: nat)
    ensures var inside := row * Stride(l, c) + column;
            Index(l, Place(c, row, column)) ==
              match c
              case Y => inside
              case U => 480 * l.yStride + inside
              case V => 480 * l.yStride + 240 * l.chromaStride + inside
  {
  }

  lemma PixelInside(p: Plane, rows: nat, width: nat, row: nat, column: nat)
    requires ValidPlane(p, rows, width) && row < rows
    ensures column < width ==> row * p.linesize + column < |p.data|
  {
    RowsFit(0, row, rows, p.linesize);
  }
}
