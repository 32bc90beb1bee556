// Model of the pointer arithmetic in graphics.cpp: where a logical pixel lies under
// each rotation, how the pixel pointer steps, and what painting a rectangle means.
module PixelGeometry {
  import opened IndexMath

  datatype Rotation = RotNone | RotRight | RotDown | RotLeft

  /** A surface of width x height pixels with `row` pixels from one row to the next. */
  datatype Geometry = Geometry(rot: Rotation, width: int, height: int, row: int)

  predicate Sideways(rot: Rotation) { rot.RotRight? || rot.RotLeft? }

  function LogicalWidth(g: Geometry): int { if Sideways(g.rot) then g.height else g.width }

  function LogicalHeight(g: Geometry): int { if Sideways(g.rot) then g.width else g.height }

  predicate Outside(g: Geometry, x: int, y: int) {
    x < 0 || x >= LogicalWidth(g) || y < 0 || y >= LogicalHeight(g)
  }

  /** The offset of a logical pixel from the start of the data, in pixels. */
  function PixelAt(g: Geometry, x: int, y: int): int {
    match g.rot
    case RotNone => y * g.row + x
    case RotRight => x * g.row + (g.width - y)
    case RotDown => (g.height - 1 - y) * g.row + (g.width - 1 - x)
    case RotLeft => (g.height - 1 - x) * g.row + y
  }

  function IncrX(g: Geometry, p: int): int {
    if Sideways(g.rot) then p + (if g.rot.RotRight? then 1 else -1) * g.row
    else p + if g.rot.RotNone? then 1 else -1
  }

  function IncrY(g: Geometry, p: int): int {
    if Sideways(g.rot) then p + if g.rot.RotRight? then -1 else 1
    else p + (if g.rot.RotNone? then 1 else -1) * g.row
  }

  /** Stepping the pointer agrees with stepping the coordinates, for all four rotations. */
  lemma SteppingAgrees(g: Geometry, x: int, y: int)
    ensures IncrX(g, PixelAt(g, x, y)) == PixelAt(g, x + 1, y)
    ensures IncrY(g, PixelAt(g, x, y)) == PixelAt(g, x, y + 1)
  {
    match g.rot
    case RotNone => assert (y + 1) * g.row == y * g.row + g.row;
    case RotRight => assert (x + 1) * g.row == x * g.row + g.row;
    case RotDown => assert (g.height - 1 - y) * g.row == (g.height - 1 - (y + 1)) * g.row + g.row;
    case RotLeft => assert (g.height - 1 - x) * g.row == (g.height - 1 - (x + 1)) * g.row + g.row;
  }

  /** Row and column of the memory cell of a logical pixel. */
  function CellRow(g: Geometry, x: int, y: int): int {
    match g.rot
    case RotNone => y
    case RotRight => x
    case RotDown => g.height - 1 - y
    case RotLeft => g.height - 1 - x
  }

  function CellColumn(g: Geometry, x: int, y: int): int {
    match g.rot
    case RotNone => x
    case RotRight => g.width - y
    case RotDown => g.width - 1 - x
    case RotLeft => y
  }

  /** Distinct pixels of the screen have distinct cells. */
  lemma PixelsAreDistinct(g: Geometry, x: int, y: int, u: int, v: int)
    requires g.row >= g.width && !Outside(g, x, y) && !Outside(g, u, v)
    requires PixelAt(g, x, y) == PixelAt(g, u, v)
    ensures x == u && y == v
  {
    RowMajorInjective(CellRow(g, x, y), CellColumn(g, x, y), CellRow(g, u, v), CellColumn(g, u, v), g.row);
  }

  /** The rows leave room for the pixels as this rotation places them: ROTATION_RIGHT uses the columns
      1..width instead of 0..width-1. */
  predicate Roomy(g: Geometry) {
    g.row >= g.width && (g.rot.RotRight? ==> g.row > g.width)
  }

  lemma PixelInBounds(g: Geometry, x: int, y: int)
    requires Roomy(g) && !Outside(g, x, y)
    ensures 0 <= PixelAt(g, x, y) < g.height * g.row
  {
    RowMajorInBounds(CellRow(g, x, y), CellColumn(g, x, y), g.height, g.row);
  }

  ghost predicate InBounds(g: Geometry, x: int, y: int) {
    0 <= PixelAt(g, x, y) < g.height * g.row
  }

  /** Every pixel of a non-empty screen lies inside the data exactly when the geometry is roomy. */
  lemma AllInBoundsIffRoomy(g: Geometry)
    requires g.width > 0 && g.height > 0
    ensures (forall x, y :: !Outside(g, x, y) ==> InBounds(g, x, y)) <==> Roomy(g)
  {
    if Roomy(g) {
      forall x, y | !Outside(g, x, y) ensures InBounds(g, x, y) {
        PixelInBounds(g, x, y);
      }
    } else {
      assert (g.height - 1) * g.row + g.row == g.height * g.row;
      match g.rot
      case RotNone => assert !Outside(g, g.width - 1, g.height - 1) && !InBounds(g, g.width - 1, g.height - 1);
      case RotRight => assert !Outside(g, g.height - 1, 0) && !InBounds(g, g.height - 1, 0);
      case RotDown => assert !Outside(g, 0, 0) && !InBounds(g, 0, 0);
      case RotLeft => assert !Outside(g, 0, g.width - 1) && !InBounds(g, 0, g.width - 1);
    }
  }

  // ----- Painting rectangles -----

  /** The logical pixels with x1 <= x < x2 and y1 <= y < y2. */
  datatype Rect = Rect(x1: int, y1: int, x2: int, y2: int)

  predicate InRect(r: Rect, x: int, y: int) {
    r.x1 <= x < r.x2 && r.y1 <= y < r.y2
  }

  ghost predicate OnScreen(g: Geometry, r: Rect) {
    forall x, y :: InRect(r, x, y) ==> !Outside(g, x, y)
  }

  ghost predicate RectInBounds(g: Geometry, r: Rect) {
    forall x, y :: InRect(r, x, y) ==> InBounds(g, x, y)
  }

  /** With rows of at least `width` pixels the one pixel that can lie outside the data is (height - 1, 0), under
      ROTATION_RIGHT with rows of exactly `width` pixels. */
  lemma RectInBoundsIff(g: Geometry, r: Rect)
    requires g.row >= g.width && OnScreen(g, r)
    ensures RectInBounds(g, r) <==> Roomy(g) || !InRect(r, g.height - 1, 0)
  {
    if Roomy(g) || !InRect(r, g.height - 1, 0) {
      forall x, y | InRect(r, x, y) ensures InBounds(g, x, y) {
        if Roomy(g) { PixelInBounds(g, x, y); } else { TightPixelInBounds(g, x, y); }
      }
    } else {
      assert (g.height - 1) * g.row + g.row == g.height * g.row;
      assert !InBounds(g, g.height - 1, 0);
    }
  }

  lemma TightPixelInBounds(g: Geometry, x: int, y: int)
    requires g.rot.RotRight? && g.row == g.width && !Outside(g, x, y) && !(x == g.height - 1 && y == 0)
    ensures InBounds(g, x, y)
  {
    if y > 0 {
      RowMajorInBounds(x, g.width - y, g.height, g.row);
    } else {
      RowMajorInBounds(x + 1, 0, g.height, g.row);
      assert (x + 1) * g.row == x * g.row + g.row;
    }
  }

  lemma CornersOnScreen(g: Geometry, r: Rect)
    requires !Outside(g, r.x1, r.y1) && !Outside(g, r.x2 - 1, r.y2 - 1)
    ensures OnScreen(g, r)
  {
  }

  ghost predicate Covered(g: Geometry, r: Rect, k: int) {
    exists x, y :: InRect(r, x, y) && PixelAt(g, x, y) == k
  }

  /** From a to b exactly the cells of r's pixels change, each by f at its coordinates. */
  ghost predicate Painted<P>(g: Geometry, r: Rect, f: (int, int, P) -> P, a: seq<P>, b: seq<P>) {
    && |a| == |b|
    && (forall x, y :: InRect(r, x, y) ==> 0 <= PixelAt(g, x, y) < |a|)
    && (forall x, y :: InRect(r, x, y) ==> b[PixelAt(g, x, y)] == f(x, y, a[PixelAt(g, x, y)]))
    && (forall k :: 0 <= k < |a| && !Covered(g, r, k) ==> b[k] == a[k])
  }

  lemma PaintNothing<P>(g: Geometry, r: Rect, f: (int, int, P) -> P, a: seq<P>)
    requires r.x1 >= r.x2 || r.y1 >= r.y2
    ensures Painted(g, r, f, a, a)
  {
  }

  lemma PaintPixel<P>(g: Geometry, x: int, y: int, f: (int, int, P) -> P, a: seq<P>)
    requires 0 <= PixelAt(g, x, y) < |a|
    ensures Painted(g, Rect(x, y, x + 1, y + 1), f, a, a[PixelAt(g, x, y) := f(x, y, a[PixelAt(g, x, y)])])
  {
    assert InRect(Rect(x, y, x + 1, y + 1), x, y);
    assert Covered(g, Rect(x, y, x + 1, y + 1), PixelAt(g, x, y));
  }

  /** Painting two disjoint rectangles one after the other paints their union. */
  lemma PaintBoth<P>(g: Geometry, r: Rect, s: Rect, t: Rect, f: (int, int, P) -> P, a: seq<P>, b: seq<P>, c: seq<P>)
    requires g.row >= g.width && OnScreen(g, t)
    requires forall x, y :: InRect(t, x, y) <==> InRect(r, x, y) || InRect(s, x, y)
    requires forall x, y :: !(InRect(r, x, y) && InRect(s, x, y))
    requires Painted(g, r, f, a, b) && Painted(g, s, f, b, c)
    ensures Painted(g, t, f, a, c)
  {
    forall x, y | InRect(t, x, y) ensures c[PixelAt(g, x, y)] == f(x, y, a[PixelAt(g, x, y)]) {
      if InRect(r, x, y) {
        NotCovered(g, r, s, t, x, y);
      } else {
        NotCovered(g, s, r, t, x, y);
      }
    }
    forall k | 0 <= k < |a| && !Covered(g, t, k) ensures c[k] == a[k] {
      CoveredByLarger(g, r, t, k);
      CoveredByLarger(g, s, t, k);
    }
  }

  lemma CoveredByLarger(g: Geometry, r: Rect, t: Rect, k: int)
    requires forall x, y :: InRect(r, x, y) ==> InRect(t, x, y)
    ensures Covered(g, r, k) ==> Covered(g, t, k)
  {
    if Covered(g, r, k) {
      var x, y :| InRect(r, x, y) && PixelAt(g, x, y) == k;
      assert InRect(t, x, y);
    }
  }

  lemma NotCovered(g: Geometry, r: Rect, s: Rect, t: Rect, x: int, y: int)
    requires g.row >= g.width && OnScreen(g, t)
    requires InRect(t, x, y) && !InRect(s, x, y)
    requires forall u, v :: InRect(s, u, v) ==> InRect(t, u, v)
    ensures !Covered(g, s, PixelAt(g, x, y))
  {
    if Covered(g, s, PixelAt(g, x, y)) {
      var u, v :| InRect(s, u, v) && PixelAt(g, u, v) == PixelAt(g, x, y);
      PixelsAreDistinct(g, x, y, u, v);
    }
  }

  /** Cells in the padding of a row (for ROTATION_RIGHT, in its first column or beyond column width) belong to no
      pixel. */
  lemma PaddingIsNotCovered(g: Geometry, r: Rect, row: int, column: int)
    requires Roomy(g) && OnScreen(g, r) && 0 <= column < g.row
    requires if g.rot.RotRight? then column == 0 || column > g.width else column >= g.width
    ensures !Covered(g, r, row * g.row + column)
  {
    if Covered(g, r, row * g.row + column) {
      var x, y :| InRect(r, x, y) && PixelAt(g, x, y) == row * g.row + column;
      RowMajorInjective(CellRow(g, x, y), CellColumn(g, x, y), row, column, g.row);
    }
  }

  /** Rectangles with the same pixels are painted the same. */
  lemma SamePixels<P>(g: Geometry, r: Rect, s: Rect, f: (int, int, P) -> P, a: seq<P>, b: seq<P>)
    requires Painted(g, r, f, a, b)
    requires forall x, y :: InRect(r, x, y) <==> InRect(s, x, y)
    ensures Painted(g, s, f, a, b)
  {
    forall k | 0 <= k < |a| && !Covered(g, s, k) ensures b[k] == a[k] {
      CoveredByLarger(g, r, s, k);
    }
  }

  lemma PaintIdentity<P>(g: Geometry, r: Rect, f: (int, int, P) -> P, a: seq<P>)
    requires RectInBounds(g, r) && |a| == g.height * g.row
    requires forall x, y, p :: f(x, y, p) == p
    ensures Painted(g, r, f, a, a)
  {
  }
}
