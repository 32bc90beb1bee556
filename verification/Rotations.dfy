// What a rotation does to the drawing calls of graphics.cpp: the same cells as an unrotated call on the turned
// rectangle, and, without rotation, which cell of the data becomes what.
module Rotations {
  import opened Bytes
  import opened IndexMath
  import opened PixelGeometry
  import opened Minui

  type Brush = (int, int, word) -> word

  function Upright(g: Geometry): Geometry { g.(rot := RotNone) }

  // ----- Turning rectangles -----

  /** Pixel (x, y), if it is one of r, is a pixel of s in the same cell, changed alike. */
  ghost predicate HasTwin(g: Geometry, r: Rect, f: Brush, g': Geometry, s: Rect, h: Brush, x: int, y: int) {
    InRect(r, x, y) ==> exists u, v :: InRect(s, u, v) && SameCell(g, f, x, y, g', h, u, v)
  }

  ghost predicate CarriedOver(g: Geometry, r: Rect, f: Brush, g': Geometry, s: Rect, h: Brush) {
    forall x, y :: HasTwin(g, r, f, g', s, h, x, y)
  }

  ghost predicate SameCell(g: Geometry, f: Brush, x: int, y: int, g': Geometry, h: Brush, u: int, v: int) {
    PixelAt(g, x, y) == PixelAt(g', u, v) && forall p :: f(x, y, p) == h(u, v, p)
  }

  lemma CoveredAlike(g: Geometry, r: Rect, f: Brush, g': Geometry, s: Rect, h: Brush, k: int)
    requires CarriedOver(g, r, f, g', s, h)
    ensures Covered(g, r, k) ==> Covered(g', s, k)
  {
    if Covered(g, r, k) {
      var x, y :| InRect(r, x, y) && PixelAt(g, x, y) == k;
      assert HasTwin(g, r, f, g', s, h, x, y);
      var u, v :| InRect(s, u, v) && SameCell(g, f, x, y, g', h, u, v);
    }
  }

  /** The same cells, changed alike: painting one is painting the other. */
  lemma PaintedAlike(g: Geometry, r: Rect, f: Brush, g': Geometry, s: Rect, h: Brush, a: seq<word>, b: seq<word>)
    requires CarriedOver(g, r, f, g', s, h) && CarriedOver(g', s, h, g, r, f)
    requires Painted(g, r, f, a, b)
    ensures Painted(g', s, h, a, b)
  {
    forall u, v | InRect(s, u, v)
      ensures 0 <= PixelAt(g', u, v) < |a| && b[PixelAt(g', u, v)] == h(u, v, a[PixelAt(g', u, v)])
    {
      assert HasTwin(g', s, h, g, r, f, u, v);
      var x, y :| InRect(r, x, y) && SameCell(g', h, u, v, g, f, x, y);
    }
    forall k | 0 <= k < |a| && !Covered(g', s, k) ensures b[k] == a[k] { CoveredAlike(g, r, f, g', s, h, k); }
  }

  /** Upside down: the rectangle turned by half, each pixel taken from the opposite end. */
  lemma DownTurns(g: Geometry, r: Rect, f: Brush, h: Brush, a: seq<word>, b: seq<word>)
    requires g.rot.RotDown? && forall x, y, p :: f(x, y, p) == h(g.width - 1 - x, g.height - 1 - y, p)
    ensures Painted(g, r, f, a, b) <==>
            Painted(Upright(g), Rect(g.width - r.x2, g.height - r.y2, g.width - r.x1, g.height - r.y1), h, a, b)
  {
    var s := Rect(g.width - r.x2, g.height - r.y2, g.width - r.x1, g.height - r.y1);
    forall x, y ensures HasTwin(g, r, f, Upright(g), s, h, x, y) {
      var u, v := g.width - 1 - x, g.height - 1 - y;
      assert InRect(r, x, y) ==> InRect(s, u, v) && SameCell(g, f, x, y, Upright(g), h, u, v);
    }
    forall u, v ensures HasTwin(Upright(g), s, h, g, r, f, u, v) {
      var x, y := g.width - 1 - u, g.height - 1 - v;
      assert InRect(s, u, v) ==> InRect(r, x, y) && SameCell(Upright(g), h, u, v, g, f, x, y);
    }
    if Painted(g, r, f, a, b) { PaintedAlike(g, r, f, Upright(g), s, h, a, b); }
    if Painted(Upright(g), s, h, a, b) { PaintedAlike(Upright(g), s, h, g, r, f, a, b); }
  }

  /** A quarter turn to the left: a row becomes a column, from the bottom up. */
  lemma LeftTurns(g: Geometry, r: Rect, f: Brush, h: Brush, a: seq<word>, b: seq<word>)
    requires g.rot.RotLeft? && forall x, y, p :: f(x, y, p) == h(y, g.height - 1 - x, p)
    ensures Painted(g, r, f, a, b) <==>
            Painted(Upright(g), Rect(r.y1, g.height - r.x2, r.y2, g.height - r.x1), h, a, b)
  {
    var s := Rect(r.y1, g.height - r.x2, r.y2, g.height - r.x1);
    forall x, y ensures HasTwin(g, r, f, Upright(g), s, h, x, y) {
      var u, v := y, g.height - 1 - x;
      assert InRect(r, x, y) ==> InRect(s, u, v) && SameCell(g, f, x, y, Upright(g), h, u, v);
    }
    forall u, v ensures HasTwin(Upright(g), s, h, g, r, f, u, v) {
      var x, y := g.height - 1 - v, u;
      assert InRect(s, u, v) ==> InRect(r, x, y) && SameCell(Upright(g), h, u, v, g, f, x, y);
    }
    if Painted(g, r, f, a, b) { PaintedAlike(g, r, f, Upright(g), s, h, a, b); }
    if Painted(Upright(g), s, h, a, b) { PaintedAlike(Upright(g), s, h, g, r, f, a, b); }
  }

  /** A quarter turn to the right: a row becomes a column, from the top down, one column further than the screen. */
  lemma RightTurns(g: Geometry, r: Rect, f: Brush, h: Brush, a: seq<word>, b: seq<word>)
    requires g.rot.RotRight? && forall x, y, p :: f(x, y, p) == h(g.width - y, x, p)
    ensures Painted(g, r, f, a, b) <==>
            Painted(Upright(g), Rect(g.width - r.y2 + 1, r.x1, g.width - r.y1 + 1, r.x2), h, a, b)
  {
    var s := Rect(g.width - r.y2 + 1, r.x1, g.width - r.y1 + 1, r.x2);
    forall x, y ensures HasTwin(g, r, f, Upright(g), s, h, x, y) {
      var u, v := g.width - y, x;
      assert InRect(r, x, y) ==> InRect(s, u, v) && SameCell(g, f, x, y, Upright(g), h, u, v);
    }
    forall u, v ensures HasTwin(Upright(g), s, h, g, r, f, u, v) {
      var x, y := v, g.width - u;
      assert InRect(s, u, v) ==> InRect(r, x, y) && SameCell(Upright(g), h, u, v, g, f, x, y);
    }
    if Painted(g, r, f, a, b) { PaintedAlike(g, r, f, Upright(g), s, h, a, b); }
    if Painted(Upright(g), s, h, a, b) { PaintedAlike(Upright(g), s, h, g, r, f, a, b); }
  }

  /** What is painted is determined by what was there. */
  lemma PaintedOnce(g: Geometry, r: Rect, f: Brush, a: seq<word>, b: seq<word>, b': seq<word>)
    requires Painted(g, r, f, a, b) && Painted(g, r, f, a, b')
    ensures b == b'
  {
    forall k | 0 <= k < |a| ensures b[k] == b'[k] {
      if Covered(g, r, k) {
        var x, y :| InRect(r, x, y) && PixelAt(g, x, y) == k;
      }
    }
  }

  /** So filling a rectangle under a rotation leaves the same data as filling the turned one without. */
  lemma FillDown(g: Geometry, r: Rect, current: word, a: seq<word>, b: seq<word>, b': seq<word>)
    requires g.rot.RotDown? && Painted(g, r, FilledMean(current), a, b)
    requires Painted(Upright(g), Rect(g.width - r.x2, g.height - r.y2, g.width - r.x1, g.height - r.y1),
                     FilledMean(current), a, b')
    ensures b == b'
  {
    var s := Rect(g.width - r.x2, g.height - r.y2, g.width - r.x1, g.height - r.y1);
    DownTurns(g, r, FilledMean(current), FilledMean(current), a, b);
    PaintedOnce(Upright(g), s, FilledMean(current), a, b, b');
  }

  lemma FillLeft(g: Geometry, r: Rect, current: word, a: seq<word>, b: seq<word>, b': seq<word>)
    requires g.rot.RotLeft? && Painted(g, r, FilledMean(current), a, b)
    requires Painted(Upright(g), Rect(r.y1, g.height - r.x2, r.y2, g.height - r.x1), FilledMean(current), a, b')
    ensures b == b'
  {
    var s := Rect(r.y1, g.height - r.x2, r.y2, g.height - r.x1);
    LeftTurns(g, r, FilledMean(current), FilledMean(current), a, b);
    PaintedOnce(Upright(g), s, FilledMean(current), a, b, b');
  }

  lemma FillRight(g: Geometry, r: Rect, current: word, a: seq<word>, b: seq<word>, b': seq<word>)
    requires g.rot.RotRight? && Painted(g, r, FilledMean(current), a, b)
    requires Painted(Upright(g), Rect(g.width - r.y2 + 1, r.x1, g.width - r.y1 + 1, r.x2), FilledMean(current), a, b')
    ensures b == b'
  {
    var s := Rect(g.width - r.y2 + 1, r.x1, g.width - r.y1 + 1, r.x2);
    RightTurns(g, r, FilledMean(current), FilledMean(current), a, b);
    PaintedOnce(Upright(g), s, FilledMean(current), a, b, b');
  }

  /** The screen turns into the surface, under ROTATION_RIGHT one column further. */
  lemma ScreenTurns(g: Geometry, x: int, y: int)
    ensures g.rot.RotNone? ==> (!Outside(g, x, y) <==> 0 <= x < g.width && 0 <= y < g.height)
    ensures g.rot.RotDown? ==> (!Outside(g, x, y) <==> !Outside(Upright(g), g.width - 1 - x, g.height - 1 - y))
    ensures g.rot.RotLeft? ==> (!Outside(g, x, y) <==> !Outside(Upright(g), y, g.height - 1 - x))
    ensures g.rot.RotRight? ==> (!Outside(g, x, y) <==> !Outside(Upright(g), g.width - y - 1, x))
  {
  }

  // ----- Which cell becomes what -----

  /** The cell in that row and column of the data, without rotation. */
  lemma UprightCell(g: Geometry, r: Rect, f: Brush, a: seq<word>, b: seq<word>, row: nat, column: nat)
    requires g.rot.RotNone? && g.row >= g.width && OnScreen(g, r) && Painted(g, r, f, a, b)
    requires column < g.row && row * g.row + column < |a|
    ensures b[row * g.row + column] ==
            if InRect(r, column, row) then f(column, row, a[row * g.row + column]) else a[row * g.row + column]
  {
    var k := row * g.row + column;
    assert PixelAt(g, column, row) == k;
    if !InRect(r, column, row) && Covered(g, r, k) {
      var x, y :| InRect(r, x, y) && PixelAt(g, x, y) == k;
      RowMajorInjective(y, x, row, column, g.row);
    }
  }

  /** Each colour channel of q is the mean of those of p and of the colour, weighted with alpha and rounded down; the
      top byte is the colour's. */
  predicate IsBlend(q: word, p: word, colour: word, alpha: byte) {
    && q % 256 == (p % 256 * (255 - alpha) + colour % 256 * alpha) / 255
    && q / 256 % 256 == (p / 256 % 256 * (255 - alpha) + colour / 256 % 256 * alpha) / 255
    && q / 65536 % 256 == (p / 65536 % 256 * (255 - alpha) + colour / 65536 % 256 * alpha) / 255
    && q / 16777216 == colour / 16777216
  }

  lemma BlendedIsBlend(colour: word, alpha: byte, p: word)
    ensures alpha > 0 ==> IsBlend(Blended(colour, alpha, p), p, colour, alpha)
    ensures alpha == 0 ==> Blended(colour, alpha, p) == p
  {
    ChannelsOfPack(Mean(Red(p), Red(colour), alpha), Mean(Green(p), Green(colour), alpha),
                   Mean(Blue(p), Blue(colour), alpha), Alpha(colour));
  }

  lemma ChannelsOfPack(r: byte, g: byte, b: byte, a: byte)
    ensures var w := Pack(r, g, b, a); w % 256 == r && w / 256 % 256 == g && w / 65536 % 256 == b && w / 16777216 == a
  {
    var y := 256 * a + b;
    var x := 256 * y + g;
    var w := 256 * x + r;
    LowByte(x, r);
    LowByte(y, g);
    LowByte(a, b);
    FurtherBytes(w);
    assert Pack(r, g, b, a) == w && w / 256 == x && x / 256 == y && y / 256 == a;
  }

  lemma FurtherBytes(w: nat)
    ensures w / 65536 == w / 256 / 256 && w / 16777216 == w / 256 / 256 / 256
  {
  }

  lemma LowByte(high: nat, low: byte)
    ensures (256 * high + low) % 256 == low && (256 * high + low) / 256 == high
  {
  }

  /** gr_fill without rotation: the cells of the rectangle are blended with the colour under its own alpha. */
  lemma FillCells(g: Geometry, r: Rect, colour: word, a: seq<word>, b: seq<word>, row: nat, column: nat)
    requires g.rot.RotNone? && g.row >= g.width && OnScreen(g, r) && Painted(g, r, FilledMean(colour), a, b)
    requires column < g.row && row * g.row + column < |a|
    ensures var k := row * g.row + column;
            if r.x1 <= column < r.x2 && r.y1 <= row < r.y2 && colour / 16777216 > 0
            then IsBlend(b[k], a[k], colour, colour / 16777216) else b[k] == a[k]
  {
    UprightCell(g, r, FilledMean(colour), a, b, row, column);
    BlendedIsBlend(colour, Alpha(colour), a[row * g.row + column]);
  }

  /** gr_texticon without rotation: under the glyph byte at the same place, weakened by the colour's alpha. */
  lemma GlyphCells(g: Geometry, r: Rect, colour: word, icon: seq<byte>, iconRow: nat, a: seq<word>, b: seq<word>,
                   row: nat, column: nat)
    requires g.rot.RotNone? && g.row >= g.width && OnScreen(g, r)
    requires Painted(g, r, Stencilling(icon, iconRow, colour, r.x1, r.y1), a, b)
    requires column < g.row && row * g.row + column < |a|
    requires InRect(r, column, row) ==> 0 <= (row - r.y1) * iconRow + (column - r.x1) < |icon|
    ensures var k := row * g.row + column;
            if r.x1 <= column < r.x2 && r.y1 <= row < r.y2
            then var alpha := icon[(row - r.y1) * iconRow + (column - r.x1)] * (colour / 16777216) / 255;
                 if alpha > 0 then alpha < 256 && IsBlend(b[k], a[k], colour, alpha) else b[k] == a[k]
            else b[k] == a[k]
  {
    UprightCell(g, r, Stencilling(icon, iconRow, colour, r.x1, r.y1), a, b, row, column);
    if InRect(r, column, row) {
      var byte := icon[(row - r.y1) * iconRow + (column - r.x1)];
      MulMono(byte, 255, Alpha(colour));
      BlendIsMean(colour, GlyphAlpha(colour, byte), a[row * g.row + column]);
      BlendedIsBlend(colour, GlyphAlpha(colour, byte), a[row * g.row + column]);
    }
  }

  /** gr_blit without rotation: the source pixel that lies as far from (sx, sy) as the cell from the corner. */
  lemma BlitCells(g: Geometry, r: Rect, src: seq<word>, srcRow: nat, sx: nat, sy: nat, a: seq<word>, b: seq<word>,
                  row: nat, column: nat)
    requires g.rot.RotNone? && g.row >= g.width && OnScreen(g, r)
    requires Painted(g, r, Copying(src, srcRow, sx, sy, r.x1, r.y1), a, b)
    requires column < g.row && row * g.row + column < |a|
    requires InRect(r, column, row) ==> 0 <= (sy + row - r.y1) * srcRow + (sx + column - r.x1) < |src|
    ensures var k := row * g.row + column;
            b[k] == if r.x1 <= column < r.x2 && r.y1 <= row < r.y2
                    then src[(sy + row - r.y1) * srcRow + (sx + column - r.x1)] else a[k]
  {
    UprightCell(g, r, Copying(src, srcRow, sx, sy, r.x1, r.y1), a, b, row, column);
    assert sy + (row - r.y1) == sy + row - r.y1;
  }

  /** A rectangle with pixels is drawn exactly when it lies on the screen, whose sides a quarter turn exchanges, after
      the overscan has moved it. */
  lemma AcceptedIff(gr: Graphics, x1: int, y1: int, x2: int, y2: int)
    requires x1 < x2 && y1 < y2
    ensures var w := if gr.rotation.RotNone? || gr.rotation.RotDown? then gr.draw.width else gr.draw.height;
            var h := if gr.rotation.RotNone? || gr.rotation.RotDown? then gr.draw.height else gr.draw.width;
            var s := gr.Shifted(x1, y1, x2, y2);
            && s == Rect(x1 + gr.overscanX, y1 + gr.overscanY, x2 + gr.overscanX, y2 + gr.overscanY)
            && (gr.Accepted(s) <==> 0 <= s.x1 && s.x2 <= w && 0 <= s.y1 && s.y2 <= h)
  {
  }
}
