// Model of the drawing calls in graphics.cpp: colour blending in packed 32-bit words,
// gr_clear, gr_fill, gr_blit and gr_texticon on a pixel buffer changed in place.
module Minui {
  import opened Bytes
  import opened IndexMath
  import opened PixelGeometry

  type word = w: int | 0 <= w < 0x1_0000_0000

  function U32(x: nat): word { x % 0x1_0000_0000 }

  // The channels of a pixel, least significant byte first.

  function Red(w: word): byte { w % 256 }

  function Green(w: word): byte { w / 256 % 256 }

  function Blue(w: word): byte { w / 65536 % 256 }

  function Alpha(w: word): byte { w / 16777216 }

  function Pack(r: byte, g: byte, b: byte, a: byte): word {
    r + 256 * g + 65536 * b + 16777216 * a
  }

  lemma PackUnpack(w: word)
    ensures Pack(Red(w), Green(w), Blue(w), Alpha(w)) == w
  {
    var x, y := w / 256, w / 256 / 256;
    assert w == 256 * x + Red(w) && x == 256 * y + Green(w) && w / 65536 == y;
    assert y == 256 * (y / 256) + Blue(w) && Alpha(w) == y / 256;
  }

  /** A masked channel times a weight. */
  function Weigh(field: nat, weight: byte): nat {
    MulMono(0, field, weight);
    field * weight
  }

  /** One channel of pixel_blend. The channel stays at its place in the word (shift 1, 256 or 65536), each
      product and sum wraps at 32 bits, and the final mask keeps the channel's own eight bits. */
  function BlendChannel(p: byte, c: byte, alpha: byte, shift: nat): byte
    requires shift > 0
  {
    U32(U32(Weigh(shift * p, 255 - alpha)) + U32(Weigh(shift * c, alpha))) / 255 / shift % 256
  }

  /** pixel_blend */
  function PixelBlend(current: word, alpha: byte, pix: word): word {
    if alpha == 255 then current
    else if alpha == 0 then pix
    else Pack(BlendChannel(Red(pix), Red(current), alpha, 1), BlendChannel(Green(pix), Green(current), alpha, 256),
              BlendChannel(Blue(pix), Blue(current), alpha, 65536), Alpha(current))
  }

  /** The alpha-weighted mean of two channel values, rounded down. */
  function Mean(pix: byte, current: byte, alpha: byte): (m: byte)
    ensures pix <= m <= current || current <= m <= pix
  {
    WeightedSum(pix, current, alpha);
    (Weigh(pix, 255 - alpha) + Weigh(current, alpha)) / 255
  }

  lemma WeightedSum(p: byte, c: byte, alpha: byte)
    ensures p <= c ==> 255 * p <= Weigh(p, 255 - alpha) + Weigh(c, alpha) <= 255 * c
    ensures c <= p ==> 255 * c <= Weigh(p, 255 - alpha) + Weigh(c, alpha) <= 255 * p
  {
    assert Weigh(p, 255 - alpha) == 255 * p - p * alpha;
    assert Weigh(c, 255 - alpha) == 255 * c - c * alpha;
    if p <= c {
      MulMono(p, c, alpha);
      MulMono(p, c, 255 - alpha);
    } else {
      MulMono(c, p, alpha);
      MulMono(c, p, 255 - alpha);
    }
  }

  lemma DivShift(x: nat, shift: nat)
    requires shift == 1 || shift == 256 || shift == 65536
    ensures shift * x / 255 / shift == x / 255
  {
    var q, r := x / 255, x % 255;
    assert x == 255 * q + r;
    if shift == 1 {
    } else if shift == 256 {
      assert 256 * x == 255 * (256 * q) + 256 * r;
      assert 256 * x / 255 == 256 * q + 256 * r / 255;
    } else {
      assert 65536 * x == 255 * (65536 * q) + 65536 * r;
      assert 65536 * x / 255 == 65536 * q + 65536 * r / 255;
    }
  }

  lemma WeighShift(p: byte, weight: byte, shift: nat)
    requires shift == 1 || shift == 256 || shift == 65536
    ensures Weigh(shift * p, weight) == shift * Weigh(p, weight)
  {
    if shift == 256 {
      assert (256 * p) * weight == 256 * (p * weight);
    } else if shift == 65536 {
      assert (65536 * p) * weight == 65536 * (p * weight);
    }
  }

  /** No product and no sum wraps: the weighted fields of a channel add up within 32 bits. */
  lemma NoWrap(p: byte, c: byte, alpha: byte, shift: nat)
    requires shift == 1 || shift == 256 || shift == 65536
    ensures Weigh(shift * p, 255 - alpha) + Weigh(shift * c, alpha) == shift * (Weigh(p, 255 - alpha) + Weigh(c, alpha))
    ensures shift * (Weigh(p, 255 - alpha) + Weigh(c, alpha)) < 0x1_0000_0000
  {
    WeighShift(p, 255 - alpha, shift);
    WeighShift(c, alpha, shift);
    WeightedSum(p, c, alpha);
  }

  lemma UnwrappedChannel(a: nat, b: nat, x: nat, shift: nat)
    requires shift == 1 || shift == 256 || shift == 65536
    requires a + b == shift * x < 0x1_0000_0000 && x <= 255 * 255
    ensures U32(U32(a) + U32(b)) / 255 / shift % 256 == x / 255
  {
    SumUnwrapped(a, b);
    DivShift(x, shift);
    assert 0 <= x / 255 < 256;
  }

  lemma SumUnwrapped(a: nat, b: nat)
    requires a + b < 0x1_0000_0000
    ensures U32(U32(a) + U32(b)) == a + b
  {
  }

  /** A channel blended in place in the word gives the mean of the channel. */
  lemma ShiftedMean(p: byte, c: byte, alpha: byte, shift: nat)
    requires shift == 1 || shift == 256 || shift == 65536
    ensures BlendChannel(p, c, alpha, shift) == Mean(p, c, alpha)
  {
    NoWrap(p, c, alpha, shift);
    WeightedSum(p, c, alpha);
    UnwrappedChannel(Weigh(shift * p, 255 - alpha), Weigh(shift * c, alpha), Weigh(p, 255 - alpha) + Weigh(c, alpha),
                     shift);
  }

  lemma MeanAtFullAlpha(p: byte, c: byte)
    ensures Mean(p, c, 255) == c
  {
    assert Weigh(c, 255) == 255 * c && Weigh(p, 0) == 0;
  }

  /** What a pixel becomes: the floor of the weighted mean in each colour channel, the current colour's alpha. */
  function Blended(current: word, alpha: byte, pix: word): word {
    if alpha == 0 then pix
    else Pack(Mean(Red(pix), Red(current), alpha), Mean(Green(pix), Green(current), alpha),
              Mean(Blue(pix), Blue(current), alpha), Alpha(current))
  }

  /** pixel_blend is the channelwise mean, whatever the alpha. */
  lemma BlendIsMean(current: word, alpha: byte, pix: word)
    ensures PixelBlend(current, alpha, pix) == Blended(current, alpha, pix)
  {
    if alpha == 255 {
      PackUnpack(current);
      MeanAtFullAlpha(Red(pix), Red(current));
      MeanAtFullAlpha(Green(pix), Green(current));
      MeanAtFullAlpha(Blue(pix), Blue(current));
    } else {
      ShiftedMean(Red(pix), Red(current), alpha, 1);
      ShiftedMean(Green(pix), Green(current), alpha, 256);
      ShiftedMean(Blue(pix), Blue(current), alpha, 65536);
    }
  }

  // ----- Drawing -----

  class Surface {
    const width: nat
    const height: nat
    const rowBytes: nat
    const pixelBytes: nat
    const data: array<word>

    /** A surface of 4-byte pixels: whole pixels in each row, all rows inside the data. */
    ghost predicate Valid() {
      && pixelBytes == 4
      && rowBytes % 4 == 0 && rowBytes >= 4 * width
      && data.Length == height * (rowBytes / 4)
    }

    constructor (width: nat, height: nat, rowBytes: nat, pixelBytes: nat, data: array<word>)
      ensures this.width == width && this.height == height && this.data == data
      ensures this.rowBytes == rowBytes && this.pixelBytes == pixelBytes
    {
      this.width, this.height, this.rowBytes, this.pixelBytes, this.data := width, height, rowBytes, pixelBytes, data;
    }
  }

  /** How gr_fill changes a pixel. */
  function Filling(current: word): (int, int, word) -> word {
    (x: int, y: int, pix: word) => PixelBlend(current, Alpha(current), pix)
  }

  /** What gr_fill promises of a pixel: the weighted mean of each colour channel. */
  ghost function FilledMean(current: word): (int, int, word) -> word {
    (x: int, y: int, pix: word) => Blended(current, Alpha(current), pix)
  }

  lemma FillingIsMean(g: Geometry, r: Rect, current: word, a: seq<word>, b: seq<word>)
    requires Painted(g, r, Filling(current), a, b)
    ensures Painted(g, r, FilledMean(current), a, b)
  {
    forall x, y | InRect(r, x, y) ensures b[PixelAt(g, x, y)] == FilledMean(current)(x, y, a[PixelAt(g, x, y)]) {
      BlendIsMean(current, Alpha(current), a[PixelAt(g, x, y)]);
    }
  }

  /** How gr_blit changes a pixel: to the source pixel at the same place in the source rectangle. */
  function Copying(src: seq<word>, srcRow: nat, sx: int, sy: int, dx: int, dy: int): (int, int, word) -> word {
    (x: int, y: int, pix: word) =>
      var i := (sy + (y - dy)) * srcRow + sx + (x - dx);
      if 0 <= i < |src| then src[i] else pix
  }

  /** The alpha of a glyph byte under the current colour's own alpha. */
  function GlyphAlpha(current: word, a: byte): byte {
    if Alpha(current) < 255 then
      MulMono(a, 255, Alpha(current));
      a * Alpha(current) / 255
    else a
  }

  function StencilAt(src: seq<byte>, i: int, current: word, pix: word): word {
    if 0 <= i < |src| then PixelBlend(current, GlyphAlpha(current, src[i]), pix) else pix
  }

  /** How text_blend changes a pixel, with the glyph's top left corner at (x0, y0). */
  function Stencilling(src: seq<byte>, srcRow: nat, current: word, x0: int, y0: int): (int, int, word) -> word {
    (x: int, y: int, pix: word) => StencilAt(src, (y - y0) * srcRow + (x - x0), current, pix)
  }

  /** The loop nest shared by gr_fill, gr_blit and text_blend: one pixel pointer per row, stepped right
      within the row, and one per rectangle, stepped down. */
  method PaintRows(data: array<word>, g: Geometry, r: Rect, f: (int, int, word) -> word)
    requires g.row >= g.width && data.Length == g.height * g.row
    requires OnScreen(g, r) && RectInBounds(g, r)
    modifies data
    ensures Painted(g, r, f, old(data[..]), data[..])
  {
    var p := PixelAt(g, r.x1, r.y1);
    var y := r.y1;
    PaintNothing(g, Rect(r.x1, r.y1, r.x2, y), f, data[..]);
    while y < r.y2
      invariant r.y1 <= y && (y <= r.y2 || y == r.y1)
      invariant p == PixelAt(g, r.x1, y)
      invariant Painted(g, Rect(r.x1, r.y1, r.x2, y), f, old(data[..]), data[..])
    {
      ghost var before := data[..];
      PaintRow(data, g, Rect(r.x1, y, r.x2, y + 1), p, f);
      PaintBoth(g, Rect(r.x1, r.y1, r.x2, y), Rect(r.x1, y, r.x2, y + 1), Rect(r.x1, r.y1, r.x2, y + 1), f,
                old(data[..]), before, data[..]);
      SteppingAgrees(g, r.x1, y);
      p := IncrY(g, p);
      y := y + 1;
    }
    SamePixels(g, Rect(r.x1, r.y1, r.x2, y), r, f, old(data[..]), data[..]);
  }

  /** One pixel more of a row that is painted up to x. */
  method PaintOne(data: array<word>, g: Geometry, r: Rect, px: int, x: int, f: (int, int, word) -> word,
                  ghost start: seq<word>)
    requires g.row >= g.width && data.Length == g.height * g.row
    requires OnScreen(g, r) && RectInBounds(g, r) && r.y2 == r.y1 + 1 && r.x1 <= x < r.x2 && px == PixelAt(g, x, r.y1)
    requires Painted(g, Rect(r.x1, r.y1, x, r.y2), f, start, data[..])
    modifies data
    ensures Painted(g, Rect(r.x1, r.y1, x + 1, r.y2), f, start, data[..])
  {
    assert InRect(r, x, r.y1) && InBounds(g, x, r.y1);
    PaintPixel(g, x, r.y1, f, data[..]);
    data[px] := f(x, r.y1, data[px]);
    assert data[..] == old(data[..])[px := f(x, r.y1, old(data[px]))];
    assert OnScreen(g, Rect(r.x1, r.y1, x + 1, r.y2)) by {
      assert forall u, v :: InRect(Rect(r.x1, r.y1, x + 1, r.y2), u, v) ==> InRect(r, u, v);
    }
    PaintBoth(g, Rect(r.x1, r.y1, x, r.y2), Rect(x, r.y1, x + 1, r.y2), Rect(r.x1, r.y1, x + 1, r.y2), f,
              start, old(data[..]), data[..]);
  }

  method PaintRow(data: array<word>, g: Geometry, r: Rect, p: int, f: (int, int, word) -> word)
    requires g.row >= g.width && data.Length == g.height * g.row
    requires OnScreen(g, r) && RectInBounds(g, r) && r.y2 == r.y1 + 1 && p == PixelAt(g, r.x1, r.y1)
    modifies data
    ensures Painted(g, r, f, old(data[..]), data[..])
  {
    var px := p;
    var x := r.x1;
    PaintNothing(g, Rect(r.x1, r.y1, x, r.y2), f, data[..]);
    while x < r.x2
      invariant r.x1 <= x && (x <= r.x2 || x == r.x1)
      invariant px == PixelAt(g, x, r.y1)
      invariant Painted(g, Rect(r.x1, r.y1, x, r.y2), f, old(data[..]), data[..])
    {
      PaintOne(data, g, r, px, x, f, old(data[..]));
      SteppingAgrees(g, x, r.y1);
      px := IncrX(g, px);
      x := x + 1;
    }
    SamePixels(g, Rect(r.x1, r.y1, x, r.y2), r, f, old(data[..]), data[..]);
  }

  class Graphics {
    var draw: Surface
    var rotation: Rotation
    var current: word
    var overscanX: int
    var overscanY: int

    constructor (draw: Surface)
      ensures this.draw == draw
    {
      this.draw := draw;
      rotation := RotNone;
      current := 0xffff_ffff;
      overscanX, overscanY := 0, 0;
    }

    function Geo(): Geometry
      reads this
    {
      Geometry(rotation, draw.width, draw.height, draw.rowBytes / 4)
    }

    /** A rectangle of the caller, moved by the overscan. */
    function Shifted(x1: int, y1: int, x2: int, y2: int): Rect
      reads this
    {
      Rect(x1 + overscanX, y1 + overscanY, x2 + overscanX, y2 + overscanY)
    }

    /** What the drawing calls test: both the first and the last pixel on the screen. */
    predicate Accepted(r: Rect)
      reads this
    {
      !Outside(Geo(), r.x1, r.y1) && !Outside(Geo(), r.x2 - 1, r.y2 - 1)
    }

    /** The pixels of a rectangle that is drawn lie inside the data. */
    ghost predicate Drawable(r: Rect)
      reads this
    {
      Accepted(r) ==> RectInBounds(Geo(), r)
    }

    /** All do, but for the one pixel that ROTATION_RIGHT puts behind rows of exactly `width` pixels. */
    lemma DrawableIff(r: Rect)
      requires draw.Valid()
      ensures Drawable(r) <==>
                (Accepted(r) && rotation.RotRight? && draw.rowBytes == 4 * draw.width ==>
                   !InRect(r, draw.height - 1, 0))
    {
      if Accepted(r) {
        CornersOnScreen(Geo(), r);
        RectInBoundsIff(Geo(), r);
      }
    }

    /** gr_fill: exactly the rectangle's pixels are blended, each once; a rectangle not wholly on screen is ignored. */
    method Fill(x1: int, y1: int, x2: int, y2: int)
      requires draw.Valid() && Drawable(Shifted(x1, y1, x2, y2))
      modifies draw.data
      ensures if Accepted(Shifted(x1, y1, x2, y2))
              then Painted(Geo(), Shifted(x1, y1, x2, y2), FilledMean(current), old(draw.data[..]), draw.data[..])
              else draw.data[..] == old(draw.data[..])
    {
      var r := Shifted(x1, y1, x2, y2);
      if !Accepted(r) {
        return;
      }
      CornersOnScreen(Geo(), r);
      if Alpha(current) > 0 {
        PaintRows(draw.data, Geo(), r, Filling(current));
      } else {
        PaintIdentity(Geo(), r, Filling(current), draw.data[..]);
      }
      FillingIsMean(Geo(), r, current, old(draw.data[..]), draw.data[..]);
    }

    /** gr_texticon: the glyph is blended over the screen with the current colour. */
    method TextIcon(x: int, y: int, icon: array<byte>, iconWidth: nat, iconHeight: nat, iconRow: nat)
      requires draw.Valid() && Drawable(Shifted(x, y, x + iconWidth, y + iconHeight))
      requires iconRow >= iconWidth && icon.Length >= iconHeight * iconRow
      modifies draw.data
      ensures var r := Shifted(x, y, x + iconWidth, y + iconHeight);
              if Accepted(r)
              then Painted(Geo(), r, Stencilling(icon[..], iconRow, current, r.x1, r.y1), old(draw.data[..]),
                           draw.data[..])
              else draw.data[..] == old(draw.data[..])
    {
      var r := Shifted(x, y, x + iconWidth, y + iconHeight);
      if !Accepted(r) {
        return;
      }
      CornersOnScreen(Geo(), r);
      PaintRows(draw.data, Geo(), r, Stencilling(icon[..], iconRow, current, r.x1, r.y1));
    }

    /** gr_blit: exactly the destination rectangle's pixels change, each to its source pixel. */
    method Blit(source: Surface, sx: nat, sy: nat, w: nat, h: nat, dx: int, dy: int)
      requires draw.Valid() && Drawable(Shifted(dx, dy, dx + w, dy + h)) && source.data != draw.data
      requires source.pixelBytes == 4 ==> source.Valid() && sx + w <= source.rowBytes / 4 && sy + h <= source.height
      modifies draw.data
      ensures var r := Shifted(dx, dy, dx + w, dy + h);
              if source.pixelBytes == 4 && Accepted(r)
              then Painted(Geo(), r, Copying(source.data[..], source.rowBytes / 4, sx, sy, r.x1, r.y1),
                           old(draw.data[..]), draw.data[..])
              else draw.data[..] == old(draw.data[..])
    {
      if draw.pixelBytes != source.pixelBytes {
        return;
      }
      var r := Shifted(dx, dy, dx + w, dy + h);
      if !Accepted(r) {
        return;
      }
      CornersOnScreen(Geo(), r);
      var srcRow := source.rowBytes / 4;
      if !rotation.RotNone? {
        PaintRows(draw.data, Geo(), r, Copying(source.data[..], srcRow, sx, sy, r.x1, r.y1));
      } else {
        CopyRows(source, sx, sy, r, h);
      }
    }

    /** The unrotated blit: one memcpy a row. */
    method CopyRows(source: Surface, sx: nat, sy: nat, r: Rect, h: nat)
      requires draw.Valid() && source.Valid() && source.data != draw.data
      requires rotation.RotNone? && OnScreen(Geo(), r) && r.x1 <= r.x2 && h == r.y2 - r.y1
      requires sx + (r.x2 - r.x1) <= source.rowBytes / 4 && sy + h <= source.height
      modifies draw.data
      ensures Painted(Geo(), r, Copying(source.data[..], source.rowBytes / 4, sx, sy, r.x1, r.y1),
                      old(draw.data[..]), draw.data[..])
    {
      var y := 0;
      ghost var f := Copying(source.data[..], source.rowBytes / 4, sx, sy, r.x1, r.y1);
      PaintNothing(Geo(), Rect(r.x1, r.y1, r.x2, r.y1), f, draw.data[..]);
      while y < h
        invariant 0 <= y <= h
        invariant Painted(Geo(), Rect(r.x1, r.y1, r.x2, r.y1 + y), f, old(draw.data[..]), draw.data[..])
      {
        CopyNextRow(source, sx, sy, r, y, f, old(draw.data[..]));
        y := y + 1;
      }
    }

    method CopyNextRow(source: Surface, sx: nat, sy: nat, r: Rect, y: nat, ghost f: (int, int, word) -> word,
                       ghost start: seq<word>)
      requires draw.Valid() && source.Valid() && source.data != draw.data
      requires rotation.RotNone? && OnScreen(Geo(), r) && r.x1 <= r.x2 && y < r.y2 - r.y1
      requires sx + (r.x2 - r.x1) <= source.rowBytes / 4 && sy + y < source.height
      requires f == Copying(source.data[..], source.rowBytes / 4, sx, sy, r.x1, r.y1)
      requires Painted(Geo(), Rect(r.x1, r.y1, r.x2, r.y1 + y), f, start, draw.data[..])
      modifies draw.data
      ensures Painted(Geo(), Rect(r.x1, r.y1, r.x2, r.y1 + y + 1), f, start, draw.data[..])
    {
      ghost var before := draw.data[..];
      CopyRow(source, sx, sy + y, r, r.y1 + y, sy);
      PaintBoth(Geo(), Rect(r.x1, r.y1, r.x2, r.y1 + y), Rect(r.x1, r.y1 + y, r.x2, r.y1 + y + 1),
                Rect(r.x1, r.y1, r.x2, r.y1 + y + 1), f, start, before, draw.data[..]);
    }

    /** One memcpy: row `from` of the source to row `to` of the screen. */
    method CopyRow(source: Surface, sx: nat, from: nat, r: Rect, to: int, ghost sy: nat)
      requires draw.Valid() && source.Valid() && source.data != draw.data
      requires rotation.RotNone? && OnScreen(Geo(), r) && r.x1 <= r.x2
      requires r.y1 <= to < r.y2 && from - sy == to - r.y1
      requires sx + (r.x2 - r.x1) <= source.rowBytes / 4 && from < source.height
      modifies draw.data
      ensures Painted(Geo(), Rect(r.x1, to, r.x2, to + 1),
                      Copying(source.data[..], source.rowBytes / 4, sx, sy, r.x1, r.y1),
                      old(draw.data[..]), draw.data[..])
    {
      var n := r.x2 - r.x1;
      var s := from * (source.rowBytes / 4) + sx;
      var d := to * (draw.rowBytes / 4) + r.x1;
      if n > 0 {
        assert InRect(r, r.x1, to) && InRect(r, r.x2 - 1, to);
        PixelInBounds(Geo(), r.x1, to);
        PixelInBounds(Geo(), r.x2 - 1, to);
        RowMajorInBounds(from, sx, source.height, source.rowBytes / 4);
        RowMajorInBounds(from, sx + n - 1, source.height, source.rowBytes / 4);
        Memcpy(draw.data, d, source.data, s, n);
      }
      RowPainted(Geo(), r, to, d, Copying(source.data[..], source.rowBytes / 4, sx, sy, r.x1, r.y1),
                 old(draw.data[..]), draw.data[..]);
    }

    /** gr_clear: every pixel of the unrotated surface takes the current colour and padding stays as it is. */
    method Clear()
      requires draw.Valid()
      modifies draw.data
      ensures Painted(Geo().(rot := RotNone), Rect(0, 0, draw.width, draw.height), Plain(current),
                      old(draw.data[..]), draw.data[..])
    {
      var g := Geo().(rot := RotNone);
      var all := Rect(0, 0, draw.width, draw.height);
      if Red(current) == Green(current) && Red(current) == Blue(current) && Red(current) == Alpha(current)
         && draw.rowBytes == draw.width * draw.pixelBytes {
        var b := Red(current);
        forall k | 0 <= k < draw.data.Length {
          draw.data[k] := Pack(b, b, b, b);
        }
        PackUnpack(current);
        WholePainted(g, current, old(draw.data[..]), draw.data[..]);
      } else {
        var px := 0;
        var rowDiff := draw.rowBytes / draw.pixelBytes - draw.width;
        var y := 0;
        PaintNothing(g, Rect(0, 0, draw.width, 0), Plain(current), draw.data[..]);
        while y < draw.height
          invariant 0 <= y <= draw.height && px == PixelAt(g, 0, y)
          invariant Painted(g, Rect(0, 0, draw.width, y), Plain(current), old(draw.data[..]), draw.data[..])
        {
          ghost var before := draw.data[..];
          RectInBoundsIff(g, Rect(0, y, draw.width, y + 1));
          PaintRow(draw.data, g, Rect(0, y, draw.width, y + 1), px, Plain(current));
          PaintBoth(g, Rect(0, 0, draw.width, y), Rect(0, y, draw.width, y + 1), Rect(0, 0, draw.width, y + 1),
                    Plain(current), old(draw.data[..]), before, draw.data[..]);
          SteppingAgrees(g, 0, y);
          px := px + draw.width + rowDiff;
          y := y + 1;
        }
      }
    }
  }

  function Plain(current: word): (int, int, word) -> word {
    (x: int, y: int, pix: word) => current
  }

  method Memcpy(dst: array<word>, d: nat, src: array<word>, s: nat, n: nat)
    requires dst != src && d + n <= dst.Length && s + n <= src.Length
    modifies dst
    ensures dst[..] == old(dst[..d]) + src[s..s + n] + old(dst[d + n..])
  {
    forall x | d <= x < d + n {
      dst[x] := src[s + (x - d)];
    }
  }

  /** An unrotated row whose cells start at d is painted when those cells, and no others, have changed as told. */
  lemma RowPainted(g: Geometry, r: Rect, to: int, d: int, f: (int, int, word) -> word, a: seq<word>, b: seq<word>)
    requires g.rot.RotNone? && |a| == |b| && d == to * g.row + r.x1 && r.x1 <= r.x2
    requires r.x1 < r.x2 ==> 0 <= d && d + (r.x2 - r.x1) <= |a|
    requires forall k :: 0 <= k < |a| ==>
              b[k] == if d <= k < d + (r.x2 - r.x1) then f(r.x1 + (k - d), to, a[k]) else a[k]
    ensures Painted(g, Rect(r.x1, to, r.x2, to + 1), f, a, b)
  {
    var row := Rect(r.x1, to, r.x2, to + 1);
    forall k {:trigger Covered(g, row, k)} | d <= k < d + (r.x2 - r.x1) ensures Covered(g, row, k) {
      assert InRect(row, r.x1 + (k - d), to) && PixelAt(g, r.x1 + (k - d), to) == k;
    }
    assert forall x, y :: InRect(row, x, y) ==> y == to && PixelAt(g, x, y) == d + (x - r.x1);
  }

  /** Without padding, every cell belongs to a pixel. */
  lemma CellIsCovered(g: Geometry, k: int)
    requires g.rot.RotNone? && g.row == g.width && 0 <= k < g.height * g.row && g.row > 0
    ensures Covered(g, Rect(0, 0, g.width, g.height), k)
  {
    var y, x := k / g.row, k % g.row;
    RowBelow(k, y, x, g.height, g.row);
    assert InRect(Rect(0, 0, g.width, g.height), x, y) && PixelAt(g, x, y) == k;
  }

  lemma RowBelow(k: int, y: int, x: int, h: int, row: int)
    requires row > 0 && 0 <= k < h * row && y == k / row && x == k % row
    ensures 0 <= x < row && 0 <= y < h && k == y * row + x
  {
    assert k == y * row + x;
    MulGap(y - h + 1, row);
    assert (y - h + 1) * row == y * row - h * row + row;
  }

  lemma WholePainted(g: Geometry, current: word, a: seq<word>, b: seq<word>)
    requires g.rot.RotNone? && g.row == g.width >= 0 && g.height >= 0 && |a| == |b| == g.height * g.row
    requires forall k :: 0 <= k < |b| ==> b[k] == current
    ensures Painted(g, Rect(0, 0, g.width, g.height), Plain(current), a, b)
  {
    RectInBoundsIff(g, Rect(0, 0, g.width, g.height));
    if g.row > 0 {
      forall k | 0 <= k < |a| ensures Covered(g, Rect(0, 0, g.width, g.height), k) { CellIsCovered(g, k); }
    }
    assert g.row == 0 ==> |a| == 0;
  }
}
