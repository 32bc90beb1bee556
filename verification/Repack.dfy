// Model of the YUV repacking and RGB conversion loops in convert.c.
module Repack {
  import opened Bytes
  import opened IndexMath

  datatype Yuv = Yuv(y: byte, u: byte, v: byte)

  function Clamp(t: int): byte {
    if t < 0 then 0 else if t > 255 then 255 else t
  }

  /** The three output bytes of one pixel: blue, green, red. */
  function Rgb(p: Yuv): seq<byte> {
    [Clamp(p.y + 7289 * p.u / 4096 - 228),
     Clamp(p.y - 1415 * p.u / 4096 - 2936 * p.v / 4096 + 136),
     Clamp(p.y + 5765 * p.v / 4096 - 180)]
  }

  /** The output for the first n pixels of a picture, in raster order. */
  ghost function RgbImage(q: int -> Yuv, n: nat): seq<byte> {
    if n == 0 then [] else RgbImage(q, n - 1) + Rgb(q(n - 1))
  }

  /** Pictures with the same pixels give the same bytes. */
  lemma {:induction false} SamePixelsSameImage(q: int -> Yuv, r: int -> Yuv, n: nat)
    requires forall i :: 0 <= i < n ==> q(i) == r(i)
    ensures RgbImage(q, n) == RgbImage(r, n)
  {
    if n > 0 { SamePixelsSameImage(q, r, n - 1); }
  }

  // ----- Index arithmetic -----

  /** The index of the chroma sample that pixels x and y share with their neighbours. */
  function Chroma(w: nat, x: nat, y: nat): nat {
    (y / 2) * (w / 2) + x / 2
  }

  /** The same by raster index. */
  function ChromaOf(w: nat, i: nat): nat
    requires w > 0
  {
    Chroma(w, i % w, i / w)
  }

  /** For even sizes the chroma samples are w*h/4 in number. */
  lemma ChromaInBounds(w: nat, h: nat, x: nat, y: nat)
    requires w % 2 == 0 && h % 2 == 0 && x < w && y < h
    ensures w * h == 4 * ((w / 2) * (h / 2))
    ensures Chroma(w, x, y) < w * h / 4
  {
    var W, H := w / 2, h / 2;
    assert w * h == 4 * (W * H) by { assert w == 2 * W && h == 2 * H; assert (2 * W) * (2 * H) == 4 * (W * H); }
    RowMajorInBounds(y / 2, x / 2, H, W);
  }

  // ----- Planar and semi-planar frames -----

  /** Where the chroma samples lie: sample k of U at uBase + step*k, of V at vBase + step*k. */
  datatype Layout = Layout(uBase: nat, vBase: nat, step: nat)

  function Nv21(n: nat): Layout { Layout(n + 1, n, 2) }

  function Yu12(n: nat): Layout { Layout(n, n * 5 / 4, 1) }

  function Yv12(n: nat): Layout { Layout(n * 5 / 4, n, 1) }

  function At(s: seq<byte>, i: int): byte {
    if 0 <= i < |s| then s[i] else 0
  }

  function Index(base: nat, step: nat, k: nat): nat {
    base + step * k
  }

  function Sample(s: seq<byte>, l: Layout, y: int, chroma: nat): Yuv {
    Yuv(At(s, y), At(s, Index(l.uBase, l.step, chroma)), At(s, Index(l.vBase, l.step, chroma)))
  }

  /** The picture of a frame: luma by pixel, chroma by two-by-two block. */
  function Picture(s: seq<byte>, w: nat, l: Layout): int -> Yuv {
    (i: int) => if i < 0 || w == 0 then Yuv(0, 0, 0) else Sample(s, l, i, ChromaOf(w, i))
  }

  /** The buffer starts with the image of the first n pixels and goes on as it was. */
  ghost predicate Rendered(s: seq<byte>, was: seq<byte>, q: int -> Yuv, n: nat) {
    3 * n <= |s| == |was| && s[..3 * n] == RgbImage(q, n) && forall j :: 3 * n <= j < |s| ==> s[j] == was[j]
  }

  lemma NothingRendered(s: seq<byte>, q: int -> Yuv)
    ensures Rendered(s, s, q, 0)
  {
  }

  /** The chroma bytes of pixel (x, y) lie inside a buffer of len bytes. */
  ghost predicate ChromaFits(len: nat, w: nat, l: Layout, x: nat, y: nat) {
    Index(l.uBase, l.step, Chroma(w, x, y)) < len && Index(l.vBase, l.step, Chroma(w, x, y)) < len
  }

  ghost predicate RowFits(len: nat, w: nat, l: Layout, y: nat) {
    forall x: nat :: x < w ==> ChromaFits(len, w, l, x, y)
  }

  /** No pixel needs a later chroma sample than the last one. */
  lemma ChromaGrows(w: nat, h: nat, x: nat, y: nat)
    requires x < w && y < h
    ensures Chroma(w, x, y) <= Chroma(w, w - 1, h - 1)
  {
    MulMono(y / 2, (h - 1) / 2, w / 2);
  }

  lemma IndexGrows(base: nat, step: nat, k: nat, k': nat)
    requires k <= k'
    ensures Index(base, step, k) <= Index(base, step, k')
  {
    MulMono(k, k', step);
  }

  lemma RowUpToLast(len: nat, w: nat, h: nat, l: Layout, y: nat)
    requires y < h && w > 0 && ChromaFits(len, w, l, w - 1, h - 1)
    ensures RowFits(len, w, l, y)
  {
    forall x: nat | x < w ensures ChromaFits(len, w, l, x, y) {
      ChromaGrows(w, h, x, y);
      IndexGrows(l.uBase, l.step, Chroma(w, x, y), Chroma(w, w - 1, h - 1));
      IndexGrows(l.vBase, l.step, Chroma(w, x, y), Chroma(w, w - 1, h - 1));
    }
  }

  /** A buffer holds the chroma of every pixel of a frame, of whatever size, exactly when it holds that of the
      last one. */
  lemma AllFitIffLastFits(len: nat, w: nat, h: nat, l: Layout)
    requires w > 0 && h > 0
    ensures (forall y: nat :: y < h ==> RowFits(len, w, l, y)) <==> ChromaFits(len, w, l, w - 1, h - 1)
  {
    if ChromaFits(len, w, l, w - 1, h - 1) {
      forall y: nat | y < h ensures RowFits(len, w, l, y) {
        RowUpToLast(len, w, h, l, y);
      }
    }
    if forall y: nat :: y < h ==> RowFits(len, w, l, y) {
      var x: nat, y: nat := w - 1, h - 1;
      assert RowFits(len, w, l, y);
      assert ChromaFits(len, w, l, x, y);
    }
  }

  /** Where row y starts, counted row by row. */
  ghost function RowStart(w: nat, y: nat): nat {
    if y == 0 then 0 else RowStart(w, y - 1) + w
  }

  lemma {:induction false} RowStartIs(w: nat, y: nat)
    ensures RowStart(w, y) == y * w
  {
    if y > 0 { RowStartIs(w, y - 1); }
  }

  /** The loads of one pixel. */
  method LoadPixel(src: array<byte>, w: nat, l: Layout, x: nat, y: nat, base: nat) returns (p: Yuv)
    requires x < w && base == RowStart(w, y) && base + x < src.Length
    requires ChromaFits(src.Length, w, l, x, y)
    ensures p == Picture(src[..], w, l)(base + x)
  {
    RowStartIs(w, y);
    RowMajorDivMod(y, x, w);
    var c := Chroma(w, x, y);
    p := Yuv(src[base + x], src[Index(l.uBase, l.step, c)], src[Index(l.vBase, l.step, c)]);
  }

  lemma {:induction false} RowStartGrows(w: nat, y: nat, h: nat)
    requires y <= h
    ensures RowStart(w, y) <= RowStart(w, h)
  {
    if y < h { RowStartGrows(w, y, h - 1); }
  }

  /** The three stores of one output pixel, the next one of the image. */
  method StorePixel(dst: array<byte>, i: nat, p: Yuv, ghost q: int -> Yuv, ghost was: seq<byte>)
    requires 3 * (i + 1) <= dst.Length
    requires Rendered(dst[..], was, q, i) && p == q(i)
    modifies dst
    ensures Rendered(dst[..], was, q, i + 1)
  {
    dst[3 * i] := Clamp(p.y + 7289 * p.u / 4096 - 228);
    dst[3 * i + 1] := Clamp(p.y - 1415 * p.u / 4096 - 2936 * p.v / 4096 + 136);
    dst[3 * i + 2] := Clamp(p.y + 5765 * p.v / 4096 - 180);
    assert dst[..][..3 * (i + 1)] == old(dst[..])[..3 * i] + Rgb(p);
  }

  method RenderPixel(dst: array<byte>, src: array<byte>, w: nat, x: nat, y: nat, base: nat, i: nat, l: Layout,
                     ghost q: int -> Yuv, ghost was: seq<byte>)
    returns (next: nat)
    requires base == RowStart(w, y) && x < w && i == base + x && dst != src
    requires 3 * (i + 1) <= dst.Length && i < src.Length && ChromaFits(src.Length, w, l, x, y)
    requires q == Picture(src[..], w, l)
    requires Rendered(dst[..], was, q, i)
    modifies dst
    ensures next == i + 1 && Rendered(dst[..], was, q, next)
  {
    var p := LoadPixel(src, w, l, x, y, base);
    StorePixel(dst, i, p, q, was);
    next := i + 1;
  }

  method RenderPixels(dst: array<byte>, src: array<byte>, w: nat, y: nat, base: nat, ghost end: nat, l: Layout,
                      ghost q: int -> Yuv, ghost was: seq<byte>)
    requires base == RowStart(w, y) && end == base + w && dst != src
    requires 3 * end <= dst.Length && end <= src.Length && RowFits(src.Length, w, l, y)
    requires q == Picture(src[..], w, l)
    requires Rendered(dst[..], was, q, base)
    modifies dst
    ensures Rendered(dst[..], was, q, end)
  {
    var i := base;
    for x := 0 to w
      invariant i == base + x
      invariant src[..] == old(src[..])
      invariant Rendered(dst[..], was, q, i)
    {
      i := RenderPixel(dst, src, w, x, y, base, i, l, q, was);
    }
  }

  /** Row y of the frame; the next one starts at next. */
  method RenderRow(dst: array<byte>, src: array<byte>, w: nat, ghost h: nat, y: nat, base: nat, ghost n: nat, l: Layout,
                   ghost q: int -> Yuv, ghost was: seq<byte>)
    returns (next: nat)
    requires base == RowStart(w, y) && y < h && n == RowStart(w, h) && w > 0 && dst != src
    requires 3 * n <= dst.Length && n <= src.Length && RowFits(src.Length, w, l, y)
    requires q == Picture(src[..], w, l)
    requires Rendered(dst[..], was, q, base)
    modifies dst
    ensures next == RowStart(w, y + 1) && Rendered(dst[..], was, q, next)
  {
    RowStartGrows(w, y + 1, h);
    RenderPixels(dst, src, w, y, base, base + w, l, q, was);
    next := base + w;
  }

  method RenderRows(dst: array<byte>, src: array<byte>, w: nat, h: nat, ghost n: nat, l: Layout, ghost q: int -> Yuv)
    requires n == RowStart(w, h) && dst != src && dst.Length >= 3 * n && src.Length >= n && w > 0
    requires forall y: nat :: y < h ==> RowFits(src.Length, w, l, y)
    requires q == Picture(src[..], w, l)
    modifies dst
    ensures Rendered(dst[..], old(dst[..]), q, n)
  {
    var base := 0;
    NothingRendered(dst[..], q);
    for y := 0 to h
      invariant base == RowStart(w, y)
      invariant src[..] == old(src[..])
      invariant Rendered(dst[..], old(dst[..]), q, base)
    {
      base := RenderRow(dst, src, w, h, y, base, n, l, q, old(dst[..]));
    }
  }

  /** The loop nest of NV21ToRGB24, YUV420ToRGB24, YVU420ToRGB24 and YV12ToRGB24, which differ in the layout only. */
  method Render(dst: array<byte>, src: array<byte>, w: nat, h: nat, l: Layout)
    requires w > 0 && h > 0 && dst != src
    requires dst.Length >= 3 * (w * h) && src.Length >= w * h && ChromaFits(src.Length, w, l, w - 1, h - 1)
    modifies dst
    ensures Rendered(dst[..], old(dst[..]), Picture(src[..], w, l), w * h)
  {
    AllFitIffLastFits(src.Length, w, h, l);
    RowStartIs(w, h);
    RenderRows(dst, src, w, h, w * h, l, Picture(src[..], w, l));
  }

  // ----- The entry points -----

  /** What every conversion checks of its arguments. */
  predicate Accepted(dst: array?<byte>, src: array?<byte>, width: int, height: int) {
    dst != null && src != null && width > 0 && height > 0
  }

  /** An output of at least 3*w*h bytes, and an input that holds the luma and the last pixel's chroma. */
  ghost predicate RgbBuffers(dst: array?<byte>, src: array?<byte>, width: int, height: int, l: Layout) {
    Accepted(dst, src, width, height) ==>
      && dst != src && dst.Length >= 3 * (width * height) && src.Length >= width * height
      && ChromaFits(src.Length, width, l, width - 1, height - 1)
  }

  /** The size of a frame, 0 for the sizes the conversions refuse. */
  function Pixels(width: int, height: int): (n: nat)
    ensures width > 0 && height > 0 ==> n == width * height
  {
    if width > 0 && height > 0 then MulMono(0, width, height); width * height else 0
  }

  lemma SizeIsMultipleOf4(w: nat, h: nat)
    requires w % 2 == 0 && h % 2 == 0 && w > 0 && h > 0
    ensures 0 < w * h && w * h % 4 == 0
  {
    ChromaInBounds(w, h, 0, 0);
    RowMajorInBounds(h - 1, w - 1, h, w);
  }

  lemma LayoutsFit(n: nat, c: nat, len: nat)
    requires n % 4 == 0 && c < n / 4 && len >= n + n / 2
    ensures Index(n + 1, 2, c) < len && Index(n, 2, c) < len && Index(n, 1, c) < len && Index(n * 5 / 4, 1, c) < len
  {
    assert n * 5 / 4 == n + n / 4;
  }

  /** For even sizes 3/2*w*h bytes are enough in every layout. */
  lemma EvenSizesFit(w: nat, h: nat, n: nat, len: nat)
    requires w > 0 && h > 0 && w % 2 == 0 && h % 2 == 0 && n == w * h && len >= n + n / 2
    ensures ChromaFits(len, w, Nv21(n), w - 1, h - 1)
    ensures ChromaFits(len, w, Yu12(n), w - 1, h - 1) && ChromaFits(len, w, Yv12(n), w - 1, h - 1)
  {
    SizeIsMultipleOf4(w, h);
    ChromaInBounds(w, h, w - 1, h - 1);
    LayoutsFit(n, Chroma(w, w - 1, h - 1), len);
  }

  /** For odd sizes they need not be: a single pixel in NV21 reads two bytes behind its luma. */
  lemma OddSizesMayNotFit(len: nat)
    ensures ChromaFits(len, 1, Nv21(1), 0, 0) <==> len >= 3
  {
  }

  method NV21ToRGB24(RGB24: array?<byte>, NV21: array?<byte>, width: int, height: int) returns (r: int)
    requires RgbBuffers(RGB24, NV21, width, height, Nv21(Pixels(width, height)))
    modifies if RGB24 == null then {} else {RGB24}
    ensures r == if Accepted(RGB24, NV21, width, height) then 0 else -1
    ensures r == 0 ==>
              Rendered(RGB24[..], old(RGB24[..]), Picture(NV21[..], width, Nv21(Pixels(width, height))),
                       Pixels(width, height))
    ensures r != 0 && RGB24 != null ==> RGB24[..] == old(RGB24[..])
  {
    if !Accepted(RGB24, NV21, width, height) {
      return -1;
    }
    MulMono(1, width, height);
    Render(RGB24, NV21, width, height, Nv21(width * height));
    return 0;
  }

  method YUV420ToRGB24(RGB24: array?<byte>, YUV420: array?<byte>, width: int, height: int) returns (r: int)
    requires RgbBuffers(RGB24, YUV420, width, height, Yu12(Pixels(width, height)))
    modifies if RGB24 == null then {} else {RGB24}
    ensures r == if Accepted(RGB24, YUV420, width, height) then 0 else -1
    ensures r == 0 ==>
              Rendered(RGB24[..], old(RGB24[..]), Picture(YUV420[..], width, Yu12(Pixels(width, height))),
                       Pixels(width, height))
    ensures r != 0 && RGB24 != null ==> RGB24[..] == old(RGB24[..])
  {
    if !Accepted(RGB24, YUV420, width, height) {
      return -1;
    }
    MulMono(1, width, height);
    Render(RGB24, YUV420, width, height, Yu12(width * height));
    return 0;
  }

  /** YVU420ToRGB24 and YV12ToRGB24, which are the same code. */
  method YV12ToRGB24(RGB24: array?<byte>, YV12: array?<byte>, width: int, height: int) returns (r: int)
    requires RgbBuffers(RGB24, YV12, width, height, Yv12(Pixels(width, height)))
    modifies if RGB24 == null then {} else {RGB24}
    ensures r == if Accepted(RGB24, YV12, width, height) then 0 else -1
    ensures r == 0 ==>
              Rendered(RGB24[..], old(RGB24[..]), Picture(YV12[..], width, Yv12(Pixels(width, height))),
                       Pixels(width, height))
    ensures r != 0 && RGB24 != null ==> RGB24[..] == old(RGB24[..])
  {
    if !Accepted(RGB24, YV12, width, height) {
      return -1;
    }
    MulMono(1, width, height);
    Render(RGB24, YV12, width, height, Yv12(width * height));
    return 0;
  }

  // ----- Repacking -----

  ghost predicate Pick(d: seq<byte>, from: nat, s: seq<byte>, at: nat, i: nat) {
    from + i < |d| && at + 2 * i < |s| && d[from + i] == s[at + 2 * i]
  }

  /** m bytes of d from position from on are every other byte of s from position at on. */
  ghost predicate EveryOther(d: seq<byte>, from: nat, m: nat, s: seq<byte>, at: nat) {
    forall i: nat :: i < m ==> Pick(d, from, s, at, i)
  }

  /** One of the two de-interleaving loops: src from position at on, every other byte, to dst from position from on. */
  method Deinterleave(dst: array<byte>, from: nat, src: array<byte>, at: nat, end: nat, ghost m: nat)
    requires dst != src && end <= src.Length && from + m <= dst.Length
    requires m == if at < end then (end - at + 1) / 2 else 0
    modifies dst
    ensures EveryOther(dst[..], from, m, src[..], at)
    ensures dst[..from] == old(dst[..from]) && dst[from + m..] == old(dst[from + m..])
  {
    ghost var s := src[..];
    var i := at;
    var d := from;
    while i < end
      invariant i == at + 2 * (d - from) && from <= d <= from + m
      invariant src[..] == s
      invariant EveryOther(dst[..], from, d - from, s, at)
      invariant dst[..from] == old(dst[..from]) && dst[from + m..] == old(dst[from + m..])
    {
      ghost var before := dst[..];
      dst[d] := src[i];
      forall k: nat | k < d - from + 1 ensures Pick(dst[..], from, s, at, k) {
        assert k < d - from ==> Pick(before, from, s, at, k);
      }
      d := d + 1;
      i := i + 2;
    }
  }

  /** What lies outside a written stretch is the same byte by byte and stretch by stretch. */
  lemma SlicesKept(d: seq<byte>, e: seq<byte>, lo: nat, hi: nat, a: nat, b: nat)
    requires |d| == |e| && lo <= hi <= |d| && d[..lo] == e[..lo] && d[hi..] == e[hi..]
    ensures forall j :: 0 <= j < lo || hi <= j < |d| ==> d[j] == e[j]
    ensures a <= lo ==> d[..a] == e[..a]
    ensures hi <= b <= |d| ==> d[b..] == e[b..]
  {
    forall j | 0 <= j < lo || hi <= j < |d| ensures d[j] == e[j] {
      if j < lo { assert d[..lo][j] == e[..lo][j]; } else { assert d[hi..][j - hi] == e[hi..][j - hi]; }
    }
  }

  /** Writing elsewhere leaves a copied stretch as it is. */
  lemma EveryOtherKept(d: seq<byte>, e: seq<byte>, from: nat, m: nat, s: seq<byte>, at: nat)
    requires EveryOther(d, from, m, s, at) && |d| == |e| && from + m <= |d|
    requires forall j :: from <= j < from + m ==> d[j] == e[j]
    ensures EveryOther(e, from, m, s, at)
  {
    forall i: nat | i < m ensures Pick(e, from, s, at, i) {
      assert Pick(d, from, s, at, i);
    }
  }

  lemma TailKept(d: seq<byte>, e: seq<byte>, lo: nat, hi: nat)
    requires |d| == |e| && lo <= hi <= |d| && d[lo..] == e[lo..]
    ensures d[hi..] == e[hi..]
  {
    assert d[hi..] == d[lo..][hi - lo..] && e[hi..] == e[lo..][hi - lo..];
  }

  /** V is written behind U. */
  lemma UPlaneBefore(mid: seq<byte>, d: seq<byte>, s: seq<byte>, n: nat, m: nat)
    requires |mid| == |d| && |d| >= n + n / 2 && m == (n / 2 + 1) / 2 && n / 4 + m <= n / 2
    requires d[..n + n / 4] == mid[..n + n / 4] && d[n + n / 4 + m..] == mid[n + n / 4 + m..]
    requires EveryOther(mid, n, n / 4, s, n + 1)
    ensures EveryOther(d, n, n / 4, s, n + 1) && d[..n] == mid[..n] && d[n + n / 2..] == mid[n + n / 2..]
  {
    SlicesKept(mid, d, n + n / 4, n + n / 4 + m, n, n + n / 2);
    EveryOtherKept(mid, d, n, n / 4, s, n + 1);
  }

  method CopyLuma(dst: array<byte>, src: array<byte>, n: nat)
    requires dst != src && dst.Length >= n && src.Length >= n
    modifies dst
    ensures dst[..n] == src[..n] && dst[n..] == old(dst[n..])
  {
    forall j | 0 <= j < n { dst[j] := src[j]; }
  }

  /** Sizes for which the repacking loops stay inside their buffers. */
  ghost predicate PlanarBuffers(dst: array?<byte>, src: array?<byte>, width: int, height: int) {
    Accepted(dst, src, width, height) ==>
      dst != src && dst.Length >= width * height + width * height / 2
        && src.Length >= width * height + width * height / 2
  }

  method NV21ToYU12(YU12: array?<byte>, NV21: array?<byte>, width: int, height: int) returns (r: int)
    requires PlanarBuffers(YU12, NV21, width, height)
    modifies if YU12 == null then {} else {YU12}
    ensures r == if Accepted(YU12, NV21, width, height) then 0 else -1
    ensures r == 0 ==>
              && 0 < width * height <= YU12.Length && YU12[..width * height] == NV21[..width * height]
              && EveryOther(YU12[..], width * height, width * height / 4, NV21[..], width * height + 1)
              && EveryOther(YU12[..], width * height + width * height / 4, (width * height / 2 + 1) / 2, NV21[..],
                            width * height)
    ensures r == 0 ==> forall j :: Pixels(width, height) + Pixels(width, height) / 2 <= j < YU12.Length ==>
              YU12[j] == old(YU12[j])
    ensures r != 0 && YU12 != null ==> YU12[..] == old(YU12[..])
  {
    if !Accepted(YU12, NV21, width, height) {
      return -1;
    }
    RowMajorInBounds(height - 1, width - 1, height, width);
    ToYU12(YU12, NV21, width * height);
    return 0;
  }

  /** NV21ToYU12 on n luma bytes: n/4 bytes of U after the luma, then the bytes of V. */
  method ToYU12(dst: array<byte>, src: array<byte>, n: nat)
    requires dst != src && dst.Length >= n + n / 2 && src.Length >= n + n / 2
    modifies dst
    ensures dst[..n] == src[..n]
    ensures EveryOther(dst[..], n, n / 4, src[..], n + 1)
    ensures EveryOther(dst[..], n + n / 4, (n / 2 + 1) / 2, src[..], n)
    ensures dst[n + n / 2..] == old(dst[n + n / 2..])
  {
    CopyLuma(dst, src, n);
    TailKept(old(dst[..]), dst[..], n, n + n / 2);
    ghost var luma := dst[..];
    Deinterleave(dst, n, src, n + 1, n + n / 2, n / 4);
    ghost var mid := dst[..];
    TailKept(luma, mid, n + n / 4, n + n / 2);
    ghost var m := (n / 2 + 1) / 2;
    Deinterleave(dst, n + n / 4, src, n, n + n / 2, m);
    UPlaneBefore(mid, dst[..], src[..], n, m);
  }

  /** The U plane behind V holds all n/4 samples. */
  ghost predicate UPlaneWhole(d: seq<byte>, s: seq<byte>, n: nat) {
    EveryOther(d, n + n / 4, n / 4, s, n + 1)
  }

  lemma WithoutFirst(d: seq<byte>, from: nat, m: nat, s: seq<byte>, at: nat)
    requires EveryOther(d, from, m, s, at) && m > 0
    ensures EveryOther(d, from + 1, m - 1, s, at + 2)
  {
    var from', at' := from + 1, at + 2;
    forall i: nat | i < m - 1 ensures Pick(d, from', s, at', i) {
      assert Pick(d, from, s, at, i + 1);
    }
  }

  /** After V has been written over n..n+m, what is left of U. */
  lemma UPlaneKept(mid: seq<byte>, d: seq<byte>, s: seq<byte>, n: nat, m: nat)
    requires |mid| == |d| && |d| >= n + n / 2 && m == (n / 2 + 1) / 2
    requires d[..n] == mid[..n] && d[n + m..] == mid[n + m..]
    requires EveryOther(mid, n + n / 4, n / 4, s, n + 1)
    ensures n / 2 % 2 == 0 ==> EveryOther(d, n + n / 4, n / 4, s, n + 1)
    ensures n / 2 % 2 == 1 && n >= 4 ==> EveryOther(d, n + n / 4 + 1, n / 4 - 1, s, n + 3)
    ensures d[n + n / 2..] == mid[n + n / 2..]
  {
    SlicesKept(mid, d, n, n + m, n, n + n / 2);
    if n / 2 % 2 == 0 {
      EveryOtherKept(mid, d, n + n / 4, n / 4, s, n + 1);
    } else if n >= 4 {
      WithoutFirst(mid, n + n / 4, n / 4, s, n + 1);
      EveryOtherKept(mid, d, n + n / 4 + 1, n / 4 - 1, s, n + 3);
    }
  }

  /** NV21ToYV12 on n luma bytes. V starts at n and U at n + n/4; when n/2 is odd, V has one byte more than
      n/4 and is written last, so it takes the first byte of U. */
  method ToYV12(dst: array<byte>, src: array<byte>, n: nat)
    requires dst != src && dst.Length >= n + n / 2 && src.Length >= n + n / 2
    modifies dst
    ensures IsYv12Of(dst[..], src[..], n)
    ensures dst[n + n / 2..] == old(dst[n + n / 2..])
  {
    CopyLuma(dst, src, n);
    TailKept(old(dst[..]), dst[..], n, n + n / 2);
    ghost var luma := dst[..];
    Deinterleave(dst, n + n / 4, src, n + 1, n + n / 2, n / 4);
    ghost var mid := dst[..];
    TailKept(luma, mid, n + n / 4 + n / 4, n + n / 2);
    ghost var m := (n / 2 + 1) / 2;
    Deinterleave(dst, n, src, n, n + n / 2, m);
    UPlaneKept(mid, dst[..], src[..], n, m);
  }

  method NV21ToYV12(YV12: array?<byte>, NV21: array?<byte>, width: int, height: int) returns (r: int)
    requires PlanarBuffers(YV12, NV21, width, height)
    modifies if YV12 == null then {} else {YV12}
    ensures r == if Accepted(YV12, NV21, width, height) then 0 else -1
    ensures r == 0 ==>
              && Pixels(width, height) > 0 && IsYv12Of(YV12[..], NV21[..], Pixels(width, height))
              && forall j :: Pixels(width, height) + Pixels(width, height) / 2 <= j < YV12.Length ==>
                 YV12[j] == old(YV12[j])
    ensures r != 0 && YV12 != null ==> YV12[..] == old(YV12[..])
  {
    if !Accepted(YV12, NV21, width, height) {
      return -1;
    }
    RowMajorInBounds(height - 1, width - 1, height, width);
    ToYV12(YV12, NV21, width * height);
    return 0;
  }

  /** What NV21ToYV12 makes of n luma bytes: luma, the V plane, and of the U plane what V leaves. */
  ghost predicate IsYv12Of(d: seq<byte>, s: seq<byte>, n: nat) {
    && n <= |d| && n <= |s| && d[..n] == s[..n]
    && EveryOther(d, n, (n / 2 + 1) / 2, s, n)
    && (n / 2 % 2 == 0 ==> UPlaneWhole(d, s, n))
    && (n / 2 % 2 == 1 && n >= 4 ==> EveryOther(d, n + n / 4 + 1, n / 4 - 1, s, n + 3))
  }

  /** When n/2 is odd the first U sample survives exactly when the last V sample, which takes its place, equals it. */
  lemma FirstUSampleIff(d: seq<byte>, s: seq<byte>, n: nat)
    requires IsYv12Of(d, s, n) && n / 2 % 2 == 1 && n >= 4 && |s| >= n + n / 2
    ensures UPlaneWhole(d, s, n) <==> s[n + 1] == s[n + 2 * (n / 4)]
  {
    assert Pick(d, n, s, n, n / 4);
    if UPlaneWhole(d, s, n) {
      assert Pick(d, n + n / 4, s, n + 1, 0);
    } else if s[n + 1] == s[n + 2 * (n / 4)] {
      var from, at := n + n / 4, n + 1;
      forall i: nat | i < n / 4 ensures Pick(d, from, s, at, i) {
        if i > 0 { assert Pick(d, from + 1, s, at + 2, i - 1); }
      }
    }
  }

  lemma WholePlanes(d: seq<byte>, s: seq<byte>, n: nat)
    requires n % 4 == 0 && IsYv12Of(d, s, n)
    ensures n * 5 / 4 == n + n / 4 && EveryOther(d, n, n / 4, s, n) && EveryOther(d, n + n / 4, n / 4, s, n + 1)
  {
    assert n / 2 % 2 == 0 && (n / 2 + 1) / 2 == n / 4;
  }

  ghost predicate FrameOf(s: seq<byte>, n: nat) { |s| >= n + n / 2 }

  /** A frame that loses: everything 0 but the first U sample, so the output is 0 throughout. */
  lemma LosingFrame(n: nat) returns (s: seq<byte>, d: seq<byte>)
    requires n / 2 % 2 == 1 && n >= 4
    ensures |s| == |d| == n + n / 2 && s[n + 1] == 1 && (forall k :: 0 <= k < |d| ==> d[k] == 0)
    ensures IsYv12Of(d, s, n) && !UPlaneWhole(d, s, n)
  {
    s := seq(n + n / 2, k => if k == n + 1 then 1 else 0);
    d := seq(n + n / 2, _ => 0);
    assert forall k :: 0 <= k < |s| && k != n + 1 ==> s[k] == 0;
    FirstUSampleIff(d, s, n);
  }

  /** The whole U plane is kept for every frame of n pixels exactly when n/2 is even or n is below 4. */
  lemma UPlaneKeptIff(n: nat)
    ensures (forall d, s :: FrameOf(s, n) && IsYv12Of(d, s, n) ==> UPlaneWhole(d, s, n)) <==> n / 2 % 2 == 0 || n < 4
  {
    if n / 2 % 2 == 1 && n >= 4 {
      var s, d := LosingFrame(n);
      assert IsYv12Of(d, s, n) && !UPlaneWhole(d, s, n);
    }
  }

  /** The smallest even-width one: 2 by 3 pixels, whose only U sample is lost. */
  lemma TwoByThreeLosesU(d: seq<byte>, s: seq<byte>)
    requires |d| == |s| == 9 && IsYv12Of(d, s, Pixels(2, 3))
    ensures d[7] == s[8]
    ensures UPlaneWhole(d, s, Pixels(2, 3)) <==> s[7] == s[8]
  {
    FirstUSampleIff(d, s, 6);
    assert Pick(d, 6, s, 6, 1);
  }

  lemma RasterInBounds(w: nat, h: nat, i: nat)
    requires w > 0 && i < w * h
    ensures i / w < h && i % w < w && i == (i / w) * w + i % w
  {
    assert (i / w - h + 1) * w == (i / w) * w - h * w + w;
    MulGap(i / w - h + 1, w);
  }

  lemma RasterPosition(w: nat, h: nat, i: nat) returns (y: nat, x: nat)
    requires w > 0 && i < w * h
    ensures y == i / w && x == i % w && y < h && x < w && i == y * w + x
  {
    RasterInBounds(w, h, i);
    y, x := i / w, i % w;
  }

  lemma RasterSampleInBounds(w: nat, h: nat, n: nat, i: nat)
    requires w > 0 && h > 0 && w % 2 == 0 && h % 2 == 0 && n == w * h && i < n
    ensures ChromaOf(w, i) < n / 4
  {
    var y, x := RasterPosition(w, h, i);
    ChromaInBounds(w, h, x, y);
  }

  lemma SampleRepacked(nv: seq<byte>, pl: seq<byte>, n: nat, l: Layout, i: nat, c: nat)
    requires l.step == 1 && i < n <= |nv| && n <= |pl| && pl[..n] == nv[..n] && c < n / 4
    requires EveryOther(pl, l.uBase, n / 4, nv, n + 1) && EveryOther(pl, l.vBase, n / 4, nv, n)
    ensures Sample(pl, l, i, c) == Sample(nv, Nv21(n), i, c)
  {
    assert pl[..n][i] == nv[..n][i];
    assert Pick(pl, l.uBase, nv, n + 1, c) && Pick(pl, l.vBase, nv, n, c);
  }

  /** A planar frame with the same luma and the de-interleaved chroma shows the same picture. */
  lemma RepackedPicture(nv: seq<byte>, pl: seq<byte>, w: nat, h: nat, n: nat, l: Layout)
    requires w > 0 && h > 0 && w % 2 == 0 && h % 2 == 0 && l.step == 1
    requires n == w * h && n <= |nv| && n <= |pl| && pl[..n] == nv[..n]
    requires EveryOther(pl, l.uBase, n / 4, nv, n + 1)
    requires EveryOther(pl, l.vBase, n / 4, nv, n)
    ensures RgbImage(Picture(pl, w, l), n) == RgbImage(Picture(nv, w, Nv21(n)), n)
  {
    forall i | 0 <= i < n ensures Picture(pl, w, l)(i) == Picture(nv, w, Nv21(n))(i) {
      RasterSampleInBounds(w, h, n, i);
      SampleRepacked(nv, pl, n, l, i, ChromaOf(w, i));
    }
    SamePixelsSameImage(Picture(pl, w, l), Picture(nv, w, Nv21(n)), n);
  }

  method NewYU12(src: array<byte>, w: nat, h: nat, n: nat) returns (yu: array<byte>)
    requires w > 0 && h > 0 && w % 2 == 0 && h % 2 == 0 && n == w * h && n % 4 == 0 && src.Length == n + n / 2
    ensures fresh(yu) && yu.Length == n + n / 2
    ensures RgbImage(Picture(yu[..], w, Yu12(n)), n) == RgbImage(Picture(src[..], w, Nv21(n)), n)
  {
    yu := new byte[n + n / 2];
    var _ := NV21ToYU12(yu, src, w, h);
    RepackedPicture(src[..], yu[..], w, h, n, Yu12(n));
  }

  method NewYV12(src: array<byte>, w: nat, h: nat, n: nat) returns (yv: array<byte>)
    requires w > 0 && h > 0 && w % 2 == 0 && h % 2 == 0 && n == w * h && n % 4 == 0 && src.Length == n + n / 2
    ensures fresh(yv) && yv.Length == n + n / 2
    ensures RgbImage(Picture(yv[..], w, Yv12(n)), n) == RgbImage(Picture(src[..], w, Nv21(n)), n)
  {
    yv := new byte[n + n / 2];
    var _ := NV21ToYV12(yv, src, w, h);
    WholePlanes(yv[..], src[..], n);
    RepackedPicture(src[..], yv[..], w, h, n, Yv12(n));
  }

  /** Convert into a new buffer with the conversion for the frame's layout. */
  method NewRgb(src: array<byte>, w: nat, h: nat, n: nat, l: Layout) returns (a: array<byte>)
    requires w > 0 && h > 0 && w % 2 == 0 && h % 2 == 0 && n == w * h && src.Length == n + n / 2
    requires l == Nv21(n) || l == Yu12(n) || l == Yv12(n)
    ensures fresh(a) && a.Length == 3 * n && a[..] == RgbImage(Picture(src[..], w, l), n)
  {
    a := new byte[3 * n];
    EvenSizesFit(w, h, n, src.Length);
    if l == Nv21(n) {
      var _ := NV21ToRGB24(a, src, w, h);
    } else if l == Yu12(n) {
      var _ := YUV420ToRGB24(a, src, w, h);
    } else {
      var _ := YV12ToRGB24(a, src, w, h);
    }
    assert a[..][..a.Length] == a[..];
  }

  /** Whatever the layout, the picture is the same: the four ways to an RGB image agree in every byte. */
  method FourWays(NV21: array<byte>, w: nat, h: nat) returns (a: array<byte>, b: array<byte>, c: array<byte>)
    requires w > 0 && h > 0 && w % 2 == 0 && h % 2 == 0 && NV21.Length == w * h + w * h / 2
    ensures a[..] == b[..] == c[..] && a.Length == 3 * (w * h)
    ensures a[..] == RgbImage(Picture(NV21[..], w, Nv21(w * h)), w * h)
  {
    SizeIsMultipleOf4(w, h);
    ghost var nv := NV21[..];
    var yu := NewYU12(NV21, w, h, w * h);
    var yv := NewYV12(NV21, w, h, w * h);
    a := NewRgb(NV21, w, h, w * h, Nv21(w * h));
    b := NewRgb(yu, w, h, w * h, Yu12(w * h));
    c := NewRgb(yv, w, h, w * h, Yv12(w * h));
  }
}
