// What the fixed-point arithmetic of convert.c computes: blue, green and red, in that order, of each pixel.
module RepackColours {
  import opened Bytes
  import opened IndexMath
  import opened Repack
  import opened RepackYuyv

  /** A colour value b that is t/4096 to within 3 steps, or cut off at 0 or 255. */
  predicate Near(b: byte, t: int) {
    (b > 0 ==> 4096 * b < t + 12288) && (b < 255 ==> t - 12288 < 4096 * b)
  }

  // The linear conversion, in units of 1/4096; U and V are neutral at 128.

  function Blue(p: Yuv): int { 4096 * p.y + 7289 * (p.u - 128) }

  function Green(p: Yuv): int { 4096 * p.y - 1415 * (p.u - 128) - 2936 * (p.v - 128) }

  function Red(p: Yuv): int { 4096 * p.y + 5765 * (p.v - 128) }

  lemma NearShift(y: byte, c: byte, coefficient: nat, offset: int)
    requires 4096 * offset - 5000 < coefficient * 128 < 4096 * offset + 5000
    ensures Near(Clamp(y + coefficient * c / 4096 - offset), 4096 * y + coefficient * (c - 128))
  {
    var k := coefficient * c;
    assert coefficient * (c - 128) == k - coefficient * 128;
    assert k == 4096 * (k / 4096) + k % 4096;
  }

  lemma NearGreen(p: Yuv)
    ensures Near(Clamp(p.y - 1415 * p.u / 4096 - 2936 * p.v / 4096 + 136), Green(p))
  {
    var k, l := 1415 * p.u, 2936 * p.v;
    assert k == 4096 * (k / 4096) + k % 4096 && l == 4096 * (l / 4096) + l % 4096;
  }

  /** The three bytes of a pixel. */
  lemma BytesOfPixel(p: Yuv)
    ensures |Rgb(p)| == 3 && Near(Rgb(p)[0], Blue(p)) && Near(Rgb(p)[1], Green(p)) && Near(Rgb(p)[2], Red(p))
  {
    NearShift(p.y, p.u, 7289, 228);
    NearGreen(p);
    NearShift(p.y, p.v, 5765, 180);
  }

  lemma {:induction false} PixelOfImage(q: int -> Yuv, n: nat, i: nat)
    requires i < n
    ensures |RgbImage(q, n)| == 3 * n
    ensures RgbImage(q, n)[3 * i..3 * i + 3] == Rgb(q(i))
    decreases n
  {
    if n > 1 { PixelOfImage(q, n - 1, if i < n - 1 then i else 0); }
    var front := RgbImage(q, n - 1);
    if i < n - 1 {
      assert RgbImage(q, n)[3 * i..3 * i + 3] == front[3 * i..3 * i + 3];
    }
  }

  /** Pixel i of an output shows p. */
  ghost predicate Shows(d: seq<byte>, i: nat, p: Yuv) {
    3 * i + 3 <= |d| && Near(d[3 * i], Blue(p)) && Near(d[3 * i + 1], Green(p)) && Near(d[3 * i + 2], Red(p))
  }

  lemma RenderedShows(d: seq<byte>, was: seq<byte>, q: int -> Yuv, n: nat, i: nat)
    requires Rendered(d, was, q, n) && i < n
    ensures Shows(d, i, q(i))
  {
    PixelOfImage(q, n, i);
    BytesOfPixel(q(i));
    var three := d[3 * i..3 * i + 3];
    assert three == d[..3 * n][3 * i..3 * i + 3] == Rgb(q(i));
    assert three[0] == d[3 * i] && three[1] == d[3 * i + 1] && three[2] == d[3 * i + 2];
  }

  lemma PixelOfFrame(s: seq<byte>, w: nat, l: Layout, x: nat, y: nat)
    requires x < w
    ensures 0 <= y * w + x && Picture(s, w, l)(y * w + x) == Sample(s, l, y * w + x, Chroma(w, x, y))
  {
    RowMajorDivMod(y, x, w);
  }

  /** NV21ToRGB24, from bytes to bytes: pixel i, at (x, y), shows the luma byte at its place and, of the byte pairs
      behind the n luma bytes, the one at c, which it shares with its two-by-two block, V first. */
  lemma Nv21Shows(d: seq<byte>, was: seq<byte>, s: seq<byte>, w: nat, h: nat, n: nat, x: nat, y: nat, i: nat, c: nat)
    requires n == w * h && x < w && y < h && Rendered(d, was, Picture(s, w, Nv21(n)), n)
    requires i == y * w + x && c == n + 2 * ((y / 2) * (w / 2) + x / 2) && i < |s| && c + 1 < |s|
    ensures Shows(d, i, Yuv(s[i], s[c + 1], s[c]))
  {
    RowMajorInBounds(y, x, h, w);
    PixelOfFrame(s, w, Nv21(n), x, y);
    RenderedShows(d, was, Picture(s, w, Nv21(n)), n, i);
  }

  /** YUYVToRGB24: pixel i shows the even byte of its own and the odd bytes of its group of four, U first. */
  lemma YuyvShows(d: seq<byte>, was: seq<byte>, s: seq<byte>, n: nat, i: nat)
    requires i < n && Rendered(d, was, YuyvPicture(s), n) && |s| >= 4 * (i / 2) + 4
    ensures Shows(d, i, Yuv(s[2 * i], s[4 * (i / 2) + 1], s[4 * (i / 2) + 3]))
  {
    RenderedShows(d, was, YuyvPicture(s), n, i);
  }
}
