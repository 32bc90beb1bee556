// Model of YUYVToNV21 and YUYVToRGB24 in convert.c.
module RepackYuyv {
  import opened Bytes
  import opened IndexMath
  import opened Repack

  /** The picture of an interleaved frame: two pixels share the chroma of their four bytes. */
  function YuyvPicture(s: seq<byte>): int -> Yuv {
    (i: int) => Yuv(At(s, 2 * i), At(s, 4 * (i / 2) + 1), At(s, 4 * (i / 2) + 3))
  }

  method LoadYuyv(src: array<byte>, n: nat, i: nat) returns (p: Yuv)
    requires i < n && src.Length >= 4 * ((n + 1) / 2)
    ensures p == YuyvPicture(src[..])(i)
  {
    p := Yuv(src[2 * i], src[4 * (i / 2) + 1], src[4 * (i / 2) + 3]);
  }

  method RenderYuyv(dst: array<byte>, src: array<byte>, n: nat, ghost q: int -> Yuv)
    requires dst != src && dst.Length >= 3 * n && src.Length >= 4 * ((n + 1) / 2)
    requires q == YuyvPicture(src[..])
    modifies dst
    ensures Rendered(dst[..], old(dst[..]), q, n)
  {
    NothingRendered(dst[..], q);
    for i := 0 to n
      invariant src[..] == old(src[..])
      invariant Rendered(dst[..], old(dst[..]), q, i)
    {
      var p := LoadYuyv(src, n, i);
      StorePixel(dst, i, p, q, old(dst[..]));
    }
  }

  /** YUYVToRGB24. The last pixel of an odd count still reads a whole group of four bytes. */
  method YUYVToRGB24(RGB24: array?<byte>, YUYV: array?<byte>, width: int, height: int) returns (r: int)
    requires Accepted(RGB24, YUYV, width, height) ==>
               && RGB24 != YUYV && RGB24.Length >= 3 * (width * height)
               && YUYV.Length >= 4 * ((width * height + 1) / 2)
    modifies if RGB24 == null then {} else {RGB24}
    ensures r == if Accepted(RGB24, YUYV, width, height) then 0 else -1
    ensures r == 0 ==> Rendered(RGB24[..], old(RGB24[..]), YuyvPicture(YUYV[..]), Pixels(width, height))
    ensures r != 0 && RGB24 != null ==> RGB24[..] == old(RGB24[..])
  {
    if !Accepted(RGB24, YUYV, width, height) {
      return -1;
    }
    RowMajorInBounds(height - 1, width - 1, height, width);
    RenderYuyv(RGB24, YUYV, width * height, YuyvPicture(YUYV[..]));
    return 0;
  }

  // ----- YUYV to NV21 -----

  /** Byte o of the j-th group of four in row y of an interleaved frame of width w. */
  function GroupByte(w: nat, y: nat, j: nat, o: nat): nat {
    y * (2 * w) + 4 * j + o
  }

  /** Where sample u of a chroma plane comes from: U (o = 1) from the even rows, V (o = 3) from the odd ones. */
  function Origin(w: nat, o: nat, u: nat): nat
    requires w / 2 > 0
  {
    GroupByte(w, 2 * (u / (w / 2)) + (if o == 1 then 0 else 1), u % (w / 2), o)
  }

  /** Sample u of the plane that starts at base is the sample it comes from. */
  ghost predicate Taken(d: seq<byte>, base: nat, s: seq<byte>, w: nat, o: nat, u: nat)
    requires w / 2 > 0
  {
    base + 2 * u < |d| && Origin(w, o, u) < |s| && d[base + 2 * u] == s[Origin(w, o, u)]
  }

  ghost predicate Plane(d: seq<byte>, base: nat, s: seq<byte>, w: nat, o: nat, m: nat)
    requires w / 2 > 0
  {
    forall u: nat :: u < m ==> Taken(d, base, s, w, o, u)
  }

  /** Byte j does not belong to the m samples of the plane at base. */
  ghost predicate Elsewhere(base: nat, m: nat, j: nat) {
    j < base || (j - base) % 2 == 1 || j >= base + 2 * m
  }

  ghost predicate OnlyPlaneChanged(d: seq<byte>, e: seq<byte>, base: nat, m: nat) {
    |d| == |e| && forall j: nat :: j < |d| && Elsewhere(base, m, j) ==> d[j] == e[j]
  }

  lemma GroupOrigin(w: nat, h: nat, o: nat, i: nat, j: nat)
    requires (o == 1 && i % 2 == 0) || (o == 3 && i % 2 == 1)
    requires i < h && j < w / 2
    ensures 4 * j + o <= 2 * w
    ensures 0 <= (i / 2) * (w / 2) + j && Origin(w, o, (i / 2) * (w / 2) + j) == GroupByte(w, i, j, o) < h * (2 * w)
  {
    RowMajorDivMod(i / 2, j, w / 2);
    RowMajorInBounds(i, 4 * j + o, h, 2 * w);
  }

  method StoreSample(dst: array<byte>, base: nat, src: array<byte>, w: nat, o: nat, u: nat, from: nat, ghost m: nat)
    requires dst != src && w / 2 > 0 && u < m && base + 2 * (m - 1) < dst.Length
    requires Origin(w, o, u) == from < src.Length
    requires Plane(dst[..], base, src[..], w, o, u)
    modifies dst
    ensures Plane(dst[..], base, src[..], w, o, u + 1)
    ensures OnlyPlaneChanged(old(dst[..]), dst[..], base, m)
  {
    dst[base + 2 * u] := src[from];
    forall v: nat | v < u + 1 ensures Taken(dst[..], base, src[..], w, o, v) {
      assert v < u ==> Taken(old(dst[..]), base, src[..], w, o, v);
    }
  }

  /** One row of the chroma loop; the break on 4*j + o > 2*w is never taken. */
  method CopyChromaRow(dst: array<byte>, base: nat, src: array<byte>, w: nat, h: nat, o: nat, i: nat, index: nat,
                       ghost m: nat)
    requires dst != src && w / 2 > 0 && i < h
    requires (o == 1 && i % 2 == 0) || (o == 3 && i % 2 == 1)
    requires index == (i / 2) * (w / 2) && index + w / 2 <= m
    requires base + 2 * (m - 1) < dst.Length && src.Length >= h * (2 * w)
    requires Plane(dst[..], base, src[..], w, o, index)
    modifies dst
    ensures Plane(dst[..], base, src[..], w, o, index + w / 2)
    ensures OnlyPlaneChanged(old(dst[..]), dst[..], base, m)
  {
    ghost var s := src[..];
    for j := 0 to w / 2
      invariant src[..] == s
      invariant Plane(dst[..], base, s, w, o, index + j)
      invariant OnlyPlaneChanged(old(dst[..]), dst[..], base, m)
    {
      GroupOrigin(w, h, o, i, j);
      if 4 * j + o > 2 * w {
        break;
      }
      StoreSample(dst, base, src, w, o, index + j, GroupByte(w, i, j, o), m);
    }
  }

  lemma SamplesBefore(rows: nat, total: nat, half: nat)
    requires rows < total && half > 0
    ensures rows * half + half == (rows + 1) * half <= total * half
  {
    RowMajorInBounds(rows, half - 1, total, half);
    assert (rows + 1) * half == rows * half + half;
  }

  /** Sizes for which the loops stay inside their buffers: an odd last row still has its U samples. */
  ghost predicate Nv21Buffers(dst: array?<byte>, src: array?<byte>, width: int, height: int) {
    Accepted(dst, src, width, height) ==>
      && dst != src && src.Length >= height * (2 * width)
      && dst.Length >= width * height + 2 * (((height + 1) / 2) * (width / 2))
  }

  /** What YUYVToNV21 makes of the input, for every size. */
  ghost predicate IsNv21Of(d: seq<byte>, s: seq<byte>, w: nat, h: nat, n: nat) {
    && n <= |d| && 2 * n <= |s|
    && (forall i :: 0 <= i < n ==> d[i] == s[2 * i])
    && (w / 2 > 0 ==> Plane(d, n + 1, s, w, 1, ((h + 1) / 2) * (w / 2)))
    && (w / 2 > 0 ==> Plane(d, n, s, w, 3, (h / 2) * (w / 2)))
  }

  lemma FrameSizes(w: nat, h: nat)
    requires w > 0 && h > 0
    ensures w * h > 0 && h * (2 * w) == 2 * (w * h)
    ensures ((h + 1) / 2) * (w / 2) >= 0 && (h / 2) * (w / 2) >= 0
  {
    RowMajorInBounds(h - 1, w - 1, h, w);
    MulMono(0, (h + 1) / 2, w / 2);
    MulMono(0, h / 2, w / 2);
  }

  /** The two planes interleave without meeting. */
  lemma PlaneKept(d: seq<byte>, e: seq<byte>, base: nat, s: seq<byte>, w: nat, o: nat, m: nat, other: nat, k: nat)
    requires w / 2 > 0 && Plane(d, base, s, w, o, m) && OnlyPlaneChanged(d, e, other, k) && base == other + 1
    ensures Plane(e, base, s, w, o, m)
  {
    forall u: nat | u < m ensures Taken(e, base, s, w, o, u) {
      assert Taken(d, base, s, w, o, u) && Elsewhere(other, k, base + 2 * u);
    }
  }

  method ToNv21(dst: array<byte>, src: array<byte>, w: nat, h: nat, n: nat, ghost mu: nat, ghost mv: nat)
    requires dst != src && n == w * h && src.Length >= h * (2 * w) == 2 * n && dst.Length >= n + 2 * mu
    requires mu == ((h + 1) / 2) * (w / 2) && mv == (h / 2) * (w / 2)
    modifies dst
    ensures IsNv21Of(dst[..], src[..], w, h, n)
  {
    ghost var s := src[..];
    var i := 0;
    while i < n
      invariant 0 <= i <= n && src[..] == s
      invariant forall k :: 0 <= k < i ==> dst[k] == s[2 * k]
    {
      dst[i] := src[2 * i];
      i := i + 1;
    }
    if w / 2 > 0 {
      MulMono(h / 2, (h + 1) / 2, w / 2);
      ghost var luma := dst[..];
      CopyChroma(dst, n + 1, src, w, h, 1, mu);
      ghost var withU := dst[..];
      CopyChroma(dst, n, src, w, h, 3, mv);
      assert forall k: nat :: k < n ==> Elsewhere(n + 1, mu, k) && Elsewhere(n, mv, k);
      PlaneKept(withU, dst[..], n + 1, s, w, 1, mu, n, mv);
    }
  }

  method YUYVToNV21(NV21: array?<byte>, YUYV: array?<byte>, width: int, height: int) returns (r: int)
    requires Nv21Buffers(NV21, YUYV, width, height)
    modifies if NV21 == null then {} else {NV21}
    ensures r == if Accepted(NV21, YUYV, width, height) then 0 else -1
    ensures r == 0 ==> width * height > 0 && IsNv21Of(NV21[..], YUYV[..], width, height, width * height)
    ensures r != 0 && NV21 != null ==> NV21[..] == old(NV21[..])
  {
    if !Accepted(NV21, YUYV, width, height) {
      return -1;
    }
    FrameSizes(width, height);
    ToNv21(NV21, YUYV, width, height, width * height, ((height + 1) / 2) * (width / 2), (height / 2) * (width / 2));
    return 0;
  }

  /** The chroma loop of YUYVToNV21 for U (o = 1, even rows) or V (o = 3, odd rows). */
  method CopyChroma(dst: array<byte>, base: nat, src: array<byte>, w: nat, h: nat, o: nat, ghost m: nat)
    requires dst != src && w / 2 > 0 && (o == 1 || o == 3)
    requires m == (if o == 1 then (h + 1) / 2 else h / 2) * (w / 2)
    requires m > 0 ==> base + 2 * (m - 1) < dst.Length
    requires src.Length >= h * (2 * w)
    modifies dst
    ensures Plane(dst[..], base, src[..], w, o, m)
    ensures OnlyPlaneChanged(old(dst[..]), dst[..], base, m)
  {
    ghost var rows := 0;
    var index := 0;
    ghost var s := src[..];
    for i := 0 to h
      invariant rows == if o == 1 then (i + 1) / 2 else i / 2
      invariant index == rows * (w / 2)
      invariant src[..] == s
      invariant Plane(dst[..], base, s, w, o, index)
      invariant OnlyPlaneChanged(old(dst[..]), dst[..], base, m)
    {
      if (i % 2 == 0) == (o == 1) {
        assert rows == i / 2;
        SamplesBefore(rows, if o == 1 then (h + 1) / 2 else h / 2, w / 2);
        CopyChromaRow(dst, base, src, w, h, o, i, index, m);
        index := index + w / 2;
        rows := rows + 1;
      }
    }
  }

  lemma QuarterSamples(w: nat, h: nat, n: nat)
    requires w > 0 && h > 0 && w % 2 == 0 && h % 2 == 0 && n == w * h
    ensures ((h + 1) / 2) * (w / 2) == n / 4 && (h / 2) * (w / 2) == n / 4 && n % 4 == 0
  {
    ChromaInBounds(w, h, 0, 0);
    assert (h + 1) / 2 == h / 2;
    assert (h / 2) * (w / 2) == (w / 2) * (h / 2);
  }

  /** For even sizes the two planes and the luma cover every byte of the 3/2*w*h output. */
  lemma EveryByteIsWritten(d: seq<byte>, s: seq<byte>, w: nat, h: nat, n: nat, k: nat)
    requires w > 0 && h > 0 && w % 2 == 0 && h % 2 == 0 && n == w * h && k < n + n / 2
    requires IsNv21Of(d, s, w, h, n)
    ensures k < n ==> d[k] == s[2 * k]
    ensures k >= n && (k - n) % 2 == 1 ==> Taken(d, n + 1, s, w, 1, (k - n) / 2)
    ensures k >= n && (k - n) % 2 == 0 ==> Taken(d, n, s, w, 3, (k - n) / 2)
  {
    QuarterSamples(w, h, n);
  }

  // ----- The picture -----

  ghost predicate PairShares(s: seq<byte>, w: nat, r: nat, j: nat) {
    && At(s, GroupByte(w, 2 * r, j, 1)) == At(s, GroupByte(w, 2 * r + 1, j, 1))
    && At(s, GroupByte(w, 2 * r, j, 3)) == At(s, GroupByte(w, 2 * r + 1, j, 3))
  }

  /** In every pair of rows, group j carries the same chroma in both. */
  ghost predicate SharesChroma(s: seq<byte>, w: nat, h: nat) {
    forall r: nat, j: nat :: r < h / 2 && j < w / 2 ==> PairShares(s, w, r, j)
  }

  /** The group that pixel i of an even-width frame belongs to. */
  lemma GroupOfPixel(w: nat, y: nat, x: nat, o: nat)
    requires w % 2 == 0 && x < w
    ensures 0 <= y * w + x && 4 * ((y * w + x) / 2) + o == GroupByte(w, y, x / 2, o)
  {
    var half := w / 2;
    assert y * w == 2 * (y * half) by { assert w == 2 * half; assert y * (2 * half) == 2 * (y * half); }
    assert y * (2 * w) == 2 * (y * w);
    assert (y * w + x) / 2 == y * half + x / 2;
  }

  /** The chroma sample of pixel (x, y), below the count of samples, comes from group x/2 of the row pair of y. */
  lemma OriginOfPixel(w: nat, h: nat, y: nat, x: nat)
    requires w % 2 == 0 && h % 2 == 0 && x < w && y < h
    ensures Chroma(w, x, y) < (h / 2) * (w / 2) <= ((h + 1) / 2) * (w / 2)
    ensures Origin(w, 1, Chroma(w, x, y)) == GroupByte(w, 2 * (y / 2), x / 2, 1)
    ensures Origin(w, 3, Chroma(w, x, y)) == GroupByte(w, 2 * (y / 2) + 1, x / 2, 3)
  {
    RowMajorDivMod(y / 2, x / 2, w / 2);
    RowMajorInBounds(y / 2, x / 2, h / 2, w / 2);
    assert (h + 1) / 2 == h / 2;
  }

  /** A sample taken from one row of a pair is the sample of the other row too. */
  lemma PairSample(s: seq<byte>, w: nat, y: nat, x: nat)
    requires w % 2 == 0 && x < w && PairShares(s, w, y / 2, x / 2)
    ensures At(s, GroupByte(w, 2 * (y / 2), x / 2, 1)) == At(s, GroupByte(w, y, x / 2, 1))
    ensures At(s, GroupByte(w, 2 * (y / 2) + 1, x / 2, 3)) == At(s, GroupByte(w, y, x / 2, 3))
  {
    assert y == 2 * (y / 2) || y == 2 * (y / 2) + 1;
  }

  lemma Nv21Sample(d: seq<byte>, n: nat, i: nat, c: nat)
    ensures Sample(d, Nv21(n), i, c) == Yuv(At(d, i), At(d, n + 1 + 2 * c), At(d, n + 2 * c))
  {
  }

  lemma YuyvSample(s: seq<byte>, i: nat)
    ensures YuyvPicture(s)(i) == Yuv(At(s, 2 * i), At(s, 4 * (i / 2) + 1), At(s, 4 * (i / 2) + 3))
  {
  }

  lemma ChromaTaken(d: seq<byte>, s: seq<byte>, w: nat, h: nat, n: nat, y: nat, x: nat)
    requires w > 0 && w % 2 == 0 && h % 2 == 0 && x < w && y < h && IsNv21Of(d, s, w, h, n)
    ensures Taken(d, n + 1, s, w, 1, Chroma(w, x, y)) && Taken(d, n, s, w, 3, Chroma(w, x, y))
  {
    OriginOfPixel(w, h, y, x);
  }

  lemma SampleTaken(d: seq<byte>, s: seq<byte>, n: nat, i: nat, c: nat, gu: nat, gv: nat)
    requires i < n <= |d| && 2 * n <= |s| && d[i] == s[2 * i]
    requires n + 1 + 2 * c < |d| && gu < |s| && gv < |s| && d[n + 1 + 2 * c] == s[gu] && d[n + 2 * c] == s[gv]
    ensures Sample(d, Nv21(n), i, c) == Yuv(At(s, 2 * i), At(s, gu), At(s, gv))
  {
    Nv21Sample(d, n, i, c);
  }

  /** The NV21 picture takes U from the even and V from the odd row of the pixel's pair. */
  lemma PixelThroughNv21(d: seq<byte>, s: seq<byte>, w: nat, h: nat, n: nat, y: nat, x: nat, i: nat)
    requires w > 0 && w % 2 == 0 && h % 2 == 0 && n == w * h && IsNv21Of(d, s, w, h, n)
    requires x < w && y < h && i < n && y == i / w && x == i % w
    ensures Picture(d, w, Nv21(n))(i) ==
              Yuv(At(s, 2 * i), At(s, GroupByte(w, 2 * (y / 2), x / 2, 1)),
                  At(s, GroupByte(w, 2 * (y / 2) + 1, x / 2, 3)))
  {
    var c := Chroma(w, x, y);
    ChromaTaken(d, s, w, h, n, y, x);
    OriginOfPixel(w, h, y, x);
    SampleTaken(d, s, n, i, c, Origin(w, 1, c), Origin(w, 3, c));
  }

  lemma PixelDirect(s: seq<byte>, w: nat, y: nat, x: nat, i: nat)
    requires w > 0 && w % 2 == 0 && x < w && i == y * w + x
    ensures YuyvPicture(s)(i) == Yuv(At(s, 2 * i), At(s, GroupByte(w, y, x / 2, 1)), At(s, GroupByte(w, y, x / 2, 3)))
  {
    YuyvSample(s, i);
    GroupOfPixel(w, y, x, 1);
    GroupOfPixel(w, y, x, 3);
  }

  /** The chroma of pixel (x, y) is what the pair's even row (U) and odd row (V) hold. */
  ghost predicate PixelShares(s: seq<byte>, w: nat, y: nat, x: nat) {
    && At(s, GroupByte(w, 2 * (y / 2), x / 2, 1)) == At(s, GroupByte(w, y, x / 2, 1))
    && At(s, GroupByte(w, 2 * (y / 2) + 1, x / 2, 3)) == At(s, GroupByte(w, y, x / 2, 3))
  }

  lemma SamePixelIff(d: seq<byte>, s: seq<byte>, w: nat, h: nat, n: nat, y: nat, x: nat, i: nat)
    requires w > 0 && w % 2 == 0 && h % 2 == 0 && n == w * h && IsNv21Of(d, s, w, h, n)
    requires x < w && y < h && i < n && y == i / w && x == i % w && i == y * w + x
    ensures Picture(d, w, Nv21(n))(i) == YuyvPicture(s)(i) <==> PixelShares(s, w, y, x)
  {
    PixelThroughNv21(d, s, w, h, n, y, x, i);
    PixelDirect(s, w, y, x, i);
  }

  lemma PixelsOfPair(s: seq<byte>, w: nat, r: nat, j: nat)
    ensures PixelShares(s, w, 2 * r, 2 * j) && PixelShares(s, w, 2 * r + 1, 2 * j) ==> PairShares(s, w, r, j)
  {
    assert (2 * r) / 2 == r && (2 * r + 1) / 2 == r && (2 * j) / 2 == j;
  }

  ghost predicate SamePixels(d: seq<byte>, s: seq<byte>, w: nat, n: nat) {
    forall i :: 0 <= i < n ==> Picture(d, w, Nv21(n))(i) == YuyvPicture(s)(i)
  }

  lemma PixelAtPlace(d: seq<byte>, s: seq<byte>, w: nat, h: nat, n: nat, y: nat, x: nat)
    requires w > 0 && w % 2 == 0 && h % 2 == 0 && n == w * h && IsNv21Of(d, s, w, h, n)
    requires SamePixels(d, s, w, n) && x < w && y < h
    ensures PixelShares(s, w, y, x)
  {
    RowMajorInBounds(y, x, h, w);
    RowMajorDivMod(y, x, w);
    SamePixelIff(d, s, w, h, n, y, x, y * w + x);
  }

  lemma PlaceShares(s: seq<byte>, w: nat, h: nat, y: nat, x: nat)
    requires w % 2 == 0 && h % 2 == 0 && x < w && y < h && SharesChroma(s, w, h)
    ensures PixelShares(s, w, y, x)
  {
    assert PairShares(s, w, y / 2, x / 2);
    PairSample(s, w, y, x);
  }

  lemma SharedPixel(d: seq<byte>, s: seq<byte>, w: nat, h: nat, n: nat, i: nat)
    requires w > 0 && w % 2 == 0 && h % 2 == 0 && n == w * h && IsNv21Of(d, s, w, h, n) && SharesChroma(s, w, h)
    requires i < n
    ensures Picture(d, w, Nv21(n))(i) == YuyvPicture(s)(i)
  {
    var y, x := RasterPosition(w, h, i);
    PlaceShares(s, w, h, y, x);
    SamePixelIff(d, s, w, h, n, y, x, i);
  }

  lemma SharedIsSame(d: seq<byte>, s: seq<byte>, w: nat, h: nat, n: nat)
    requires w > 0 && w % 2 == 0 && h % 2 == 0 && n == w * h && IsNv21Of(d, s, w, h, n) && SharesChroma(s, w, h)
    ensures SamePixels(d, s, w, n)
  {
    forall i | 0 <= i < n ensures Picture(d, w, Nv21(n))(i) == YuyvPicture(s)(i) { SharedPixel(d, s, w, h, n, i); }
  }

  /** Going through NV21 shows the same pixels exactly when each pair of rows shares its chroma; the RGB image is
      then the same too. */
  lemma Nv21ShowsSamePictureIff(d: seq<byte>, s: seq<byte>, w: nat, h: nat, n: nat)
    requires w > 0 && w % 2 == 0 && h % 2 == 0 && n == w * h && IsNv21Of(d, s, w, h, n)
    ensures SamePixels(d, s, w, n) <==> SharesChroma(s, w, h)
    ensures SharesChroma(s, w, h) ==> RgbImage(Picture(d, w, Nv21(n)), n) == RgbImage(YuyvPicture(s), n)
  {
    if SharesChroma(s, w, h) {
      SharedIsSame(d, s, w, h, n);
      SamePixelsSameImage(Picture(d, w, Nv21(n)), YuyvPicture(s), n);
    }
    if SamePixels(d, s, w, n) {
      forall r: nat, j: nat | r < h / 2 && j < w / 2 ensures PairShares(s, w, r, j) {
        PixelAtPlace(d, s, w, h, n, 2 * r, 2 * j);
        PixelAtPlace(d, s, w, h, n, 2 * r + 1, 2 * j);
        PixelsOfPair(s, w, r, j);
      }
    }
  }
}
