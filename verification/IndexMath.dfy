// Arithmetic of row-major indices.
module IndexMath {

  lemma MulMono(a: nat, b: nat, m: nat)
    requires a <= b
    ensures 0 <= a * m <= b * m
  {
  }

  lemma MulGap(d: int, m: int)
    requires m > 0
    ensures d >= 1 ==> d * m >= m
    ensures d <= -1 ==> d * m <= -m
  {
    if d >= 1 {
      assert d * m == (d - 1) * m + m;
    } else if d <= -1 {
      assert d * m == (d + 1) * m - m;
    }
  }

  lemma RowMajorInjective(r: int, c: int, r': int, c': int, row: int)
    requires 0 <= c - c' < row || 0 <= c' - c < row
    requires r * row + c == r' * row + c'
    ensures r == r' && c == c'
  {
    assert (r - r') * row == r * row - r' * row;
    MulGap(r - r', row);
  }

  lemma RowMajorInBounds(r: int, c: int, h: int, row: int)
    requires 0 <= r < h && 0 <= c < row
    ensures 0 <= r * row + c < h * row
  {
    assert (h - r) * row == h * row - r * row;
    MulGap(h - r, row);
    MulGap(r, row);
  }

  lemma RowMajorDivMod(r: nat, c: nat, row: nat)
    requires c < row
    ensures (r * row + c) / row == r && (r * row + c) % row == c
  {
    var i := r * row + c;
    RowMajorInjective(i / row, i % row, r, c, row);
  }
}
