// Model of the run-length font encoder in mkfont.c and of the decoder in
// gr_init_font (graphics.cpp). A run byte holds a count of at most 127 in its low
// seven bits and the pixel value in its top bit; 0x00 ends the data.
module FontRuns {
  import opened Bytes

  /** The pixels one run byte stands for. */
  function Expand(b: byte): seq<bool> {
    seq(b % 128, _ => b >= 128)
  }

  function Decode(s: seq<byte>): seq<bool> {
    if s == [] then [] else Decode(s[..|s| - 1]) + Expand(s[|s| - 1])
  }

  /** What the format means: run k adds as many pixels as its low seven bits say, all set when its top bit is. */
  lemma {:induction false} RunMeans(s: seq<byte>, k: nat, j: nat)
    requires k < |s| && j < s[k] % 128
    ensures |Decode(s[..k + 1])| == |Decode(s[..k])| + s[k] % 128 <= |Decode(s)|
    ensures Decode(s)[|Decode(s[..k])| + j] == (s[k] >= 128)
    decreases |s|
  {
    assert s[..k + 1][..k] == s[..k];
    if k == |s| - 1 {
      assert s[..k + 1] == s;
    } else {
      var front := s[..|s| - 1];
      RunMeans(front, k, j);
      assert front[..k] == s[..k] && front[..k + 1] == s[..k + 1];
    }
  }

  ghost predicate Nonzero(s: seq<byte>) {
    forall i :: 0 <= i < |s| ==> s[i] != 0
  }

  function RunByte(val: bool, count: nat): byte
    requires 1 <= count <= 127
  {
    count + if val then 128 else 0
  }

  /** The thresholded bitmap: a pixel is set where the first of its three bytes is 0. */
  function Bitmap(data: seq<byte>, n: nat): seq<bool>
    requires |data| >= 3 * n
  {
    seq(n, i requires 0 <= i < n => data[3 * i] == 0)
  }

  /** Run bytes whose pixels are a prefix of img reaching q pixels or more number at least m. */
  ghost predicate Needs(img: seq<bool>, q: nat, m: nat) {
    forall s: seq<byte> :: Decode(s) <= img && |Decode(s)| >= q ==> |s| >= m
  }

  /** Where the encoder has to close a run, everybody needs one more byte. */
  lemma {:induction false} ClosedRunCostsOne(img: seq<bool>, start: nat, i: nat, m: nat, s: seq<byte>)
    requires start < i < |img| && Needs(img, start + 1, m)
    requires i == start + 127 || img[i] != img[start]
    requires Decode(s) <= img && |Decode(s)| >= i + 1
    ensures |s| >= m + 1
    decreases |s|
  {
    var front := s[..|s| - 1];
    assert Decode(front) <= img;
    if |Decode(front)| >= i + 1 {
      ClosedRunCostsOne(img, start, i, m, front);
    } else if |Decode(front)| <= start {
      assert false;
    }
  }

  lemma NeedsAfterClosing(img: seq<bool>, start: nat, i: nat, m: nat)
    requires start < i < |img| && Needs(img, start + 1, m)
    requires i == start + 127 || img[i] != img[start]
    ensures Needs(img, i + 1, m + 1)
  {
    forall s: seq<byte> | Decode(s) <= img && |Decode(s)| >= i + 1 ensures |s| >= m + 1 {
      ClosedRunCostsOne(img, start, i, m, s);
    }
  }

  /** runs covers the pixels before the open run, the open run covers the rest of the first i. */
  ghost predicate Encoded(img: seq<bool>, i: nat, runs: seq<byte>, runVal: bool, runCount: nat) {
    && 1 <= runCount <= 127 && runCount <= i <= |img|
    && Decode(runs) == img[..i - runCount]
    && (forall k :: i - runCount <= k < i ==> img[k] == runVal)
    && Nonzero(runs)
    && Needs(img, i - runCount + 1, |runs| + 1)
  }

  lemma ExtendRun(img: seq<bool>, i: nat, runs: seq<byte>, runVal: bool, runCount: nat)
    requires Encoded(img, i, runs, runVal, runCount)
    requires i < |img| && img[i] == runVal && runCount < 127
    ensures Encoded(img, i + 1, runs, runVal, runCount + 1)
  {
  }

  lemma CloseRun(img: seq<bool>, i: nat, runs: seq<byte>, runVal: bool, runCount: nat)
    requires Encoded(img, i, runs, runVal, runCount)
    ensures Decode(runs + [RunByte(runVal, runCount)]) == img[..i]
    ensures Nonzero(runs + [RunByte(runVal, runCount)])
    ensures i < |img| && (img[i] != runVal || runCount == 127) ==>
              Encoded(img, i + 1, runs + [RunByte(runVal, runCount)], img[i], 1)
  {
    var longer := runs + [RunByte(runVal, runCount)];
    assert longer[..|longer| - 1] == runs;
    assert img[..i] == img[..i - runCount] + Expand(RunByte(runVal, runCount));
    if i < |img| && (img[i] != runVal || runCount == 127) {
      NeedsAfterClosing(img, i - runCount, i, |runs| + 1);
    }
  }

  lemma FirstPixel(img: seq<bool>)
    requires |img| > 0
    ensures Encoded(img, 1, [], img[0], 1)
  {
  }

  lemma WholeImageNeeds(img: seq<bool>, runs: seq<byte>, runVal: bool, runCount: nat)
    requires Encoded(img, |img|, runs, runVal, runCount)
    ensures forall s: seq<byte> :: Decode(s) == img ==> |s| >= |runs| + 1
  {
  }

  /** One more pixel: the open run grows, or is emitted and a new one starts. */
  method Feed(runs: seq<byte>, runVal: bool, runCount: nat, val: bool, ghost img: seq<bool>, ghost i: nat)
    returns (runs': seq<byte>, runVal': bool, runCount': nat)
    requires Encoded(img, i, runs, runVal, runCount) && i < |img| && img[i] == val
    ensures Encoded(img, i + 1, runs', runVal', runCount')
  {
    runs', runVal', runCount' := runs, runVal, runCount;
    if val == runVal && runCount < 127 {
      ExtendRun(img, i, runs, runVal, runCount);
      runCount' := runCount + 1;
    } else {
      CloseRun(img, i, runs, runVal, runCount);
      runs' := runs + [RunByte(runVal, runCount)];
      runVal' := val;
      runCount' := 1;
    }
  }

  /** The encoder: a nonzero run byte string for the bitmap, as short as any, then the terminator. */
  method Encode(data: array<byte>, n: nat) returns (out: seq<byte>)
    requires n > 0 && data.Length >= 3 * n
    ensures |out| > 0 && out[|out| - 1] == 0
    ensures Nonzero(out[..|out| - 1])
    ensures Decode(out[..|out| - 1]) == Bitmap(data[..], n)
    ensures forall s: seq<byte> :: Nonzero(s) && Decode(s) == Bitmap(data[..], n) ==> |s| >= |out| - 1
  {
    ghost var img := Bitmap(data[..], n);
    var runs: seq<byte> := [];
    var x := 0;
    var runVal := data[x] == 0;
    var runCount := 1;
    var left := n - 1;
    x := x + 3;
    FirstPixel(img);
    while left > 0
      invariant x == 3 * (n - left) && 0 <= left < n
      invariant Encoded(img, n - left, runs, runVal, runCount)
    {
      var val := data[x] == 0;
      assert img[n - left] == val;
      x := x + 3;
      runs, runVal, runCount := Feed(runs, runVal, runCount, val, img, n - left);
      left := left - 1;
    }
    CloseRun(img, n, runs, runVal, runCount);
    WholeImageNeeds(img, runs, runVal, runCount);
    runs := runs + [RunByte(runVal, runCount)];
    assert img[..n] == img;
    out := runs + [0];
    assert out[..|out| - 1] == runs;
    assert Decode(runs) == img && Nonzero(runs);
  }

  /** The decoder: fill runs of 255 or 0 until the terminator. */
  method Unpack(rundata: seq<byte>, bits: array<byte>, ghost len: nat)
    requires len < |rundata| && rundata[len] == 0 && Nonzero(rundata[..len])
    requires |Decode(rundata[..len])| <= bits.Length
    modifies bits
    ensures var img := Decode(rundata[..len]);
            && (forall i :: 0 <= i < |img| ==> bits[i] == if img[i] then 255 else 0)
            && (forall i :: |img| <= i < bits.Length ==> bits[i] == old(bits[i]))
  {
    var k := 0;
    var pos := 0;
    var data := rundata[k];
    k := k + 1;
    while data != 0
      invariant 1 <= k <= len + 1 && data == rundata[k - 1]
      invariant pos == |Decode(rundata[..k - 1])|
      invariant Decode(rundata[..k - 1]) <= Decode(rundata[..len])
      invariant forall i :: 0 <= i < pos ==> bits[i] == if Decode(rundata[..k - 1])[i] then 255 else 0
      invariant forall i :: pos <= i < bits.Length ==> bits[i] == old(bits[i])
      decreases len - k
    {
      assert rundata[..k][..k - 1] == rundata[..k - 1];
      DecodePrefix(rundata[..len], k);
      assert rundata[..len][..k] == rundata[..k];
      forall i | pos <= i < pos + data % 128 {
        bits[i] := if data >= 128 then 255 else 0;
      }
      pos := pos + data % 128;
      data := rundata[k];
      k := k + 1;
    }
    assert k - 1 == len;
  }

  lemma {:induction false} DecodePrefix(s: seq<byte>, k: nat)
    requires k <= |s|
    ensures Decode(s[..k]) <= Decode(s)
    decreases |s|
  {
    if k == |s| {
      assert s[..k] == s;
    } else {
      DecodePrefix(s[..|s| - 1], k);
      assert s[..|s| - 1][..k] == s[..k];
    }
  }

  /** A font image survives being encoded and unpacked again. */
  method RoundTrip(data: array<byte>, n: nat, bits: array<byte>)
    requires n > 0 && data.Length >= 3 * n && bits.Length == n && bits != data
    modifies bits
    ensures forall i :: 0 <= i < n ==> bits[i] == if data[3 * i] == 0 then 255 else 0
  {
    var out := Encode(data, n);
    Unpack(out, bits, |out| - 1);
  }
}
