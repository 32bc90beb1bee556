// Model of the in-place string normaliser of atasmart.strpool.c: swap_strings,
// clean_strings, drop_spaces and read_string, on NUL-terminated byte buffers.
module SmartStrings {
  import opened Bytes

  const SPACE: byte := 32

  // ----- Reference definitions -----

  /** The bytes of each pair exchanged. */
  function Swapped(s: seq<byte>): seq<byte>
    requires |s| % 2 == 0
  {
    if s == [] then [] else [s[1], s[0]] + Swapped(s[2..])
  }

  lemma {:induction false} SwapIsInvolution(s: seq<byte>)
    requires |s| % 2 == 0
    ensures |Swapped(s)| == |s| && Swapped(Swapped(s)) == s
  {
    if s != [] {
      SwapIsInvolution(s[2..]);
      assert Swapped(s)[2..] == Swapped(s[2..]);
      assert [s[0], s[1]] + s[2..] == s;
    }
  }

  /** Each byte comes from the other place of its pair. */
  lemma {:induction false} SwappedAt(s: seq<byte>, i: nat)
    requires |s| % 2 == 0 && i < |s|
    ensures |Swapped(s)| == |s| && Swapped(s)[i] == s[if i % 2 == 0 then i + 1 else i - 1]
  {
    if |s| > 2 { SwappedAt(s[2..], if i < 2 then 0 else i - 2); }
  }

  /** The C string a buffer holds. */
  function CStr(s: seq<byte>): seq<byte> {
    if s == [] || s[0] == 0 then [] else [s[0]] + CStr(s[1..])
  }

  lemma {:induction false} CStrIs(s: seq<byte>, n: nat)
    requires n < |s| && s[n] == 0 && forall i :: 0 <= i < n ==> s[i] != 0
    ensures CStr(s) == s[..n]
  {
    if n > 0 {
      CStrIs(s[1..], n - 1);
      assert s[..n] == [s[0]] + s[1..][..n - 1];
    }
  }

  predicate Printable(c: byte) { 32 <= c < 127 }

  function Cleaned(t: seq<byte>): seq<byte> {
    seq(|t|, i requires 0 <= i < |t| => if Printable(t[i]) then t[i] else SPACE)
  }

  /** The maximal runs of bytes other than space. */
  function Words(t: seq<byte>): seq<seq<byte>> {
    if t == [] then []
    else
      var front, c := t[..|t| - 1], t[|t| - 1];
      var ws := Words(front);
      if c == SPACE then ws
      else if front == [] || front[|front| - 1] == SPACE || ws == [] then ws + [[c]]
      else ws[..|ws| - 1] + [ws[|ws| - 1] + [c]]
  }

  /** The words separated by single spaces. */
  function Join(ws: seq<seq<byte>>): seq<byte> {
    if ws == [] then []
    else if |ws| == 1 then ws[0]
    else Join(ws[..|ws| - 1]) + [SPACE] + ws[|ws| - 1]
  }

  function Squeezed(t: seq<byte>): seq<byte> { Join(Words(t)) }

  lemma JoinNewWord(ws: seq<seq<byte>>, w: seq<byte>)
    ensures Join(ws + [w]) == if ws == [] then w else Join(ws) + [SPACE] + w
  {
    assert (ws + [w])[..|ws|] == ws;
  }

  lemma Regroup(a: seq<byte>, b: seq<byte>, c: seq<byte>)
    ensures a + (b + c) == (a + b) + c
  {
  }

  function LongerWord(ws: seq<seq<byte>>, c: byte): seq<seq<byte>>
    requires ws != []
  {
    ws[..|ws| - 1] + [ws[|ws| - 1] + [c]]
  }

  lemma JoinLongerWord(ws: seq<seq<byte>>, c: byte)
    requires ws != []
    ensures Join(LongerWord(ws, c)) == Join(ws) + [c]
  {
    var front, last := ws[..|ws| - 1], ws[|ws| - 1];
    JoinNewWord(front, last + [c]);
    assert front == [] ==> ws == [last];
    Regroup(if front == [] then [] else Join(front) + [SPACE], last, [c]);
  }

  ghost predicate AreWords(ws: seq<seq<byte>>) {
    forall i :: 0 <= i < |ws| ==> ws[i] != [] && SPACE !in ws[i]
  }

  /** There is a word exactly when there is a byte other than space. */
  lemma {:induction false} WordsAreWords(t: seq<byte>)
    ensures AreWords(Words(t))
    ensures Words(t) == [] <==> forall i :: 0 <= i < |t| ==> t[i] == SPACE
  {
    if t != [] {
      WordsAreWords(t[..|t| - 1]);
    }
  }

  /** The squeezed text is no longer than the text, and shorter once a word has been followed by a space. */
  lemma {:induction false} SqueezedFits(t: seq<byte>)
    ensures |Squeezed(t)| <= |t|
    ensures t != [] && t[|t| - 1] == SPACE ==> |Squeezed(t)| < |t|
  {
    if t != [] {
      var front, c := t[..|t| - 1], t[|t| - 1];
      assert t == front + [c];
      SqueezedFits(front);
      WordsAreWords(front);
      SqueezedAppend(front, c);
    }
  }

  predicate InWord(t: seq<byte>) { t != [] && t[|t| - 1] != SPACE }

  lemma WordsAppend(t: seq<byte>, c: byte)
    ensures c == SPACE ==> Words(t + [c]) == Words(t)
    ensures c != SPACE && !InWord(t) ==> Words(t + [c]) == Words(t) + [[c]]
    ensures c != SPACE && InWord(t) ==> Words(t) != [] && Words(t + [c]) == LongerWord(Words(t), c)
  {
    assert (t + [c])[..|t|] == t;
    WordsAreWords(t);
  }

  /** One more byte of text. */
  lemma SqueezedAppend(t: seq<byte>, c: byte)
    ensures c == SPACE ==> Squeezed(t + [c]) == Squeezed(t)
    ensures c != SPACE && !InWord(t) ==> Squeezed(t + [c]) == if Words(t) == [] then [c] else Squeezed(t) + [SPACE, c]
    ensures c != SPACE && InWord(t) ==> Squeezed(t + [c]) == Squeezed(t) + [c]
  {
    var ws := Words(t);
    WordsAppend(t, c);
    if c != SPACE {
      if InWord(t) {
        JoinLongerWord(ws, c);
      } else {
        JoinNewWord(ws, [c]);
        Regroup(Join(ws), [SPACE], [c]);
      }
    }
  }

  // ----- What squeezing achieves -----

  /** No space at either end and no two in a row. */
  ghost predicate Tidy(t: seq<byte>) {
    && (t != [] ==> t[0] != SPACE && t[|t| - 1] != SPACE)
    && forall i :: 0 <= i < |t| - 1 ==> !(t[i] == SPACE && t[i + 1] == SPACE)
  }

  lemma {:induction false} JoinIsTidy(ws: seq<seq<byte>>)
    requires AreWords(ws)
    ensures Tidy(Join(ws)) && (Join(ws) == [] <==> ws == [])
    decreases |ws|
  {
    if ws != [] {
      var front, last := ws[..|ws| - 1], ws[|ws| - 1];
      JoinIsTidy(front);
      assert forall i :: 0 <= i < |last| ==> last[i] in last;
      JoinNewWord(front, last);
      assert front + [last] == ws;
    }
  }

  lemma LongerBehind(vs: seq<seq<byte>>, ws: seq<seq<byte>>, c: byte)
    requires ws != []
    ensures LongerWord(vs + ws, c) == vs + LongerWord(ws, c)
  {
  }

  /** A space parts two texts, whatever spaces stand around it: the words of both, in order, and nothing else. */
  lemma {:induction false} SpacePartsWords(a: seq<byte>, b: seq<byte>)
    ensures Words(a + [SPACE] + b) == Words(a) + Words(b)
    decreases |b|
  {
    if b == [] {
      assert a + [SPACE] + b == a + [SPACE];
      WordsAppend(a, SPACE);
      assert Words(b) == [] && Words(a) + [] == Words(a);
    } else {
      var front, c := b[..|b| - 1], b[|b| - 1];
      var t := a + [SPACE] + front;
      assert b == front + [c];
      Regroup(a + [SPACE], front, [c]);
      SpacePartsWords(a, front);
      WordsAppend(t, c);
      WordsAppend(front, c);
      assert InWord(t) <==> InWord(front);
      if c != SPACE && InWord(front) {
        LongerBehind(Words(a), Words(front), c);
      } else if c != SPACE {
        assert Words(a) + (Words(front) + [[c]]) == Words(a) + Words(front) + [[c]];
      }
    }
  }

  lemma LongerLast(ws: seq<seq<byte>>, w: seq<byte>, c: byte)
    ensures LongerWord(ws + [w], c) == ws + [w + [c]]
  {
  }

  /** A word after nothing or after a space is one more word. */
  lemma {:induction false} WordsOfWordAfter(t: seq<byte>, w: seq<byte>)
    requires t == [] || t[|t| - 1] == SPACE
    requires w != [] && SPACE !in w
    ensures Words(t + w) == Words(t) + [w]
    decreases |w|
  {
    var front, c := w[..|w| - 1], w[|w| - 1];
    assert c in w;
    assert w == front + [c];
    Regroup(t, front, [c]);
    WordsAppend(t + front, c);
    if front == [] {
      assert t + front == t && w == [c];
    } else {
      WordsOfWordAfter(t, front);
      assert front[|front| - 1] in w;
      assert (t + front)[|t + front| - 1] == front[|front| - 1];
      LongerLast(Words(t), front, c);
    }
  }

  /** Joining words and splitting again gives the words back. */
  lemma {:induction false} WordsOfJoin(ws: seq<seq<byte>>)
    requires AreWords(ws)
    ensures Words(Join(ws)) == ws
    decreases |ws|
  {
    if ws != [] {
      var front, last := ws[..|ws| - 1], ws[|ws| - 1];
      WordsOfJoin(front);
      JoinNewWord(front, last);
      assert front + [last] == ws && [] + last == last;
      WordsOfWordAfter([], last);
      if front != [] { SpacePartsWords(Join(front), last); }
    }
  }

  /** Squeezing is idempotent, and its result is tidy. */
  lemma SqueezeIsIdempotent(t: seq<byte>)
    ensures Squeezed(Squeezed(t)) == Squeezed(t)
    ensures Tidy(Squeezed(t))
  {
    WordsAreWords(t);
    WordsOfJoin(Words(t));
    JoinIsTidy(Words(t));
  }

  ghost predicate AllPrintable(t: seq<byte>) {
    forall i :: 0 <= i < |t| ==> Printable(t[i])
  }

  lemma PrintableConcat(a: seq<byte>, b: seq<byte>)
    requires AllPrintable(a) && AllPrintable(b)
    ensures AllPrintable(a + b)
  {
  }

  lemma PrintableAppend(t: seq<byte>, c: byte)
    requires AllPrintable(Squeezed(t)) && Printable(c)
    ensures AllPrintable(Squeezed(t + [c]))
  {
    var text := Squeezed(t);
    SqueezedAppend(t, c);
    if c != SPACE {
      if InWord(t) { PrintableConcat(text, [c]); } else { PrintableConcat(text, [SPACE, c]); }
    }
  }

  lemma {:induction false} SqueezedStaysPrintable(t: seq<byte>)
    requires AllPrintable(t)
    ensures AllPrintable(Squeezed(t))
  {
    if t != [] {
      var front, c := t[..|t| - 1], t[|t| - 1];
      SqueezedStaysPrintable(front);
      PrintableAppend(front, c);
      assert front + [c] == t;
    }
  }

  // ----- The loops -----

  method SwapStrings(s: array<byte>, len: nat)
    requires len % 2 == 0 && len <= s.Length
    modifies s
    ensures s[..len] == Swapped(old(s[..len])) && s[len..] == old(s[len..])
  {
    ghost var was := s[..len];
    var i := 0;
    while i < len
      invariant 0 <= i <= len && i % 2 == 0
      invariant s[i..] == old(s[i..])
      invariant s[..i] == Swapped(was[..i])
    {
      assert s[i] == was[i] && s[i + 1] == was[i + 1];
      SwappedAppend(was[..i], was[i], was[i + 1]);
      assert was[..i + 2] == was[..i] + [was[i], was[i + 1]];
      var t := s[i];
      s[i] := s[i + 1];
      s[i + 1] := t;
      i := i + 2;
    }
    assert was[..len] == was;
  }

  lemma {:induction false} SwappedAppend(s: seq<byte>, x: byte, y: byte)
    requires |s| % 2 == 0
    ensures Swapped(s + [x, y]) == Swapped(s) + [y, x]
  {
    if s == [] {
      assert s + [x, y] == [x, y] && [x, y][2..] == [];
    } else {
      SwappedAppend(s[2..], x, y);
      assert (s + [x, y])[2..] == s[2..] + [x, y];
    }
  }

  /** The buffer holds the string t. */
  ghost predicate Holds(s: seq<byte>, t: seq<byte>) {
    |t| < |s| && s[..|t|] == t && 0 !in t && s[|t|] == 0
  }

  /** clean_strings: every byte of the string that is not printable ASCII becomes a space. */
  method CleanStrings(s: array<byte>, ghost t: seq<byte>)
    requires Holds(s[..], t)
    modifies s
    ensures Holds(s[..], Cleaned(t))
  {
    var e := 0;
    assert forall i :: 0 <= i < |t| ==> s[..][..|t|][i] == t[i] && t[i] in t;
    while s[e] != 0
      invariant 0 <= e <= |t| && s[|t|] == 0
      invariant forall i :: e <= i < |t| ==> s[i] == t[i] && t[i] != 0
      invariant forall i :: 0 <= i < e ==> s[i] == if Printable(t[i]) then t[i] else SPACE
      decreases |t| - e
    {
      if s[e] < 32 || s[e] >= 127 {
        s[e] := SPACE;
      }
      e := e + 1;
    }
  }

  /** Between two rounds of drop_spaces: the first d bytes are the squeezed text read so far, the write position
      has not passed the read position, and what is still to be read is intact. */
  ghost predicate Dropping(s: seq<byte>, t: seq<byte>, r: nat, d: nat, prevSpace: bool) {
    && d <= r <= |t| < |s|
    && s[..d] == Squeezed(t[..r])
    && s[r..|t|] == t[r..] && s[|t|] == 0
    && (prevSpace <==> r > 0 && t[r - 1] == SPACE && Words(t[..r]) != [])
    && (!prevSpace ==> Words(t[..r]) == [] || (r > 0 && t[r - 1] != SPACE))
    && (Words(t[..r]) == [] ==> r == |t| || t[r] != SPACE)
  }

  /** drop_spaces: the string becomes its words joined by single spaces. */
  method DropSpaces(s: array<byte>, ghost t: seq<byte>)
    requires Holds(s[..], t)
    modifies s
    ensures CStr(s[..]) == Squeezed(t)
  {
    var r := SkipSpaces(s, t);
    OnlySpaces(t[..r]);
    var d: nat := 0;
    var prevSpace := false;
    while s[r] != 0
      invariant Dropping(s[..], t, r, d, prevSpace)
      invariant r < |t| ==> s[r] == t[r]
      decreases |t| - r
    {
      d, prevSpace := DropStep(s, r, d, prevSpace, t);
      r := r + 1;
    }
    s[d] := 0;
    assert t[..|t|] == t;
    SqueezedNoNul(t);
    CStrIs(s[..], d);
  }

  lemma {:induction false} SqueezedNoNul(t: seq<byte>)
    requires 0 !in t
    ensures forall i :: 0 <= i < |Squeezed(t)| ==> Squeezed(t)[i] != 0
  {
    if t != [] {
      SqueezedNoNul(t[..|t| - 1]);
      SqueezedAppend(t[..|t| - 1], t[|t| - 1]);
      assert t[..|t| - 1] + [t[|t| - 1]] == t;
    }
  }

  /** s += strspn(s, " ") */
  method SkipSpaces(s: array<byte>, ghost t: seq<byte>) returns (r: nat)
    requires Holds(s[..], t)
    ensures r <= |t| && (r < |t| ==> t[r] != SPACE) && forall i :: 0 <= i < r ==> t[i] == SPACE
  {
    r := 0;
    while s[r] == SPACE
      invariant r <= |t| && forall i :: 0 <= i < r ==> t[i] == SPACE
      decreases |t| - r
    {
      assert r < |t| ==> s[..][..|t|][r] == t[r];
      r := r + 1;
    }
    assert r < |t| ==> s[..][..|t|][r] == t[r];
  }

  /** What one more byte of text does to the squeezed text, and why there is room for it. */
  lemma StepOfText(t: seq<byte>, r: nat, prevSpace: bool)
    requires r < |t|
    requires prevSpace <==> r > 0 && t[r - 1] == SPACE && Words(t[..r]) != []
    requires !prevSpace ==> Words(t[..r]) == [] || (r > 0 && t[r - 1] != SPACE)
    requires Words(t[..r]) == [] ==> t[r] != SPACE
    ensures Squeezed(t[..r + 1])
         == Squeezed(t[..r]) + if t[r] == SPACE then [] else if prevSpace then [SPACE, t[r]] else [t[r]]
    ensures |Squeezed(t[..r])| <= r - if prevSpace then 1 else 0
    ensures Words(t[..r + 1]) != []
  {
    SqueezedAppend(t[..r], t[r]);
    SqueezedFits(t[..r]);
    WordsAreWords(t[..r + 1]);
    WordsAreWords(t[..r]);
    assert t[..r] + [t[r]] == t[..r + 1];
    if Words(t[..r]) == [] {
      assert Squeezed(t[..r]) == [];
      assert t[..r + 1][r] != SPACE;
    } else {
      var i :| 0 <= i < r && t[..r][i] != SPACE;
      assert t[..r + 1][i] != SPACE;
    }
  }

  lemma OnlySpaces(t: seq<byte>)
    requires forall i :: 0 <= i < |t| ==> t[i] == SPACE
    ensures Words(t) == [] && Squeezed(t) == []
  {
    WordsAreWords(t);
  }

  /** One byte of text: at most two bytes are written, at d and d + 1, and d + 1 is never past the byte just read. */
  method DropStep(s: array<byte>, r: nat, d: nat, prevSpace: bool, ghost t: seq<byte>)
    returns (d': nat, prevSpace': bool)
    requires Dropping(s[..], t, r, d, prevSpace) && r < |t| && s[r] == t[r]
    modifies s
    ensures Dropping(s[..], t, r + 1, d', prevSpace')
    ensures r + 1 < |t| ==> s[r + 1] == t[r + 1]
  {
    StepOfText(t, r, prevSpace);
    assert |s[..d]| == d;
    var c := s[r];
    d', prevSpace' := d, prevSpace;
    if prevSpace {
      if c != SPACE {
        prevSpace' := false;
        s[d] := SPACE;
        s[d + 1] := c;
        d' := d + 2;
      }
    } else if c == SPACE {
      prevSpace' := true;
    } else {
      s[d] := c;
      d' := d + 1;
    }
    assert s[..][r + 1..|t|] == old(s[..])[r..|t|][1..];
    assert t[r + 1..] == t[r..][1..];
    assert r + 1 < |t| ==> s[..][r + 1..|t|][0] == t[r + 1..][0];
  }

  // ----- read_string -----

  /** read_string: copy, terminate, swap, clean and squeeze. */
  method ReadString(d: array<byte>, s: seq<byte>)
    requires |s| % 2 == 0 && |s| < d.Length
    modifies d
    ensures CStr(d[..]) == Squeezed(Cleaned(CStr(Swapped(s) + [0])))
    ensures AllPrintable(CStr(d[..])) && Tidy(CStr(d[..]))
  {
    CopySwapped(d, s);
    ghost var t := CStr(Swapped(s) + [0]);
    CStrPrefix(Swapped(s) + [0]);
    assert d[..][..|t|] == d[..|s| + 1][..|t|];
    CleanStrings(d, t);
    DropSpaces(d, Cleaned(t));
    SqueezeIsIdempotent(Cleaned(t));
    SqueezedStaysPrintable(Cleaned(t));
  }

  /** The memcpy, the terminator and the swap. */
  method CopySwapped(d: array<byte>, s: seq<byte>)
    requires |s| % 2 == 0 && |s| < d.Length
    modifies d
    ensures d[..|s| + 1] == Swapped(s) + [0]
  {
    var len := |s|;
    forall i | 0 <= i < len { d[i] := s[i]; }
    d[len] := 0;
    assert d[..len] == s;
    ghost var tail := d[len..];
    SwapStrings(d, len);
    assert d[len] == tail[0];
    SwapIsInvolution(s);
  }

  lemma {:induction false} CStrPrefix(s: seq<byte>)
    requires 0 in s
    ensures |CStr(s)| < |s| && s[..|CStr(s)|] == CStr(s) && s[|CStr(s)|] == 0 && 0 !in CStr(s)
  {
    if s[0] != 0 {
      CStrPrefix(s[1..]);
    }
  }
}
