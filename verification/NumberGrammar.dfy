// What grok_number of ppport.h accepts, and what it is to report: numerals with '.' as the only radix separator.
module NumberGrammar {
  import opened Wrappers
  import opened Numerals

  /** The flag word: IS_NUMBER_IN_UV, GREATER_THAN_UV_MAX, NOT_INT, NEG, INFINITY, NAN. */
  datatype NumType = NumType(inUv: bool, greater: bool, notInt: bool, neg: bool, infinity: bool, nan: bool)

  const REJECTED: NumType := NumType(false, false, false, false, false, false)

  predicate IsSpace(c: char) { c == ' ' || c == '\t' || c == '\n' || c == '\r' || c == '\U{000C}' }

  predicate IsDigit(c: char) { '0' <= c <= '9' }

  /** The end of the longest run of characters satisfying p from i on. */
  function Skip(s: string, p: char -> bool, i: nat): (j: nat)
    requires i <= |s|
    ensures i <= j <= |s|
    decreases |s| - i
  {
    if i < |s| && p(s[i]) then Skip(s, p, i + 1) else i
  }

  function Spaces(s: string, i: nat): (j: nat)
    requires i <= |s|
    ensures i <= j <= |s|
  {
    Skip(s, IsSpace, i)
  }

  function DigitRun(s: string, i: nat): (j: nat)
    requires i <= |s|
    ensures i <= j <= |s|
  {
    Skip(s, IsDigit, i)
  }

  lemma {:induction false} SkipIsRun(s: string, p: char -> bool, i: nat, j: nat)
    requires i <= j <= |s| && (forall k :: i <= k < j ==> p(s[k])) && (j < |s| ==> !p(s[j]))
    ensures Skip(s, p, i) == j
    decreases j - i
  {
    if i < j { SkipIsRun(s, p, i + 1, j); }
  }

  lemma {:induction false} SkipFacts(s: string, p: char -> bool, i: nat)
    requires i <= |s|
    ensures forall k :: i <= k < Skip(s, p, i) ==> p(s[k])
    ensures Skip(s, p, i) < |s| ==> !p(s[Skip(s, p, i)])
    decreases |s| - i
  {
    if i < |s| && p(s[i]) { SkipFacts(s, p, i + 1); }
  }

  /** The digits of a string, whatever else is in it. */
  function DigitValues(s: string): seq<nat> {
    seq(|s|, i requires 0 <= i < |s| => if IsDigit(s[i]) then s[i] as int - '0' as int else 0)
  }

  function IntValue(s: string): nat { Value(DigitValues(s), 10) }

  lemma IntValueAppend(s: string, c: char)
    requires IsDigit(c)
    ensures IntValue(s + [c]) == IntValue(s) * 10 + (c as int - '0' as int)
  {
    assert DigitValues(s + [c]) == DigitValues(s) + [c as int - '0' as int];
    ValueAppend(DigitValues(s), c as int - '0' as int, 10);
  }

  lemma IntValueGrows(s: string, i: nat, j: nat, k: nat)
    requires i <= j <= k <= |s|
    ensures IntValue(s[i..k]) >= IntValue(s[i..j])
  {
    assert DigitValues(s[i..k]) == DigitValues(s[i..j]) + DigitValues(s[j..k]);
    ValueGrows(DigitValues(s[i..j]), DigitValues(s[j..k]), 10);
  }

  lemma IntValueBound(s: string)
    ensures IntValue(s) < Power(10, |s|)
  {
    ValueBound(DigitValues(s), 10);
  }

  // ----- Numerals and their meaning -----

  datatype Body =
    | Decimal(digits: string, point: bool, fraction: string)
    | Infinity(word: string)
    | NotANumber(word: string)

  datatype Numeral = Numeral(lead: string, sign: string, body: Body, exponent: string, trail: string)

  predicate All(s: string, p: char -> bool) {
    forall i :: 0 <= i < |s| ==> p(s[i])
  }

  /** c is the letter, in either case. */
  predicate IsLetter(c: char, lower: char) {
    c == lower || c as int + 32 == lower as int
  }

  predicate IsInf(w: string) {
    |w| == 3 && IsLetter(w[0], 'i') && IsLetter(w[1], 'n') && IsLetter(w[2], 'f')
  }

  predicate IsInity(w: string) {
    |w| == 5 && IsLetter(w[0], 'i') && IsLetter(w[1], 'n') && IsLetter(w[2], 'i') && IsLetter(w[3], 't')
      && IsLetter(w[4], 'y')
  }

  predicate IsNan(w: string) {
    |w| == 3 && IsLetter(w[0], 'n') && IsLetter(w[1], 'a') && IsLetter(w[2], 'n')
  }

  predicate IsSign(c: char) { c == '-' || c == '+' }

  predicate GoodBody(b: Body) {
    match b
    case Decimal(digits, point, fraction) =>
      && All(digits, IsDigit) && All(fraction, IsDigit)
      && (digits != "" || fraction != "") && (fraction != "" ==> point)
    case Infinity(w) => IsInf(w) || (|w| == 8 && IsInf(w[..3]) && IsInity(w[3..]))
    case NotANumber(w) => IsNan(w)
  }

  function BodyText(b: Body): string {
    match b
    case Decimal(digits, point, fraction) => digits + ((if point then "." else "") + fraction)
    case Infinity(w) => w
    case NotANumber(w) => w
  }

  /** Where the digits of an exponent start: after the e and a sign. */
  function ExponentDigits(s: string, i: nat): (j: nat)
    requires i < |s|
    ensures i < j <= |s|
  {
    if i + 1 < |s| && IsSign(s[i + 1]) then i + 2 else i + 1
  }

  predicate GoodExponent(e: string) {
    e == "" || (IsLetter(e[0], 'e') && ExponentDigits(e, 0) < |e| && All(e[ExponentDigits(e, 0)..], IsDigit))
  }

  predicate GoodSign(sign: string) { sign == "" || (|sign| == 1 && IsSign(sign[0])) }

  predicate WellFormed(n: Numeral) {
    && All(n.lead, IsSpace) && GoodSign(n.sign) && GoodBody(n.body)
    && GoodExponent(n.exponent) && (n.exponent != "" ==> n.body.Decimal?)
    && All(n.trail, IsSpace)
  }

  function Text(n: Numeral): string {
    n.lead + (n.sign + (BodyText(n.body) + (n.exponent + n.trail)))
  }

  /** The flags of a body before any exponent. */
  function BodyMeaning(b: Body, neg: bool, uvMax: nat): NumType {
    match b
    case Decimal(digits, point, _) =>
      NumType(IntValue(digits) <= uvMax, IntValue(digits) > uvMax, point, neg, false, false)
    case Infinity(_) => NumType(false, false, true, neg, true, false)
    case NotANumber(_) => NumType(false, false, true, neg, false, true)
  }

  /** An exponent leaves nothing but the sign and IS_NUMBER_NOT_INT. */
  function Meaning(n: Numeral, uvMax: nat): NumType {
    var neg := n.sign == "-";
    if n.exponent != "" then NumType(false, false, true, neg, false, false) else BodyMeaning(n.body, neg, uvMax)
  }

  // ----- Reading a numeral -----

  /** Something read, and where it ends. */
  datatype Piece<T> = Piece(value: T, end: nat)

  function SignEnd(s: string, i: nat): (j: nat)
    requires i <= |s|
    ensures i <= j <= |s|
  {
    if i < |s| && IsSign(s[i]) then i + 1 else i
  }

  function ParseDecimal(s: string, i: nat): (b: Option<Piece<Body>>)
    requires i < |s|
    ensures b.Some? ==> i <= b.value.end <= |s|
  {
    var j := DigitRun(s, i);
    if j < |s| && s[j] == '.' then
      var k := DigitRun(s, j + 1);
      if i < j || j + 1 < k then Some(Piece(Decimal(s[i..j], true, s[j + 1..k]), k)) else None
    else if i < j then Some(Piece(Decimal(s[i..j], false, ""), j))
    else None
  }

  function ParseWord(s: string, i: nat): (b: Option<Piece<Body>>)
    requires i < |s|
    ensures b.Some? ==> i <= b.value.end <= |s|
  {
    if i + 3 > |s| then None
    else if IsInf(s[i..i + 3]) then
      if i + 3 < |s| && IsLetter(s[i + 3], 'i') then
        if i + 8 <= |s| && IsInity(s[i + 3..i + 8]) then Some(Piece(Infinity(s[i..i + 8]), i + 8)) else None
      else Some(Piece(Infinity(s[i..i + 3]), i + 3))
    else if IsNan(s[i..i + 3]) then Some(Piece(NotANumber(s[i..i + 3]), i + 3))
    else None
  }

  function ParseBody(s: string, i: nat): (b: Option<Piece<Body>>)
    requires i <= |s|
    ensures b.Some? ==> i <= b.value.end <= |s|
  {
    if i == |s| then None
    else if IsDigit(s[i]) || s[i] == '.' then ParseDecimal(s, i)
    else ParseWord(s, i)
  }

  function ParseExponent(s: string, i: nat): (e: Option<Piece<string>>)
    requires i <= |s|
    ensures e.Some? ==> i <= e.value.end <= |s|
  {
    if i < |s| && IsLetter(s[i], 'e') then
      var j := ExponentDigits(s, i);
      var k := DigitRun(s, j);
      if k > j then Some(Piece(s[i..k], k)) else None
    else Some(Piece("", i))
  }

  /** The exponent, where the body allows one. */
  function ParseTail(s: string, i: nat, body: Body): (e: Option<Piece<string>>)
    requires i <= |s|
    ensures e.Some? ==> i <= e.value.end <= |s|
  {
    if body.Decimal? then ParseExponent(s, i) else Some(Piece("", i))
  }

  function Parse(s: string): Option<Numeral> {
    var a := Spaces(s, 0);
    var b := SignEnd(s, a);
    match ParseBody(s, b)
    case None => None
    case Some(Piece(body, e)) =>
      match ParseTail(s, e, body)
      case None => None
      case Some(Piece(exponent, x)) =>
        if Spaces(s, x) == |s| then Some(Numeral(s[..a], s[a..b], body, exponent, s[x..])) else None
  }

  /** What one reading of s is made of. */
  ghost predicate Parts(s: string, a: nat, b: nat, e: nat, x: nat, body: Body, exponent: string) {
    && a <= b <= e <= x <= |s|
    && a == Spaces(s, 0) && b == SignEnd(s, a)
    && ParseBody(s, b) == Some(Piece(body, e)) && ParseTail(s, e, body) == Some(Piece(exponent, x))
    && Spaces(s, x) == |s|
  }

  lemma ParseOfParts(s: string, n: Numeral, b: nat, e: nat, x: nat)
    requires Parts(s, |n.lead|, b, e, x, n.body, n.exponent)
    requires s[..|n.lead|] == n.lead && s[|n.lead|..b] == n.sign && s[x..] == n.trail
    ensures Parse(s) == Some(n)
  {
  }

  lemma NothingToRead(s: string, b: nat)
    requires b == SignEnd(s, Spaces(s, 0))
    ensures ParseBody(s, b).None? ==> Parse(s).None?
    ensures ParseBody(s, b).Some? && ParseTail(s, ParseBody(s, b).value.end, ParseBody(s, b).value.value).None? ==>
              Parse(s).None?
  {
  }

  lemma MoreToRead(s: string, b: nat, e: nat, x: nat, body: Body, exponent: string)
    requires b == SignEnd(s, Spaces(s, 0)) && ParseBody(s, b) == Some(Piece(body, e)) && e <= |s|
    requires ParseTail(s, e, body) == Some(Piece(exponent, x)) && x <= |s| && Spaces(s, x) < |s|
    ensures Parse(s).None?
  {
  }

  lemma PartsOfParse(s: string) returns (a: nat, b: nat, e: nat, x: nat)
    requires Parse(s).Some?
    ensures var n := Parse(s).value; Parts(s, a, b, e, x, n.body, n.exponent)
    ensures var n := Parse(s).value; n.lead == s[..a] && n.sign == s[a..b] && n.trail == s[x..]
  {
    a := Spaces(s, 0);
    b := SignEnd(s, a);
    var p := ParseBody(s, b).value;
    e := p.end;
    x := ParseTail(s, e, p.value).value.end;
  }

  // ----- What is read is there -----

  lemma Split(s: string, i: nat, j: nat)
    requires i <= j <= |s|
    ensures s[i..] == s[i..j] + s[j..]
  {
  }

  lemma PointSplits(s: string, i: nat, j: nat, k: nat)
    requires i <= j < k <= |s| && s[j] == '.'
    ensures s[i..k] == s[i..j] + ("." + s[j + 1..k])
  {
    assert s[j..k] == "." + s[j + 1..k];
  }

  lemma DecimalIsThere(s: string, i: nat)
    requires i < |s| && ParseDecimal(s, i).Some?
    ensures var p := ParseDecimal(s, i).value; GoodBody(p.value) && s[i..p.end] == BodyText(p.value)
  {
    var j := DigitRun(s, i);
    SkipFacts(s, IsDigit, i);
    if j < |s| && s[j] == '.' {
      var k := DigitRun(s, j + 1);
      SkipFacts(s, IsDigit, j + 1);
      PointSplits(s, i, j, k);
    } else {
      assert s[i..j] == s[i..j] + ("" + "");
    }
  }

  lemma BodyIsThere(s: string, i: nat)
    requires i <= |s| && ParseBody(s, i).Some?
    ensures var p := ParseBody(s, i).value; GoodBody(p.value) && s[i..p.end] == BodyText(p.value)
  {
    if IsDigit(s[i]) || s[i] == '.' {
      DecimalIsThere(s, i);
    } else if IsInf(s[i..i + 3]) && i + 3 < |s| && IsLetter(s[i + 3], 'i') {
      assert s[i..i + 8][..3] == s[i..i + 3] && s[i..i + 8][3..] == s[i + 3..i + 8];
    }
  }

  lemma TailIsThere(s: string, i: nat, body: Body)
    requires i <= |s| && ParseTail(s, i, body).Some?
    ensures var p := ParseTail(s, i, body).value; GoodExponent(p.value) && s[i..p.end] == p.value
    ensures !body.Decimal? ==> ParseTail(s, i, body).value.value == ""
  {
    if body.Decimal? && i < |s| && IsLetter(s[i], 'e') {
      var j := ExponentDigits(s, i);
      var k := DigitRun(s, j);
      SkipFacts(s, IsDigit, j);
      var e := s[i..k];
      assert s[j] == e[j - i] && IsDigit(s[j]);
      assert ExponentDigits(e, 0) == j - i;
      assert forall m :: j - i <= m < |e| ==> e[m] == s[i + m];
    }
  }

  /** What is read is a numeral and is the whole string. */
  lemma ParseIsSound(s: string)
    requires Parse(s).Some?
    ensures WellFormed(Parse(s).value) && Text(Parse(s).value) == s
  {
    var a, b, e, x := PartsOfParse(s);
    var n := Parse(s).value;
    PartsAreGood(s, a, b, e, x, n.body, n.exponent);
    Split(s, 0, a);
    Split(s, a, b);
    Split(s, b, e);
    Split(s, e, x);
    assert s[0..] == s && s[0..a] == s[..a];
  }

  lemma PartsAreGood(s: string, a: nat, b: nat, e: nat, x: nat, body: Body, exponent: string)
    requires Parts(s, a, b, e, x, body, exponent)
    ensures WellFormed(Numeral(s[..a], s[a..b], body, exponent, s[x..]))
    ensures s[b..e] == BodyText(body) && s[e..x] == exponent
  {
    BodyIsThere(s, b);
    TailIsThere(s, e, body);
    SkipFacts(s, IsSpace, 0);
    SkipFacts(s, IsSpace, x);
  }

  // ----- Every numeral is read, and as what it is -----

  /** t stands in s at i. */
  ghost predicate At(s: string, i: nat, t: string) {
    i + |t| <= |s| && forall k :: 0 <= k < |t| ==> s[i + k] == t[k]
  }

  lemma AtBoth(s: string, i: nat, t: string, u: string)
    requires At(s, i, t + u)
    ensures At(s, i, t) && At(s, i + |t|, u)
  {
    forall k | 0 <= k < |t| ensures s[i + k] == t[k] { assert (t + u)[k] == t[k]; }
    forall k | 0 <= k < |u| ensures s[i + |t| + k] == u[k] { assert (t + u)[|t| + k] == u[k]; }
  }

  lemma RunIsRead(s: string, i: nat, run: string, p: char -> bool)
    requires At(s, i, run) && All(run, p) && (i + |run| < |s| ==> !p(s[i + |run|]))
    ensures Skip(s, p, i) == i + |run| && s[i..i + |run|] == run
  {
    forall k | i <= k < i + |run| ensures p(s[k]) { assert run[k - i] == s[i + (k - i)]; }
    SkipIsRun(s, p, i, i + |run|);
  }

  /** What may follow a body: an exponent, spaces, nothing. */
  predicate BodyMayEnd(s: string, i: nat) {
    i < |s| ==> IsSpace(s[i]) || IsLetter(s[i], 'e')
  }

  lemma PointIsRead(s: string, i: nat, b: Body)
    requires b.Decimal? && b.point && GoodBody(b) && At(s, i, b.digits)
    requires At(s, i + |b.digits| + 1, b.fraction) && s[i + |b.digits|] == '.'
    requires BodyMayEnd(s, i + |b.digits| + 1 + |b.fraction|)
    ensures i < |s| && ParseDecimal(s, i) == Some(Piece(b, i + |b.digits| + 1 + |b.fraction|))
  {
    RunIsRead(s, i, b.digits, IsDigit);
    RunIsRead(s, i + |b.digits| + 1, b.fraction, IsDigit);
  }

  lemma PlainIsRead(s: string, i: nat, digits: string)
    requires digits != "" && All(digits, IsDigit) && At(s, i, digits) && BodyMayEnd(s, i + |digits|)
    ensures i < |s| && ParseDecimal(s, i) == Some(Piece(Decimal(digits, false, ""), i + |digits|))
  {
    RunIsRead(s, i, digits, IsDigit);
  }

  lemma PointParts(s: string, i: nat, b: Body)
    requires b.Decimal? && b.point && At(s, i, BodyText(b))
    ensures |BodyText(b)| == |b.digits| + 1 + |b.fraction| && i + |BodyText(b)| <= |s|
    ensures At(s, i, b.digits) && s[i + |b.digits|] == '.' && At(s, i + |b.digits| + 1, b.fraction)
  {
    AtBoth(s, i, b.digits, "." + b.fraction);
    AtBoth(s, i + |b.digits|, ".", b.fraction);
    assert s[i + |b.digits| + 0] == "."[0];
  }

  lemma DecimalIsRead(s: string, i: nat, b: Body)
    requires b.Decimal? && GoodBody(b) && At(s, i, BodyText(b)) && BodyMayEnd(s, i + |BodyText(b)|)
    ensures i < |s| && ParseDecimal(s, i) == Some(Piece(b, i + |BodyText(b)|))
  {
    if b.point {
      PointParts(s, i, b);
      PointIsRead(s, i, b);
    } else {
      assert BodyText(b) == b.digits;
      PlainIsRead(s, i, b.digits);
    }
  }

  lemma WordIsRead(s: string, i: nat, b: Body)
    requires !b.Decimal? && GoodBody(b) && At(s, i, b.word) && BodyMayEnd(s, i + |b.word|)
    ensures i < |s| && ParseWord(s, i) == Some(Piece(b, i + |b.word|))
  {
    assert s[i..i + |b.word|] == b.word;
    assert s[i..i + 3] == b.word[..3];
    if |b.word| == 8 {
      assert s[i + 3..i + 8] == b.word[3..];
      assert s[i + 3] == b.word[3];
    }
  }

  lemma BodyStarts(b: Body)
    requires GoodBody(b)
    ensures BodyText(b) != "" && !IsSpace(BodyText(b)[0]) && !IsSign(BodyText(b)[0])
    ensures b.Decimal? <==> IsDigit(BodyText(b)[0]) || BodyText(b)[0] == '.'
  {
  }

  lemma BodyIsRead(s: string, i: nat, b: Body)
    requires GoodBody(b) && At(s, i, BodyText(b)) && BodyMayEnd(s, i + |BodyText(b)|)
    ensures i < |s| && !IsSpace(s[i]) && !IsSign(s[i])
    ensures ParseBody(s, i) == Some(Piece(b, i + |BodyText(b)|))
  {
    BodyStarts(b);
    assert s[i + 0] == BodyText(b)[0];
    if b.Decimal? {
      DecimalIsRead(s, i, b);
    } else {
      WordIsRead(s, i, b);
    }
  }

  lemma ExponentIsRead(s: string, i: nat, e: string)
    requires GoodExponent(e) && At(s, i, e) && (i + |e| < |s| ==> IsSpace(s[i + |e|]))
    ensures ParseExponent(s, i) == Some(Piece(e, i + |e|))
  {
    if e != "" {
      var k := ExponentDigits(e, 0);
      assert s[i + 0] == e[0] && s[i + 1] == e[1];
      assert At(s, i + k, e[k..]) by {
        forall m | 0 <= m < |e[k..]| ensures s[i + k + m] == e[k..][m] {
          assert e[k..][m] == e[k + m] == s[i + (k + m)];
        }
      }
      RunIsRead(s, i + k, e[k..], IsDigit);
      assert s[i..i + |e|] == e;
    }
  }

  /** Where the parts of a numeral stand. */
  lemma PartsStand(n: Numeral)
    ensures var s := Text(n); var b := |n.lead| + |n.sign|; var e := b + |BodyText(n.body)|;
            && At(s, 0, n.lead) && At(s, |n.lead|, n.sign) && At(s, b, BodyText(n.body)) && At(s, e, n.exponent)
            && At(s, e + |n.exponent|, n.trail) && |s| == e + |n.exponent| + |n.trail|
  {
    var s := Text(n);
    var fromExponent := n.exponent + n.trail;
    var fromBody := BodyText(n.body) + fromExponent;
    AtBoth(s, 0, n.lead, n.sign + fromBody);
    AtBoth(s, |n.lead|, n.sign, fromBody);
    AtBoth(s, |n.lead| + |n.sign|, BodyText(n.body), fromExponent);
    AtBoth(s, |n.lead| + |n.sign| + |BodyText(n.body)|, n.exponent, n.trail);
  }

  /** A string in which the parts of a numeral stand one after the other is read as that numeral. */
  lemma StandingIsRead(s: string, n: Numeral, b: nat, e: nat, x: nat)
    requires WellFormed(n) && b == |n.lead| + |n.sign| && e == b + |BodyText(n.body)| && x == e + |n.exponent|
    requires At(s, 0, n.lead) && At(s, |n.lead|, n.sign) && At(s, b, BodyText(n.body)) && At(s, e, n.exponent)
    requires At(s, x, n.trail) && |s| == x + |n.trail|
    ensures Parse(s) == Some(n)
  {
    PartsAreRead(s, n, b, e, x);
    ParseOfParts(s, n, b, e, x);
  }

  lemma PartsAreRead(s: string, n: Numeral, b: nat, e: nat, x: nat)
    requires WellFormed(n) && b == |n.lead| + |n.sign| && e == b + |BodyText(n.body)| && x == e + |n.exponent|
    requires At(s, 0, n.lead) && At(s, |n.lead|, n.sign) && At(s, b, BodyText(n.body)) && At(s, e, n.exponent)
    requires At(s, x, n.trail) && |s| == x + |n.trail|
    ensures Parts(s, |n.lead|, b, e, x, n.body, n.exponent)
    ensures s[..|n.lead|] == n.lead && s[|n.lead|..b] == n.sign && s[x..] == n.trail
  {
    TailIsRead(s, n.body, n.exponent, n.trail, e, x);
    BodyIsRead(s, b, n.body);
    FrontIsRead(s, n.lead, n.sign, b);
  }

  lemma TailIsRead(s: string, body: Body, exponent: string, trail: string, e: nat, x: nat)
    requires GoodExponent(exponent) && (exponent != "" ==> body.Decimal?) && All(trail, IsSpace)
    requires At(s, e, exponent) && At(s, x, trail) && x == e + |exponent| && |s| == x + |trail|
    ensures ParseTail(s, e, body) == Some(Piece(exponent, x)) && Spaces(s, x) == |s| && s[x..] == trail
    ensures BodyMayEnd(s, e)
  {
    RunIsRead(s, x, trail, IsSpace);
    if trail != "" { assert s[x + 0] == trail[0]; }
    ExponentIsRead(s, e, exponent);
    if exponent != "" { assert s[e + 0] == exponent[0]; }
  }

  lemma FrontIsRead(s: string, lead: string, sign: string, b: nat)
    requires All(lead, IsSpace) && GoodSign(sign) && At(s, 0, lead) && At(s, |lead|, sign)
    requires b == |lead| + |sign| && b < |s| && !IsSpace(s[b]) && !IsSign(s[b])
    ensures Spaces(s, 0) == |lead| && SignEnd(s, |lead|) == b && s[..|lead|] == lead && s[|lead|..b] == sign
  {
    if sign != "" { assert s[|lead| + 0] == sign[0]; }
    RunIsRead(s, 0, lead, IsSpace);
  }

  /** Every numeral is read back as it was put together, so no string is two numerals. */
  lemma ParseIsComplete(n: Numeral)
    requires WellFormed(n)
    ensures Parse(Text(n)) == Some(n)
  {
    PartsStand(n);
    var b := |n.lead| + |n.sign|;
    var e := b + |BodyText(n.body)|;
    StandingIsRead(Text(n), n, b, e, e + |n.exponent|);
  }

  /** n is what s says. */
  ghost predicate Spells(n: Numeral, s: string) {
    WellFormed(n) && Text(n) == s
  }

  /** Reading finds the numeral a string spells, and nothing where it spells none. */
  lemma ReadIffSpelled(s: string, n: Numeral)
    ensures Parse(s) == Some(n) <==> Spells(n, s)
  {
    if Parse(s) == Some(n) { ParseIsSound(s); }
    if Spells(n, s) { ParseIsComplete(n); }
  }

  /** The one numeral a string spells, if any. */
  lemma TheNumeral(s: string) returns (read: Option<Numeral>)
    ensures read == Parse(s)
    ensures read.Some? ==> Spells(read.value, s)
    ensures forall n :: Spells(n, s) ==> read == Some(n)
  {
    read := Parse(s);
    forall n | Spells(n, s) ensures read == Some(n) { ReadIffSpelled(s, n); }
    if read.Some? { ReadIffSpelled(s, read.value); }
  }
}
