// Model of grok_number in ppport.h.
module GrokNumber {
  import opened Wrappers
  import opened Numerals
  import opened GrokRadix
  import opened NumberGrammar

  // ----- The digits -----

  method SkipWhile(s: string, p: char -> bool, i: nat) returns (j: nat)
    requires i <= |s|
    ensures j == Skip(s, p, i) && i <= j <= |s|
  {
    j := i;
    while j < |s| && p(s[j])
      invariant i <= j <= |s| && forall k :: i <= k < j ==> p(s[k])
      decreases |s| - j
    {
      j := j + 1;
    }
    SkipIsRun(s, p, i, j);
  }

  /** The first nine digits, which the original unrolls and takes without looking for overflow. */
  method NineDigits(s: string, i: nat, uvMax: nat) returns (j: nat, value: nat)
    requires IsUvMax(uvMax) && i < |s| && IsDigit(s[i])
    ensures i < j <= i + 9 && j <= |s|
    ensures forall k :: i <= k < j ==> IsDigit(s[k])
    ensures value == IntValue(s[i..j]) <= uvMax
    ensures j == i + 9 || j == |s| || !IsDigit(s[j])
  {
    j, value := i, 0;
    while j < i + 9 && j < |s| && IsDigit(s[j])
      invariant i <= j <= i + 9 && j <= |s|
      invariant forall k :: i <= k < j ==> IsDigit(s[k])
      invariant value == IntValue(s[i..j])
      decreases i + 9 - j
    {
      IntValueAppend(s[i..j], s[j]);
      assert s[i..j] + [s[j]] == s[i..j + 1];
      value := value * 10 + (s[j] as int - '0' as int);
      j := j + 1;
    }
    IntValueBound(s[i..j]);
    PowerOfTen(j - i);
  }

  lemma PowerOfTen(n: nat)
    requires n <= 9
    ensures Power(10, n) <= 1_000_000_000
  {
    assert Power(10, 9) == 1_000_000_000 by {
      assert Power(10, 3) == 1000;
      assert Power(10, 6) == 1_000_000;
    }
    PowerMonotone(n, 9);
  }

  lemma {:induction false} PowerMonotone(a: nat, b: nat)
    requires a <= b
    ensures Power(10, a) <= Power(10, b)
  {
    if a < b { PowerMonotone(a, b - 1); }
  }

  /** From the tenth digit on each digit is taken only when the value stays within uvMax; the first one that
      does not fit sets the overflow and the rest of the run is skipped. */
  method ScanInteger(s: string, i: nat, uvMax: nat) returns (j: nat, value: nat, overflowed: bool)
    requires IsUvMax(uvMax) && i < |s| && IsDigit(s[i])
    ensures i < j == DigitRun(s, i)
    ensures overflowed <==> IntValue(s[i..j]) > uvMax
    ensures !overflowed ==> value == IntValue(s[i..j])
  {
    var maxDiv, maxMod := uvMax / 10, uvMax % 10;
    j, value := NineDigits(s, i, uvMax);
    while j < |s| && IsDigit(s[j]) && (value < maxDiv || (value == maxDiv && s[j] as int - '0' as int <= maxMod))
      invariant i < j <= |s| && forall k :: i <= k < j ==> IsDigit(s[k])
      invariant value == IntValue(s[i..j]) <= uvMax
      decreases |s| - j
    {
      IntValueAppend(s[i..j], s[j]);
      assert s[i..j] + [s[j]] == s[i..j + 1];
      value := value * 10 + (s[j] as int - '0' as int);
      j := j + 1;
    }
    j, overflowed := SkipOverflow(s, i, j, value, uvMax);
  }

  /** The run goes on after j only when the next digit no longer fits. */
  method SkipOverflow(s: string, i: nat, j: nat, value: nat, uvMax: nat) returns (e: nat, overflowed: bool)
    requires i < j <= |s| && (forall k :: i <= k < j ==> IsDigit(s[k])) && IsUvMax(uvMax)
    requires value == IntValue(s[i..j]) <= uvMax
    requires j < |s| && IsDigit(s[j]) ==> value * 10 + (s[j] as int - '0' as int) > uvMax
    ensures j <= e == DigitRun(s, i)
    ensures overflowed <==> IntValue(s[i..e]) > uvMax
    ensures !overflowed ==> e == j
  {
    e, overflowed := j, j < |s| && IsDigit(s[j]);
    if overflowed {
      IntValueAppend(s[i..j], s[j]);
      assert s[i..j] + [s[j]] == s[i..j + 1];
      e := SkipWhile(s, IsDigit, j + 1);
      SkipFacts(s, IsDigit, j + 1);
      IntValueGrows(s, i, j + 1, e);
    }
    SkipIsRun(s, IsDigit, i, e);
  }

  // ----- The stages -----

  /** value counts only where the flags say IS_NUMBER_IN_UV. */
  ghost predicate Reported(b: Body, neg: bool, uvMax: nat, t: NumType, value: nat) {
    && t == BodyMeaning(b, neg, uvMax)
    && (t.inUv ==> value == IntValue(b.digits))
  }

  /** The part that starts with a digit, with the optional radix and its optional digits. */
  method GrokDecimal(s: string, i: nat, neg: bool, uvMax: nat) returns (e: nat, t: NumType, value: nat)
    requires IsUvMax(uvMax) && i < |s| && IsDigit(s[i])
    ensures ParseDecimal(s, i).Some? && e == ParseDecimal(s, i).value.end
    ensures Reported(ParseDecimal(s, i).value.value, neg, uvMax, t, value)
  {
    var overflowed;
    e, value, overflowed := ScanInteger(s, i, uvMax);
    t := NumType(!overflowed, overflowed, false, neg, false, false);
    if e < |s| && s[e] == '.' {
      t := t.(notInt := true);
      e := SkipWhile(s, IsDigit, e + 1);
    }
  }

  method GrokBody(s: string, i: nat, neg: bool, uvMax: nat) returns (ok: bool, e: nat, t: NumType, value: nat)
    requires IsUvMax(uvMax) && i <= |s|
    ensures ok <==> ParseBody(s, i).Some?
    ensures ok ==> e == ParseBody(s, i).value.end && Reported(ParseBody(s, i).value.value, neg, uvMax, t, value)
  {
    ok, e, t, value := false, i, REJECTED, 0;
    if i == |s| {
      return;
    }
    if IsDigit(s[i]) {
      ok := true;
      e, t, value := GrokDecimal(s, i, neg, uvMax);
    } else if s[i] == '.' {
      t := NumType(true, false, true, neg, false, false);
      e := SkipWhile(s, IsDigit, i + 1);
      ok := e > i + 1;
    } else if IsLetter(s[i], 'i') {
      t := NumType(false, false, true, neg, true, false);
      ok := i + 3 <= |s| && IsLetter(s[i + 1], 'n') && IsLetter(s[i + 2], 'f');
      e := i + 3;
      if ok && e < |s| && IsLetter(s[e], 'i') {
        ok := e + 5 <= |s| && IsLetter(s[e + 1], 'n') && IsLetter(s[e + 2], 'i') && IsLetter(s[e + 3], 't')
          && IsLetter(s[e + 4], 'y');
        e := e + 5;
      }
    } else if IsLetter(s[i], 'n') {
      t := NumType(false, false, true, neg, false, true);
      ok := i + 3 <= |s| && IsLetter(s[i + 1], 'a') && IsLetter(s[i + 2], 'n');
      e := i + 3;
    }
  }

  method GrokExponent(s: string, i: nat, t: NumType) returns (ok: bool, e: nat, t': NumType)
    requires i <= |s|
    ensures ok <==> ParseExponent(s, i).Some?
    ensures ok ==> e == ParseExponent(s, i).value.end && t' == WithExponent(t, ParseExponent(s, i).value.value)
  {
    ok, e, t' := true, i, t;
    if i < |s| && IsLetter(s[i], 'e') {
      t' := NumType(false, false, true, t.neg, false, false);
      e := ExponentDigits(s, i);
      var j := SkipWhile(s, IsDigit, e);
      ok, e := j > e, j;
    }
  }

  const BUT_TRUE := "0 but true"

  /** What the caller gets: a numeral's meaning, 0 for the one excepted string, or the refusal. */
  ghost predicate Answers(s: string, uvMax: nat, t: NumType, value: nat) {
    Reports(Parse(s), s == BUT_TRUE, uvMax, t, value)
  }

  ghost predicate Reports(read: Option<Numeral>, excepted: bool, uvMax: nat, t: NumType, value: nat) {
    match read
    case Some(n) => t == Meaning(n, uvMax) && (t.inUv ==> value == IntValue(n.body.digits))
    case None => if excepted then t == REJECTED.(inUv := true) && value == 0 else t == REJECTED
  }

  method GrokNumber(s: string, uvMax: nat) returns (t: NumType, value: nat)
    requires IsUvMax(uvMax)
    ensures Answers(s, uvMax, t, value)
  {
    t, value := REJECTED, 0;
    var b, neg := GrokSign(s);
    var ok, e, flags, v := GrokBody(s, b, neg, uvMax);
    NothingToRead(s, b);
    if ok {
      ghost var body := ParseBody(s, b).value.value;
      ok, e, flags := GrokTail(s, e, flags, body);
      if ok {
        ghost var exponent := ParseTail(s, ParseBody(s, b).value.end, body).value.value;
        var x := SkipWhile(s, IsSpace, e);
        if x == |s| {
          Accepted(s, b, e, body, exponent, neg, uvMax, flags, v);
          return flags, v;
        }
        MoreToRead(s, b, ParseBody(s, b).value.end, e, body, exponent);
      }
    }
    if s == BUT_TRUE {
      t := REJECTED.(inUv := true);
    }
  }

  method GrokSign(s: string) returns (b: nat, neg: bool)
    ensures b == SignEnd(s, Spaces(s, 0)) <= |s|
    ensures neg == (s[Spaces(s, 0)..b] == "-")
  {
    b := SkipWhile(s, IsSpace, 0);
    neg := b < |s| && s[b] == '-';
    if b < |s| && IsSign(s[b]) {
      assert s[b..b + 1] == [s[b]];
      b := b + 1;
    }
  }

  /** Flags after an exponent that was or was not there. */
  function WithExponent(t: NumType, exponent: string): NumType {
    if exponent == "" then t else NumType(false, false, true, t.neg, false, false)
  }

  /** Infinities and NaNs do not look for an exponent. */
  method GrokTail(s: string, i: nat, t: NumType, ghost body: Body) returns (ok: bool, e: nat, t': NumType)
    requires i <= |s| && body.Decimal? == (!t.infinity && !t.nan)
    ensures ok <==> ParseTail(s, i, body).Some?
    ensures ok ==> e == ParseTail(s, i, body).value.end && t' == WithExponent(t, ParseTail(s, i, body).value.value)
  {
    ok, e, t' := true, i, t;
    if !t.infinity && !t.nan {
      ok, e, t' := GrokExponent(s, i, t);
    }
  }

  lemma Accepted(s: string, b: nat, x: nat, body: Body, exponent: string, neg: bool, uvMax: nat, t: NumType, value: nat)
    requires b == SignEnd(s, Spaces(s, 0)) && ParseBody(s, b).Some? && ParseBody(s, b).value.value == body
    requires ParseTail(s, ParseBody(s, b).value.end, body) == Some(Piece(exponent, x)) && x <= |s|
              && Spaces(s, x) == |s|
    requires neg == (s[Spaces(s, 0)..b] == "-")
    requires t == WithExponent(BodyMeaning(body, neg, uvMax), exponent) && (t.inUv ==> value == IntValue(body.digits))
    ensures Answers(s, uvMax, t, value)
  {
    var a := Spaces(s, 0);
    ParseOfParts(s, Numeral(s[..a], s[a..b], body, exponent, s[x..]), b, ParseBody(s, b).value.end, x);
  }

  // ----- What it means for a caller -----

  /** A numeral of digits alone, however it is signed and padded: the exact value when it fits, the overflow flag when
      it does not, and nothing else. */
  lemma IntegersAreExact(lead: string, sign: string, digits: string, trail: string, uvMax: nat, t: NumType, value: nat)
    requires All(lead, IsSpace) && GoodSign(sign) && digits != "" && All(digits, IsDigit) && All(trail, IsSpace)
    requires Answers(lead + sign + digits + trail, uvMax, t, value)
    ensures t == NumType(IntValue(digits) <= uvMax, IntValue(digits) > uvMax, false, sign == "-", false, false)
    ensures IntValue(digits) <= uvMax ==> value == IntValue(digits)
  {
    IntegerText(lead, sign, digits, trail);
    ReadIffSpelled(lead + sign + digits + trail, Numeral(lead, sign, Decimal(digits, false, ""), "", trail));
  }

  lemma IntegerText(lead: string, sign: string, digits: string, trail: string)
    requires All(lead, IsSpace) && GoodSign(sign) && digits != "" && All(digits, IsDigit) && All(trail, IsSpace)
    ensures Spells(Numeral(lead, sign, Decimal(digits, false, ""), "", trail), lead + sign + digits + trail)
  {
    var n := Numeral(lead, sign, Decimal(digits, false, ""), "", trail);
    assert BodyText(n.body) == digits;
    assert "" + trail == trail;
    assert lead + (sign + (digits + trail)) == lead + sign + digits + trail;
  }

  /** Digits beyond uvMax, with a fraction or without, and no exponent. */
  ghost predicate TooLarge(n: Numeral, uvMax: nat) {
    n.body.Decimal? && n.exponent == "" && IntValue(n.body.digits) > uvMax
  }

  /** The overflow flag is set exactly for the numerals that are too large; an exponent wipes it. */
  lemma GreaterIffTooLarge(s: string, uvMax: nat, t: NumType, value: nat)
    requires Answers(s, uvMax, t, value)
    ensures t.greater <==> exists n :: Spells(n, s) && TooLarge(n, uvMax)
  {
    var read := TheNumeral(s);
    GreaterAsRead(read, s == BUT_TRUE, uvMax, t, value);
  }

  lemma GreaterAsRead(read: Option<Numeral>, excepted: bool, uvMax: nat, t: NumType, value: nat)
    requires Reports(read, excepted, uvMax, t, value)
    ensures t.greater <==> read.Some? && TooLarge(read.value, uvMax)
  {
  }

  /** Refused exactly when it is neither a numeral nor the excepted string. */
  lemma RefusedIffNoNumeral(s: string, uvMax: nat, t: NumType, value: nat)
    requires Answers(s, uvMax, t, value)
    ensures t == REJECTED <==> s != BUT_TRUE && !exists n :: Spells(n, s)
  {
    var read := TheNumeral(s);
    ButTrueIsNone(s);
    assert t == REJECTED <==> read.None? && s != BUT_TRUE;
  }

  lemma ButTrueIsNone(s: string)
    ensures s == BUT_TRUE ==> Parse(s).None?
  {
    if s == BUT_TRUE {
      var body := Decimal("0", false, "");
      SkipIsRun(s, IsSpace, 0, 0);
      SkipIsRun(s, IsDigit, 0, 1);
      SkipIsRun(s, IsSpace, 1, 2);
      assert s[0..1] == "0";
      MoreToRead(s, 0, 1, 1, body, "");
    }
  }
}
