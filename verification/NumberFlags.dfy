// What the flags of grok_number in ppport.h say about the characters of the string.
module NumberFlags {
  import opened Wrappers
  import opened Numerals
  import opened NumberGrammar
  import opened GrokNumber

  predicate HasLetter(s: string, lower: char) {
    exists k :: 0 <= k < |s| && IsLetter(s[k], lower)
  }

  /** Nothing but digits, signs and spaces. */
  predicate Plain(s: string) {
    All(s, c => IsSpace(c) || IsSign(c) || IsDigit(c))
  }

  /** The first character that is not a space is a minus. */
  predicate Negative(s: string) {
    exists k :: 0 <= k < |s| && s[k] == '-' && All(s[..k], IsSpace)
  }

  lemma LetterInConcat(a: string, b: string, lower: char)
    ensures HasLetter(a + b, lower) <==> HasLetter(a, lower) || HasLetter(b, lower)
  {
    if k :| 0 <= k < |a| && IsLetter(a[k], lower) { assert IsLetter((a + b)[k], lower); }
    if k :| 0 <= k < |b| && IsLetter(b[k], lower) { assert IsLetter((a + b)[|a| + k], lower); }
  }

  lemma PlainConcat(a: string, b: string)
    ensures Plain(a + b) <==> Plain(a) && Plain(b)
  {
    forall k | 0 <= k < |b| ensures b[k] == (a + b)[|a| + k] {}
    forall k | 0 <= k < |a| ensures a[k] == (a + b)[k] {}
  }

  /** The letters f and a, and whether all is plain, part by part. */
  lemma PartsOfText(n: Numeral, lower: char)
    ensures HasLetter(Text(n), lower) <==>
              HasLetter(n.lead, lower) || HasLetter(n.sign, lower) || HasLetter(BodyText(n.body), lower)
              || HasLetter(n.exponent, lower) || HasLetter(n.trail, lower)
    ensures Plain(Text(n)) <==>
              Plain(n.lead) && Plain(n.sign) && Plain(BodyText(n.body)) && Plain(n.exponent) && Plain(n.trail)
  {
    var c := n.exponent + n.trail;
    var b := BodyText(n.body) + c;
    var a := n.sign + b;
    LetterInConcat(n.exponent, n.trail, lower);
    LetterInConcat(BodyText(n.body), c, lower);
    LetterInConcat(n.sign, b, lower);
    LetterInConcat(n.lead, a, lower);
    PlainConcat(n.exponent, n.trail);
    PlainConcat(BodyText(n.body), c);
    PlainConcat(n.sign, b);
    PlainConcat(n.lead, a);
  }

  lemma NoLetters(s: string, p: char -> bool, lower: char)
    requires All(s, p) && forall c :: p(c) ==> !IsLetter(c, lower)
    ensures !HasLetter(s, lower)
  {
  }

  lemma PartsWithoutLetters(n: Numeral, lower: char)
    requires WellFormed(n) && 'a' <= lower <= 'z'
    ensures !HasLetter(n.lead, lower) && !HasLetter(n.sign, lower) && !HasLetter(n.trail, lower)
    ensures lower != 'e' ==> !HasLetter(n.exponent, lower)
    ensures n.body.Decimal? ==> !HasLetter(BodyText(n.body), lower)
  {
    NoLetters(n.lead, IsSpace, lower);
    NoLetters(n.trail, IsSpace, lower);
    if n.exponent != "" && lower != 'e' {
      var e, i := n.exponent, ExponentDigits(n.exponent, 0);
      forall k | 0 <= k < |e| ensures !IsLetter(e[k], lower) {
        assert k >= i ==> e[i..][k - i] == e[k];
      }
    }
    if n.body.Decimal? {
      NoLetters(n.body.digits, IsDigit, lower);
      NoLetters(n.body.fraction, IsDigit, lower);
      var point := if n.body.point then "." else "";
      LetterInConcat(point, n.body.fraction, lower);
      LetterInConcat(n.body.digits, point + n.body.fraction, lower);
    }
  }

  /** Infinities are spelled with an f, NaNs with an a, neither with the other's letter and neither with an e. */
  lemma WordLetters(b: Body)
    requires GoodBody(b)
    ensures b.Infinity? ==> HasLetter(b.word, 'f') && !HasLetter(b.word, 'a') && !HasLetter(b.word, 'e')
    ensures b.NotANumber? ==> HasLetter(b.word, 'a') && !HasLetter(b.word, 'f') && !HasLetter(b.word, 'e')
  {
    match b
    case Infinity(w) =>
      assert IsLetter(w[2], 'f');
      if |w| == 8 {
        assert w[3..][0] == w[3] && w[3..][1] == w[4] && w[3..][2] == w[5] && w[3..][3] == w[6] && w[3..][4] == w[7];
      }
    case NotANumber(w) => assert IsLetter(w[1], 'a');
    case _ =>
  }

  lemma PlainParts(n: Numeral)
    requires WellFormed(n)
    ensures Plain(n.lead) && Plain(n.sign) && Plain(n.trail) && (Plain(n.exponent) <==> n.exponent == "")
    ensures Plain(BodyText(n.body)) <==> n.body.Decimal? && !n.body.point
  {
    if n.exponent != "" { assert IsLetter(n.exponent[0], 'e'); }
    match n.body
    case Decimal(digits, point, fraction) =>
      PlainConcat(if point then "." else "", fraction);
      PlainConcat(digits, (if point then "." else "") + fraction);
      assert Plain(digits) && Plain(fraction);
      if point { assert !Plain(".") by { assert "."[0] == '.'; } }
    case Infinity(w) => assert !Plain(w) by { assert IsLetter(w[0], 'i'); }
    case NotANumber(w) => assert !Plain(w) by { assert IsLetter(w[0], 'n'); }
  }

  lemma NotNegative(s: string, k: nat)
    requires k < |s| && !IsSpace(s[k]) && s[k] != '-' && forall i :: 0 <= i < k ==> IsSpace(s[i])
    ensures !Negative(s)
  {
    forall j | 0 <= j < |s| && s[j] == '-' ensures !All(s[..j], IsSpace) {
      if j > k { assert !IsSpace(s[..j][k]); }
    }
  }

  lemma SignOfText(n: Numeral)
    requires WellFormed(n)
    ensures Negative(Text(n)) <==> n.sign == "-"
  {
    var s, rest := Text(n), BodyText(n.body) + (n.exponent + n.trail);
    assert s == n.lead + (n.sign + rest);
    var k := |n.lead|;
    assert s[..k] == n.lead && |BodyText(n.body)| > 0;
    if n.sign == "-" {
      assert s[k] == '-';
    } else {
      if n.sign == "" {
        assert s[k] == BodyText(n.body)[0];
        StartsBody(n.body);
      }
      assert forall i :: 0 <= i < k ==> s[i] == n.lead[i];
      NotNegative(s, k);
    }
  }

  lemma StartsBody(b: Body)
    requires GoodBody(b)
    ensures |BodyText(b)| > 0 && !IsSpace(BodyText(b)[0]) && BodyText(b)[0] != '-'
  {
    match b
    case Decimal(digits, point, fraction) => assert digits != "" ==> BodyText(b)[0] == digits[0];
    case Infinity(w) => assert IsLetter(w[0], 'i');
    case NotANumber(w) => assert IsLetter(w[0], 'n');
  }

  /** The flags of an accepted string, but for the excepted one, read off its characters: negative when it starts with a
      minus, an integer when nothing but digits, a sign and spaces is in it, infinite when there is an f, not a number
      when there is an a, and with a value when there is none of these letters and no e, unless it is too large. */
  lemma FlagsSay(s: string, uvMax: nat, t: NumType, value: nat)
    requires Answers(s, uvMax, t, value) && t != REJECTED && s != BUT_TRUE
    ensures t.neg <==> Negative(s)
    ensures !t.notInt <==> Plain(s)
    ensures t.infinity <==> HasLetter(s, 'f')
    ensures t.nan <==> HasLetter(s, 'a')
    ensures t.inUv <==> !HasLetter(s, 'f') && !HasLetter(s, 'a') && !HasLetter(s, 'e') && !t.greater
  {
    var read := TheNumeral(s);
    var n := read.value;
    SignOfText(n);
    PartsOfText(n, 'f');
    PartsOfText(n, 'a');
    PartsWithoutLetters(n, 'f');
    PartsWithoutLetters(n, 'a');
    PartsOfText(n, 'e');
    PartsWithoutLetters(n, 'e');
    if n.exponent != "" { assert IsLetter(n.exponent[0], 'e'); }
    WordLetters(n.body);
    PlainParts(n);
  }
}
