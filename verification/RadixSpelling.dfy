// Which strings the binary, octal and hexadecimal scanners of ppport.h read as which digits.
module RadixSpelling {
  import opened Wrappers
  import opened Numerals
  import opened GrokRadix

  const LOWER_CASE := "0123456789abcdef"
  const UPPER_CASE := "0123456789ABCDEF"

  /** c is the character of digit d, in either case. */
  predicate Shows(r: Radix, d: nat, c: char) {
    d < Base(r) && (c == LOWER_CASE[d] || c == UPPER_CASE[d])
  }

  /** An underscore is allowed in front of digit d; the octal scanner does not allow it in front of 0. */
  predicate MayStandBefore(r: Radix, d: nat, underscores: bool) {
    underscores && !(r.Oct? && d == 0)
  }

  /** The text spells the digits: a character for each, with at most one underscore in front of it. */
  predicate Spelt(r: Radix, text: string, ds: seq<nat>, underscores: bool)
    decreases |text|
  {
    if ds == [] then text == ""
    else
      || (|text| >= 1 && Shows(r, ds[0], text[0]) && Spelt(r, text[1..], ds[1..], underscores))
      || (|text| >= 2 && text[0] == '_' && MayStandBefore(r, ds[0], underscores) && Shows(r, ds[0], text[1])
          && Spelt(r, text[2..], ds[1..], underscores))
  }

  /** No further digit stands at the front of rest. */
  ghost predicate Stops(r: Radix, rest: string, underscores: bool) {
    && (|rest| >= 1 ==> forall d: nat :: !Shows(r, d, rest[0]))
    && (|rest| >= 2 && rest[0] == '_' ==> forall d: nat :: Shows(r, d, rest[1]) ==> !MayStandBefore(r, d, underscores))
  }

  /** A character shows the digit the scanner takes it for. */
  lemma DigitShows(r: Radix, c: char, d: nat)
    ensures Digit(r, c) == Some(d) <==> Shows(r, d, c)
  {
    if d < Base(r) {
      assert LOWER_CASE[d] as int == if d < 10 then '0' as int + d else 'a' as int + (d - 10);
      assert UPPER_CASE[d] as int == if d < 10 then '0' as int + d else 'A' as int + (d - 10);
    }
  }

  lemma ShowsOne(r: Radix, c: char, d: nat, d': nat)
    requires Shows(r, d, c) && Shows(r, d', c)
    ensures d == d'
  {
    DigitShows(r, c, d);
    DigitShows(r, c, d');
  }

  lemma FirstOfSpelt(r: Radix, text: string, ds: seq<nat>, underscores: bool) returns (n: nat)
    requires ds != [] && Spelt(r, text, ds, underscores)
    ensures 1 <= n <= 2 && n <= |text| && Shows(r, ds[0], text[n - 1])
    ensures n == 2 ==> text[0] == '_' && MayStandBefore(r, ds[0], underscores)
    ensures Spelt(r, text[n..], ds[1..], underscores)
  {
    n := if Shows(r, ds[0], text[0]) && Spelt(r, text[1..], ds[1..], underscores) then 1 else 2;
  }

  /** Spelt digits are read, up to where no further one stands. */
  lemma {:induction false} SpeltIsRead(r: Radix, text: string, rest: string, ds: seq<nat>, underscores: bool)
    requires Spelt(r, text, ds, underscores) && Stops(r, rest, underscores)
    ensures Digits(r, text + rest, underscores) == ds && Consumed(r, text + rest, underscores) == |text|
    decreases |text|
  {
    var s := text + rest;
    if ds == [] {
      assert s == rest;
      NothingRead(r, rest, underscores);
    } else {
      var n := FirstOfSpelt(r, text, ds, underscores);
      var d, more := ds[0], ds[1..];
      assert ds == [d] + more;
      FirstDigitRead(r, s, underscores, d, n);
      assert s[n..] == text[n..] + rest;
      SpeltIsRead(r, text[n..], rest, more, underscores);
      OneMoreRead(r, s, underscores, d, n, more, |text| - n);
    }
  }

  lemma OneMoreRead(r: Radix, s: string, underscores: bool, d: nat, n: nat, more: seq<nat>, m: nat)
    requires n == NextLength(r, s, underscores) > 0 && d == NextDigit(r, s, underscores)
    requires Digits(r, s[n..], underscores) == more && Consumed(r, s[n..], underscores) == m
    ensures Digits(r, s, underscores) == [d] + more && Consumed(r, s, underscores) == n + m
  {
  }

  lemma NothingRead(r: Radix, rest: string, underscores: bool)
    ensures Stops(r, rest, underscores) <==> NextLength(r, rest, underscores) == 0
  {
    if |rest| >= 1 { ReadsDigit(r, rest[0]); }
    if |rest| >= 2 {
      ReadsDigit(r, rest[1]);
      DigitShows(r, rest[1], 0);
    }
    if |rest| >= 1 && rest[0] == '_' { DigitShows(r, '_', 0); }
  }

  lemma ReadsDigit(r: Radix, c: char)
    ensures Digit(r, c).None? <==> forall d: nat :: !Shows(r, d, c)
    ensures forall d: nat :: Shows(r, d, c) <==> Digit(r, c) == Some(d)
  {
    forall d: nat ensures Shows(r, d, c) <==> Digit(r, c) == Some(d) { DigitShows(r, c, d); }
    if Digit(r, c).Some? { assert Shows(r, Digit(r, c).value, c); }
  }

  lemma FirstDigitRead(r: Radix, s: string, underscores: bool, d: nat, n: nat)
    requires 1 <= n <= 2 && n <= |s| && Shows(r, d, s[n - 1])
    requires n == 2 ==> s[0] == '_' && MayStandBefore(r, d, underscores)
    ensures NextLength(r, s, underscores) == n && NextDigit(r, s, underscores) == d
  {
    DigitShows(r, s[n - 1], d);
    assert Digit(r, '_').None?;
  }

  /** The first n characters spell ds, and nothing more could be read. */
  ghost predicate ReadAs(r: Radix, s: string, underscores: bool, n: nat, ds: seq<nat>) {
    n <= |s| && Spelt(r, s[..n], ds, underscores) && Stops(r, s[n..], underscores)
  }

  lemma FirstDigitSpelt(r: Radix, s: string, underscores: bool, n: nat, d: nat)
    requires n == NextLength(r, s, underscores) > 0 && d == NextDigit(r, s, underscores)
    ensures 1 <= n <= 2 && n <= |s| && Shows(r, d, s[n - 1])
    ensures n == 2 ==> s[0] == '_' && MayStandBefore(r, d, underscores)
  {
    DigitShows(r, s[n - 1], d);
    if n == 2 && d == 0 { DigitShows(r, s[1], 0); }
  }

  lemma OneMoreSpelt(r: Radix, text: string, underscores: bool, n: nat, d: nat, more: seq<nat>)
    requires 1 <= n <= 2 && n <= |text| && Shows(r, d, text[n - 1])
    requires n == 2 ==> text[0] == '_' && MayStandBefore(r, d, underscores)
    requires Spelt(r, text[n..], more, underscores)
    ensures Spelt(r, text, [d] + more, underscores)
  {
    assert ([d] + more)[1..] == more;
  }

  lemma OneMoreReadAs(r: Radix, s: string, underscores: bool, n: nat, d: nat, m: nat, more: seq<nat>)
    requires n == NextLength(r, s, underscores) > 0 && d == NextDigit(r, s, underscores)
    requires ReadAs(r, s[n..], underscores, m, more)
    ensures ReadAs(r, s, underscores, n + m, [d] + more)
  {
    var text := s[..n + m];
    assert text[n..] == s[n..][..m] && s[n + m..] == s[n..][m..];
    FirstDigitSpelt(r, s, underscores, n, d);
    OneMoreSpelt(r, text, underscores, n, d, more);
  }

  lemma NothingReadAs(r: Radix, s: string, underscores: bool)
    requires NextLength(r, s, underscores) == 0
    ensures ReadAs(r, s, underscores, 0, [])
  {
    assert s[0..] == s;
    NothingRead(r, s, underscores);
  }

  /** What is read is spelt. */
  lemma {:induction false} ReadIsSpelt(r: Radix, s: string, underscores: bool)
    ensures ReadAs(r, s, underscores, Consumed(r, s, underscores), Digits(r, s, underscores))
    decreases |s|
  {
    var n := NextLength(r, s, underscores);
    if n == 0 {
      NothingReadAs(r, s, underscores);
    } else {
      var more, m := Digits(r, s[n..], underscores), Consumed(r, s[n..], underscores);
      ReadIsSpelt(r, s[n..], underscores);
      OneMoreReadAs(r, s, underscores, n, NextDigit(r, s, underscores), m, more);
    }
  }

  /** The scanner reads ds off the first n characters exactly when these spell ds and no further digit follows. */
  lemma ReadIffSpelt(r: Radix, s: string, n: nat, ds: seq<nat>, underscores: bool)
    requires n <= |s|
    ensures Digits(r, s, underscores) == ds && Consumed(r, s, underscores) == n
       <==> Spelt(r, s[..n], ds, underscores) && Stops(r, s[n..], underscores)
  {
    if Spelt(r, s[..n], ds, underscores) && Stops(r, s[n..], underscores) {
      assert s[..n] + s[n..] == s;
      SpeltIsRead(r, s[..n], s[n..], ds, underscores);
    }
    ReadIsSpelt(r, s, underscores);
  }

  // ----- With a prefix -----

  /** The letter of the prefix, if the radix has one. */
  function Letters(r: Radix): string {
    match r case Bin => "b" case Oct => "" case Hex => "x"
  }

  /** pre is skipped in front of tail: the letter, with or without a 0, unless prefixes are disallowed. */
  predicate Skipped(r: Radix, pre: string, tail: string, disallowPrefix: bool) {
    var l := Letters(r);
    if disallowPrefix || l == "" then pre == ""
    else pre == l || pre == "0" + l || (pre == "" && !(l <= tail) && !("0" + l <= tail))
  }

  lemma StartIsSkipped(r: Radix, pre: string, tail: string, disallowPrefix: bool)
    requires Skipped(r, pre, tail, disallowPrefix)
    ensures Start(r, pre + tail, disallowPrefix) == |pre|
  {
    var l := Letters(r);
    if !disallowPrefix && l != "" {
      assert |l| == 1 && (l <= tail <==> |tail| >= 1 && tail[0] == l[0]);
      assert "0" + l <= tail <==> |tail| >= 2 && tail[0] == '0' && tail[1] == l[0];
      assert pre == "0" + l ==> pre[0] == '0' && pre[1] == l[0];
    }
  }

  /** A numeral in a string: behind the prefix, if any, its digits count, all its characters are used, and no other. */
  lemma NumeralIsScanned(r: Radix, pre: string, text: string, rest: string, ds: seq<nat>, underscores: bool,
                         disallowPrefix: bool, uvMax: nat, value: nat, greater: bool, used: nat)
    requires Skipped(r, pre, text + rest, disallowPrefix)
    requires Spelt(r, text, ds, underscores) && Stops(r, rest, underscores)
    requires Exact(r, pre + (text + rest), underscores, disallowPrefix, uvMax, value, greater, used)
    ensures used == |pre| + |text|
    ensures greater <==> Value(ds, Base(r)) > uvMax
    ensures value == if greater then uvMax else Value(ds, Base(r))
  {
    StartIsSkipped(r, pre, text + rest, disallowPrefix);
    assert (pre + (text + rest))[|pre|..] == text + rest;
    SpeltIsRead(r, text, rest, ds, underscores);
  }
}
