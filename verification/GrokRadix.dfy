// Model of grok_bin, grok_hex and grok_oct in ppport.h.
module GrokRadix {
  import opened Wrappers
  import opened Numerals

  /** UV_MAX for 32-bit and for 64-bit UVs. */
  predicate IsUvMax(m: nat) {
    m == 0xffff_ffff || m == 0xffff_ffff_ffff_ffff
  }

  datatype Radix = Bin | Oct | Hex

  function Base(r: Radix): nat {
    match r case Bin => 2 case Oct => 8 case Hex => 16
  }

  function Digit(r: Radix, c: char): (d: Option<nat>)
    ensures d.Some? ==> d.value < Base(r)
  {
    if '0' <= c <= '1' || (c <= '7' && c >= '0' && r.Oct?) || ('0' <= c <= '9' && r.Hex?)
      then Some(c as int - '0' as int)
    else if r.Hex? && 'a' <= c <= 'f' then Some(c as int - 'a' as int + 10)
    else if r.Hex? && 'A' <= c <= 'F' then Some(c as int - 'A' as int + 10)
    else None
  }

  /** The digit an underscore in front of c admits. The octal scanner tests the digit itself for truth, so an
      underscore in front of 0 ends the number there. */
  function AfterUnderscore(r: Radix, c: char): Option<nat> {
    if r.Oct? && c == '0' then None else Digit(r, c)
  }

  /** How many characters the next digit takes: 1, 2 with an allowed underscore, 0 at the end of the number. */
  function NextLength(r: Radix, s: string, underscores: bool): (n: nat)
    ensures n <= |s|
  {
    if s == [] then 0
    else if Digit(r, s[0]).Some? then 1
    else if s[0] == '_' && |s| > 1 && underscores && AfterUnderscore(r, s[1]).Some? then 2
    else 0
  }

  function NextDigit(r: Radix, s: string, underscores: bool): (d: nat)
    requires NextLength(r, s, underscores) > 0
    ensures d < Base(r)
  {
    Digit(r, s[NextLength(r, s, underscores) - 1]).value
  }

  /** The digits of the number at the front of s. */
  function Digits(r: Radix, s: string, underscores: bool): seq<nat> {
    var n := NextLength(r, s, underscores);
    if n == 0 then [] else [NextDigit(r, s, underscores)] + Digits(r, s[n..], underscores)
  }

  function Consumed(r: Radix, s: string, underscores: bool): (n: nat)
    ensures n <= |s|
  {
    var n := NextLength(r, s, underscores);
    if n == 0 then 0 else n + Consumed(r, s[n..], underscores)
  }

  /** After p characters the digits done are followed by those of the rest. */
  ghost predicate Scanned(r: Radix, s: string, underscores: bool, p: nat, done: seq<nat>) {
    && p <= |s|
    && Digits(r, s, underscores) == done + Digits(r, s[p..], underscores)
    && Consumed(r, s, underscores) == p + Consumed(r, s[p..], underscores)
  }

  lemma ScannedStart(r: Radix, s: string, underscores: bool)
    ensures Scanned(r, s, underscores, 0, [])
  {
    assert s[0..] == s;
  }

  lemma ScannedStep(r: Radix, s: string, underscores: bool, p: nat, done: seq<nat>, n: nat, d: nat)
    requires Scanned(r, s, underscores, p, done)
    requires n == NextLength(r, s[p..], underscores) > 0 && d == NextDigit(r, s[p..], underscores)
    ensures Scanned(r, s, underscores, p + n, done + [d])
  {
    assert s[p..][n..] == s[p + n..];
    var rest := Digits(r, s[p + n..], underscores);
    assert Digits(r, s[p..], underscores) == [d] + rest;
    assert done + ([d] + rest) == (done + [d]) + rest;
  }

  lemma ScannedEnd(r: Radix, s: string, underscores: bool, p: nat, done: seq<nat>)
    requires Scanned(r, s, underscores, p, done) && NextLength(r, s[p..], underscores) == 0
    ensures Digits(r, s, underscores) == done && Consumed(r, s, underscores) == p
  {
    assert done + [] == done;
  }

  /** The scanning loop: the exact value when it fits, otherwise uvMax and the overflow flag. */
  method Scan(r: Radix, s: string, underscores: bool, uvMax: nat) returns (value: nat, overflowed: bool, used: nat)
    requires IsUvMax(uvMax)
    ensures used == Consumed(r, s, underscores)
    ensures overflowed <==> Value(Digits(r, s, underscores), Base(r)) > uvMax
    ensures value == if overflowed then uvMax else Value(Digits(r, s, underscores), Base(r))
  {
    ghost var done: seq<nat> := [];
    var limit := uvMax / Base(r);
    var v := 0;
    used, overflowed := 0, false;
    ScannedStart(r, s, underscores);
    while NextLength(r, s[used..], underscores) > 0
      invariant Scanned(r, s, underscores, used, done)
      invariant Tracks(r, v, overflowed, uvMax, done)
      decreases |s| - used
    {
      v, overflowed, used, done := ScanOne(r, s, underscores, v, overflowed, used, limit, uvMax, done);
    }
    ScannedEnd(r, s, underscores, used, done);
    value := if overflowed then uvMax else v;
  }

  /** The accumulator: the value of the digits done, or the note that it does not fit. */
  ghost predicate Tracks(r: Radix, v: nat, overflowed: bool, uvMax: nat, done: seq<nat>) {
    if overflowed then Value(done, Base(r)) > uvMax else v == Value(done, Base(r)) <= uvMax
  }

  method ScanOne(r: Radix, s: string, underscores: bool, v: nat, overflowed: bool, used: nat, limit: nat, uvMax: nat,
                 ghost done: seq<nat>)
    returns (v': nat, overflowed': bool, used': nat, ghost done': seq<nat>)
    requires IsUvMax(uvMax) && limit == uvMax / Base(r) && Tracks(r, v, overflowed, uvMax, done)
    requires Scanned(r, s, underscores, used, done) && NextLength(r, s[used..], underscores) > 0
    ensures Scanned(r, s, underscores, used', done') && used < used' <= |s|
    ensures Tracks(r, v', overflowed', uvMax, done')
  {
    var n, d := NextLength(r, s[used..], underscores), NextDigit(r, s[used..], underscores);
    ScannedStep(r, s, underscores, used, done, n, d);
    v', overflowed' := ShiftIn(r, v, d, limit, overflowed, uvMax, done);
    used', done' := used + n, done + [d];
  }

  /** One digit: shift it in while the value is at most uvMax/base, otherwise note the overflow. */
  method ShiftIn(r: Radix, v: nat, d: nat, limit: nat, overflowed: bool, uvMax: nat, ghost done: seq<nat>)
    returns (v': nat, overflowed': bool)
    requires IsUvMax(uvMax) && d < Base(r) && limit == uvMax / Base(r)
    requires Tracks(r, v, overflowed, uvMax, done)
    ensures Tracks(r, v', overflowed', uvMax, done + [d])
  {
    ValueAppend(done, d, Base(r));
    ValueGrows(done, [d], Base(r));
    if !overflowed {
      if v <= limit {
        StillFits(r, v, d, uvMax);
        return v * Base(r) + d, false;
      }
      Overflows(r, v, d, uvMax);
      return v, true;
    }
    return v, true;
  }

  /** Below the limit there is room for another digit, since uvMax + 1 is a multiple of the base. */
  lemma StillFits(r: Radix, v: nat, d: nat, uvMax: nat)
    requires IsUvMax(uvMax) && d < Base(r) && v <= uvMax / Base(r)
    ensures v * Base(r) + d <= uvMax
  {
    match r
    case Bin => assert v * Base(r) == 2 * v;
    case Oct => assert v * Base(r) == 8 * v;
    case Hex => assert v * Base(r) == 16 * v;
  }

  lemma Overflows(r: Radix, v: nat, d: nat, uvMax: nat)
    requires v > uvMax / Base(r)
    ensures v * Base(r) + d > uvMax
  {
    match r
    case Bin => assert v * Base(r) == 2 * v;
    case Oct => assert v * Base(r) == 8 * v;
    case Hex => assert v * Base(r) == 16 * v;
  }

  /** The prefix the binary and the hexadecimal scanner skip: b or 0b, x or 0x. */
  function PrefixLength(letter: char, s: string): (n: nat)
    ensures n <= |s|
  {
    if |s| >= 1 && s[0] == letter then 1
    else if |s| >= 2 && s[0] == '0' && s[1] == letter then 2
    else 0
  }

  /** Where the digits start; the octal scanner knows no prefix. */
  function Start(r: Radix, s: string, disallowPrefix: bool): (n: nat)
    ensures n <= |s|
  {
    match r
    case Oct => 0
    case Bin => if disallowPrefix then 0 else PrefixLength('b', s)
    case Hex => if disallowPrefix then 0 else PrefixLength('x', s)
  }

  /** What each scanner reports: consumed characters, value, and PERL_SCAN_GREATER_THAN_UV_MAX. */
  ghost predicate Exact(r: Radix, s: string, underscores: bool, disallowPrefix: bool, uvMax: nat,
                        value: nat, greater: bool, used: nat) {
    var n := Start(r, s, disallowPrefix);
    var v := Value(Digits(r, s[n..], underscores), Base(r));
    && used == n + Consumed(r, s[n..], underscores)
    && (greater <==> v > uvMax)
    && value == if v > uvMax then uvMax else v
  }

  method GrokBin(s: string, underscores: bool, disallowPrefix: bool, uvMax: nat)
    returns (value: nat, greater: bool, used: nat)
    requires IsUvMax(uvMax)
    ensures Exact(Bin, s, underscores, disallowPrefix, uvMax, value, greater, used)
  {
    var n := 0;
    if !disallowPrefix {
      n := PrefixLength('b', s);
    }
    value, greater, used := Scan(Bin, s[n..], underscores, uvMax);
    used := used + n;
  }

  method GrokHex(s: string, underscores: bool, disallowPrefix: bool, uvMax: nat)
    returns (value: nat, greater: bool, used: nat)
    requires IsUvMax(uvMax)
    ensures Exact(Hex, s, underscores, disallowPrefix, uvMax, value, greater, used)
  {
    var n := 0;
    if !disallowPrefix {
      n := PrefixLength('x', s);
    }
    value, greater, used := Scan(Hex, s[n..], underscores, uvMax);
    used := used + n;
  }

  method GrokOct(s: string, underscores: bool, uvMax: nat) returns (value: nat, greater: bool, used: nat)
    requires IsUvMax(uvMax)
    ensures Exact(Oct, s, underscores, true, uvMax, value, greater, used)
  {
    assert s[0..] == s;
    value, greater, used := Scan(Oct, s, underscores, uvMax);
  }

  // ----- Written numerals -----

  function DigitChar(d: nat): char
    requires d < 16
  {
    if d < 10 then '0' + d as char else 'a' + (d - 10) as char
  }

  ghost predicate AllBelow(ds: seq<nat>, bound: nat) {
    forall i :: 0 <= i < |ds| ==> ds[i] < bound
  }

  /** The digit characters of a value's digits. */
  function Written(ds: seq<nat>): string
    requires AllBelow(ds, 16)
  {
    if ds == [] then [] else [DigitChar(ds[0])] + Written(ds[1..])
  }

  /** Scanning written digits gives back those digits and uses all characters. */
  lemma {:induction false} DigitsOfWritten(r: Radix, ds: seq<nat>, underscores: bool)
    requires AllBelow(ds, Base(r))
    ensures AllBelow(ds, 16) && Digits(r, Written(ds), underscores) == ds
    ensures Consumed(r, Written(ds), underscores) == |Written(ds)| == |ds|
    decreases |ds|
  {
    if ds != [] {
      DigitsOfWritten(r, ds[1..], underscores);
      FirstWritten(r, ds, underscores);
      assert [ds[0]] + ds[1..] == ds;
    }
  }

  lemma FirstWritten(r: Radix, ds: seq<nat>, underscores: bool)
    requires ds != [] && AllBelow(ds, Base(r)) && AllBelow(ds, 16)
    ensures |Written(ds)| == 1 + |Written(ds[1..])| && Written(ds)[1..] == Written(ds[1..])
    ensures NextLength(r, Written(ds), underscores) == 1 && NextDigit(r, Written(ds), underscores) == ds[0]
  {
    DigitOfChar(r, ds[0]);
    assert Written(ds)[0] == DigitChar(ds[0]);
  }

  lemma DigitOfChar(r: Radix, d: nat)
    requires d < Base(r)
    ensures d < 16 && Digit(r, DigitChar(d)) == Some(d)
  {
    var c := DigitChar(d);
    if d < 10 {
      assert c as int == '0' as int + d;
    } else {
      assert c as int == 'a' as int + (d - 10);
    }
  }

  /** Every value's numeral is read back: as the value itself up to uvMax, as an overflow beyond. */
  lemma NumeralsReadBack(r: Radix, v: nat, underscores: bool)
    ensures AllBelow(ToDigits(v, Base(r)), 16)
    ensures Value(Digits(r, Written(ToDigits(v, Base(r))), underscores), Base(r)) == v
  {
    DigitsOfWritten(r, ToDigits(v, Base(r)), underscores);
    ValueOfToDigits(v, Base(r));
  }

  // ----- The underscore in front of a 0 -----

  function PlainLength(r: Radix, s: string, underscores: bool): (n: nat)
    ensures n <= |s|
  {
    if s == [] then 0
    else if Digit(r, s[0]).Some? then 1
    else if s[0] == '_' && |s| > 1 && underscores && Digit(r, s[1]).Some? then 2
    else 0
  }

  /** The digits one would expect: an allowed underscore may stand in front of any digit. */
  function PlainDigits(r: Radix, s: string, underscores: bool): seq<nat> {
    var n := PlainLength(r, s, underscores);
    if n == 0 then [] else [Digit(r, s[n - 1]).value] + PlainDigits(r, s[n..], underscores)
  }

  /** How many characters those digits take. */
  function PlainConsumed(r: Radix, s: string, underscores: bool): (n: nat)
    ensures n <= |s|
  {
    var n := PlainLength(r, s, underscores);
    if n == 0 then 0 else n + PlainConsumed(r, s[n..], underscores)
  }

  /** An underscore stands directly in front of a 0 at i, within the first n characters. */
  predicate UnderscoreZeroAt(s: string, n: nat, i: int) {
    0 <= i && i + 1 < n <= |s| && s[i] == '_' && s[i + 1] == '0'
  }

  ghost predicate HasUnderscoreZero(s: string, n: nat) {
    exists i :: UnderscoreZeroAt(s, n, i)
  }

  /** The octal scanner takes the digits one would expect exactly when no underscore among them stands in front
      of a 0. */
  lemma {:induction false} OctalDigitsIff(s: string, underscores: bool)
    ensures Digits(Oct, s, underscores) == PlainDigits(Oct, s, underscores)
       <==> !HasUnderscoreZero(s, PlainConsumed(Oct, s, underscores))
    decreases |s|
  {
    var n := NextLength(Oct, s, underscores);
    if n > 0 {
      OctalDigitsIff(s[n..], underscores);
      OneMoreDigit(s, underscores, n);
      OneMoreConsumed(s, underscores, n);
    } else {
      WhereTheScannerStops(s, underscores);
    }
  }

  /** Where the scanner takes no digit, it misses one exactly when an underscore and a 0 stand there. */
  lemma WhereTheScannerStops(s: string, underscores: bool)
    requires NextLength(Oct, s, underscores) == 0
    ensures Digits(Oct, s, underscores) == PlainDigits(Oct, s, underscores)
       <==> !HasUnderscoreZero(s, PlainConsumed(Oct, s, underscores))
  {
    if PlainLength(Oct, s, underscores) > 0 {
      assert UnderscoreZeroAt(s, PlainConsumed(Oct, s, underscores), 0);
    }
  }

  lemma OneMoreConsumed(s: string, underscores: bool, n: nat)
    requires n == NextLength(Oct, s, underscores) > 0
    ensures HasUnderscoreZero(s, PlainConsumed(Oct, s, underscores))
       <==> HasUnderscoreZero(s[n..], PlainConsumed(Oct, s[n..], underscores))
  {
    UnderscoreZeroBehind(s, n, PlainConsumed(Oct, s, underscores));
  }

  /** The first digit, with its underscore if it has one, is no underscore in front of a 0. */
  lemma UnderscoreZeroBehind(s: string, n: nat, p: nat)
    requires 1 <= n <= p <= |s| && (n == 1 || n == 2) && s[n - 1] != '_' && (n == 2 ==> s[1] != '0')
    ensures HasUnderscoreZero(s, p) <==> HasUnderscoreZero(s[n..], p - n)
  {
    var q := p - n;
    if i :| UnderscoreZeroAt(s, p, i) {
      assert UnderscoreZeroAt(s[n..], q, i - n);
    }
    if i :| UnderscoreZeroAt(s[n..], q, i) {
      assert UnderscoreZeroAt(s, p, i + n);
    }
  }

  lemma OneMoreDigit(s: string, underscores: bool, n: nat)
    requires n == NextLength(Oct, s, underscores) > 0
    ensures Digits(Oct, s, underscores) == PlainDigits(Oct, s, underscores)
       <==> Digits(Oct, s[n..], underscores) == PlainDigits(Oct, s[n..], underscores)
  {
    var d, a, b := NextDigit(Oct, s, underscores), Digits(Oct, s[n..], underscores),
      PlainDigits(Oct, s[n..], underscores);
    assert PlainDigits(Oct, s, underscores) == [d] + b;
    assert ([d] + a)[1..] == a && ([d] + b)[1..] == b;
  }

  /** The other two scanners always take them. */
  lemma {:induction false} OtherDigitsArePlain(r: Radix, s: string, underscores: bool)
    requires !r.Oct?
    ensures Digits(r, s, underscores) == PlainDigits(r, s, underscores)
    decreases |s|
  {
    var n := NextLength(r, s, underscores);
    if n > 0 { OtherDigitsArePlain(r, s[n..], underscores); }
  }

  lemma OneUnderscoreZero(r: Radix)
    requires !r.Hex?
    ensures Digits(r, "1_0", true) == if r.Oct? then [1] else [1, 0]
    ensures Consumed(r, "1_0", true) == if r.Oct? then 1 else 3
    ensures PlainDigits(r, "1_0", true) == [1, 0] && PlainConsumed(r, "1_0", true) == 3
  {
    assert "1_0"[1..] == "_0" && "_0"[2..] == "";
    assert Digits(r, "_0", true) == if r.Oct? then [] else [0];
    assert Consumed(r, "_0", true) == if r.Oct? then 0 else 2;
    assert PlainDigits(r, "_0", true) == [0] && PlainConsumed(r, "_0", true) == 2;
  }

  /** The failing input: grok_oct reads 1_0 as 1 and stops behind the 1, where grok_bin reads 2 and uses it all. */
  lemma UnderscoreBeforeZero(r: Radix, uvMax: nat, value: nat, greater: bool, used: nat)
    requires !r.Hex? && IsUvMax(uvMax) && Exact(r, "1_0", true, true, uvMax, value, greater, used)
    ensures !greater && value == (if r.Oct? then 1 else 2) && used == if r.Oct? then 1 else 3
  {
    assert "1_0"[0..] == "1_0";
    OneUnderscoreZero(r);
    OneAndZero(Base(r));
  }

  lemma OneAndZero(base: nat)
    ensures Value([1], base) == 1 && Value([1, 0], base) == base
  {
    assert Value([1], base) == 1 by { assert [1][..0] == []; }
    assert Value([1, 0], base) == base by { assert [1, 0][..1] == [1]; }
  }
}
