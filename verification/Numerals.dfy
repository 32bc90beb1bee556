// Digits and their values: what the numeral scanners of ppport.h are measured against.
module Numerals {
  import opened IndexMath

  /** The mathematical value of digits, most significant first. */
  function Value(ds: seq<nat>, base: nat): nat {
    if ds == [] then 0 else Value(ds[..|ds| - 1], base) * base + ds[|ds| - 1]
  }

  lemma ValueAppend(ds: seq<nat>, d: nat, base: nat)
    ensures Value(ds + [d], base) == Value(ds, base) * base + d
  {
    assert (ds + [d])[..|ds|] == ds;
  }

  /** More digits never make a value smaller. */
  lemma {:induction false} ValueGrows(a: seq<nat>, b: seq<nat>, base: nat)
    requires base >= 1
    ensures Value(a + b, base) >= Value(a, base)
    decreases |b|
  {
    if b == [] {
      assert a + b == a;
    } else {
      var front, last := b[..|b| - 1], b[|b| - 1];
      ValueGrows(a, front, base);
      assert a + b == (a + front) + [last];
      ValueAppend(a + front, last, base);
      assert Value(a + front, base) * base >= Value(a + front, base);
    }
  }

  /** Digits below the base keep the value of n digits below base^n. */
  function Power(base: nat, n: nat): nat {
    if n == 0 then 1 else Power(base, n - 1) * base
  }

  lemma {:induction false} ValueBound(ds: seq<nat>, base: nat)
    requires base >= 1 && forall i :: 0 <= i < |ds| ==> ds[i] < base
    ensures Value(ds, base) < Power(base, |ds|)
  {
    if ds != [] {
      var v, p := Value(ds[..|ds| - 1], base), Power(base, |ds| - 1);
      ValueBound(ds[..|ds| - 1], base);
      MulMono(v + 1, p, base);
      assert (v + 1) * base == v * base + base;
    }
  }

  /** The usual numeral of a value. */
  function ToDigits(v: nat, base: nat): (ds: seq<nat>)
    requires base >= 2
    ensures forall i :: 0 <= i < |ds| ==> ds[i] < base
    decreases v
  {
    if v < base then [v] else QuotientFalls(v, base); ToDigits(v / base, base) + [v % base]
  }

  lemma QuotientFalls(v: nat, base: nat)
    requires v >= base >= 2
    ensures 0 <= v / base < v && v == v / base * base + v % base
  {
    MulMono(2, base, v / base);
  }

  lemma {:induction false} ValueOfToDigits(v: nat, base: nat)
    requires base >= 2
    ensures Value(ToDigits(v, base), base) == v
    decreases v
  {
    if v < base {
      assert [v][..0] == [];
    } else {
      QuotientFalls(v, base);
      ValueOfToDigits(v / base, base);
      ValueAppend(ToDigits(v / base, base), v % base, base);
    }
  }
}
