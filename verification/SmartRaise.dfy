// When a rising raw sector count can make the verdict of atasmart.strpool.c milder.
module SmartRaise {
  import opened Wrappers
  import opened Bytes
  import opened SmartVerdict

  const SLOTS: nat := 30

  /** The same slot with the raw sector count m instead of n. */
  predicate Raises(s: Slot, s': Slot, n: nat, m: nat) {
    s' == s.(raw := s'.raw) && Raw32(s) == n && Raw32(s') == m
  }

  /** Slot i of a table rises from n to m on a disk of that size. */
  ghost predicate RisesAt(c: Setting, slots: seq<Slot>, i: nat, s': Slot, size: nat, unit: nat, n: nat, m: nat) {
    && c.size == size && c.unitUnknown == unit && |slots| == SLOTS && i < SLOTS
    && Raises(slots[i], s', n, m)
  }

  /** Raising a count from n to m never makes the verdict milder, whatever else the table and the setting hold. */
  ghost predicate NeverMilder(size: nat, unit: nat, n: nat, m: nat) {
    forall c, slots, i: nat, s' :: RisesAt(c, slots, i, s', size, unit, n, m) ==>
      Rank(Verdict(c, slots)) <= Rank(Verdict(c, slots[i := s']))
  }

  /** A raw count of 32 bits that is taken at its word. */
  predicate Reportable(size: nat, n: nat) {
    n <= 0xffff_ffff && Plausible(size, n)
  }

  /** The many-sectors limit. */
  function Limit(size: nat): nat { 1024 * Log2(size / 512) }

  /** A count taken at its word can become a misreading with a smaller stand-in; that shows when the stand-in is 0, or
      when the old count, with the other attribute's, can reach the limit that the stand-in misses. */
  predicate CanBecomeMilder(size: nat, unit: nat, n: nat, m: nat) {
    var limit := Limit(size);
    && Reportable(size, n) && !Reportable(size, m) && unit < n && limit > 0
    && (unit == 0 || (unit < limit && (n >= limit || Reportable(size, limit - n) || limit - n <= unit < limit - unit)))
  }

  // ----- Never milder -----

  lemma FlagsUnchanged(c: Setting, slots: seq<Slot>, i: nat, s': Slot, n: nat, m: nat)
    requires i < |slots| && Raises(slots[i], s', n, m)
    ensures var k, k' := CacheOf(c, slots), CacheOf(c, slots[i := s']);
            && k.badNow == k'.badNow && k.badPast == k'.badPast
            && k.reallocatedFound == k'.reallocatedFound && k.pendingFound == k'.pendingFound
  {
    CacheOfDescribes(c, slots);
    CacheOfDescribes(c, slots[i := s']);
    SameOccurrences(BadNow(c), slots, i, s');
    SameOccurrences(BadInThePast(c), slots, i, s');
    SameOccurrences(Reallocated(c), slots, i, s');
    SameOccurrences(Pending(c), slots, i, s');
  }

  lemma SameOccurrences(p: Slot -> bool, slots: seq<Slot>, i: nat, s': Slot)
    requires i < |slots| && p(slots[i]) == p(s')
    ensures Occurs(p, slots) <==> Occurs(p, slots[i := s'])
  {
    var after := slots[i := s'];
    if Occurs(p, slots) {
      var j :| 0 <= j < |slots| && p(slots[j]);
      assert after[j] in after && p(after[j]);
    }
    if Occurs(p, after) {
      var j :| 0 <= j < |after| && p(after[j]);
      assert slots[j] in slots && p(slots[j]);
    }
  }

  /** How one kind's greatest count moves: not at all, up, or down from the old count to one not below the new. */
  lemma GreatestMoves(g: nat, g': nat, p: Slot -> bool, f: Slot -> nat, slots: seq<Slot>, i: nat, s': Slot)
    requires i < |slots| && p(slots[i]) == p(s')
    requires IsGreatest(g, p, f, slots) && IsGreatest(g', p, f, slots[i := s'])
    ensures !p(s') ==> g' == g
    ensures g' < g ==> g == f(slots[i]) && f(s') <= g'
  {
    var after := slots[i := s'];
    assert after[i] in after && slots[i] in slots;
    if g > 0 {
      var s :| s in slots && p(s) && f(s) == g;
      var j :| 0 <= j < |slots| && slots[j] == s;
      if j != i { assert after[j] in after; }
    }
    if g' > 0 {
      var s :| s in after && p(s) && f(s) == g';
      var j :| 0 <= j < |after| && after[j] == s;
      if j != i { assert slots[j] in slots; }
    }
  }

  /** Every count in the cache is 0, plausible or the stand-in. */
  lemma CountIsReading(g: nat, c: Setting, p: Slot -> bool, slots: seq<Slot>)
    requires IsGreatest(g, p, Count(c), slots)
    ensures g == 0 || Reportable(c.size, g) || g == c.unitUnknown
  {
    if g > 0 {
      var s :| s in slots && p(s) && Count(c)(s) == g;
    }
  }

  /** With the counts a + p before and at least b + p after, no limit is crossed. */
  lemma NothingCrossed(c: Setting, n: nat, m: nat, p: nat, before: nat, after: nat)
    requires n <= m <= 0xffff_ffff && !CanBecomeMilder(c.size, c.unitUnknown, n, m)
    requires p == 0 || Reportable(c.size, p) || p == c.unitUnknown
    requires before == Reading(c, n) + p && after >= Reading(c, m) + p && Reading(c, m) < Reading(c, n)
              && Limit(c.size) > 0
    ensures after > 0 && (before >= Limit(c.size) ==> after >= Limit(c.size))
  {
    ReadingFallsIff(c, n, m);
  }

  /** The verdict does not fall when the sum does not, or falls without crossing a limit. */
  lemma VerdictKept(k: Cache, k': Cache, r: nat)
    requires k.badNow == k'.badNow && k.badPast == k'.badPast && Counted(k) == Counted(k')
    requires Counted(k) ==>
              (r > 0 && Sectors(k) > 0 ==> Sectors(k') > 0) && (Sectors(k) >= 1024 * r ==> Sectors(k') >= 1024 * r)
    ensures Rank(Judge(k, if Counted(k) then Some(Sectors(k)) else None, r))
         <= Rank(Judge(k', if Counted(k') then Some(Sectors(k')) else None, r))
  {
  }

  lemma OneRiseKeepsVerdict(c: Setting, slots: seq<Slot>, i: nat, s': Slot, n: nat, m: nat)
    requires n <= m && RisesAt(c, slots, i, s', c.size, c.unitUnknown, n, m)
    requires !CanBecomeMilder(c.size, c.unitUnknown, n, m)
    ensures Rank(Verdict(c, slots)) <= Rank(Verdict(c, slots[i := s']))
  {
    var k, k' := CacheOf(c, slots), CacheOf(c, slots[i := s']);
    CacheOfDescribes(c, slots);
    CacheOfDescribes(c, slots[i := s']);
    FlagsUnchanged(c, slots, i, s', n, m);
    GreatestMoves(k.reallocated, k'.reallocated, Reallocated(c), Count(c), slots, i, s');
    GreatestMoves(k.pending, k'.pending, Pending(c), Count(c), slots, i, s');
    CountIsReading(k.reallocated, c, Reallocated(c), slots);
    CountIsReading(k.pending, c, Pending(c), slots);
    if Counted(k) {
      SumCrossesNothing(c, k, k', n, m, slots[i].id == 5);
    }
    VerdictKept(k, k', Log2(c.size / 512));
  }

  lemma SumCrossesNothing(c: Setting, k: Cache, k': Cache, n: nat, m: nat, five: bool)
    requires n <= m <= 0xffff_ffff && !CanBecomeMilder(c.size, c.unitUnknown, n, m)
    requires k.reallocatedFound == k'.reallocatedFound && k.pendingFound == k'.pendingFound && Counted(k)
    requires !k.reallocatedFound ==> k.reallocated == 0
    requires !k.pendingFound ==> k.pending == 0
    requires if five then k'.pending == k.pending else k'.reallocated == k.reallocated
    requires k'.reallocated < k.reallocated ==> k.reallocated == Reading(c, n) && Reading(c, m) <= k'.reallocated
    requires k'.pending < k.pending ==> k.pending == Reading(c, n) && Reading(c, m) <= k'.pending
    requires k.reallocated == 0 || Reportable(c.size, k.reallocated) || k.reallocated == c.unitUnknown
    requires k.pending == 0 || Reportable(c.size, k.pending) || k.pending == c.unitUnknown
    ensures Sectors(k) > 0 ==> Sectors(k') > 0 || Limit(c.size) == 0
    ensures Sectors(k) >= Limit(c.size) ==> Sectors(k') >= Limit(c.size)
  {
    if Limit(c.size) > 0 && Sectors(k') < Sectors(k) {
      NothingCrossed(c, n, m, if five then k.pending else k.reallocated, Sectors(k), Sectors(k'));
    }
  }

  // ----- Milder -----

  /** A slot of attribute id with raw count n and nothing else to report. */
  ghost predicate Counts(s: Slot, id: byte, n: nat) {
    s.id == id && s.flags == 0 && s.current == 100 && s.worst == 100 && Raw32(s) == n
  }

  lemma CountingSlot(id: byte, n: nat) returns (s: Slot)
    requires n <= 0xffff_ffff
    ensures Counts(s, id, n)
  {
    var x, y := n / 256, n / 256 / 256;
    assert n == 256 * x + n % 256 && n / 65536 == y && x == 256 * y + n / 256 % 256;
    assert y == 256 * (y / 256) + y % 256 && n / 16777216 == y / 256;
    s := Slot(id, 0, 100, 100, [n % 256, x % 256, y % 256, y / 256]);
  }

  /** A table with those two slots and no other attribute. */
  function Table(a: Slot, b: Slot): (slots: seq<Slot>)
    ensures |slots| == SLOTS && slots[0] == a && slots[1] == b
    ensures forall i :: 2 <= i < |slots| ==> slots[i].id == 0
  {
    [a, b] + seq(SLOTS - 2, _ => Slot(0, 0, 0, 0, []))
  }

  /** A disk of that size without thresholds and quirks. */
  function PlainDisk(size: nat, unit: nat): Setting { Setting(None, size, false, false, unit) }

  lemma TableCache(c: Setting, a: Slot, b: Slot, slots: seq<Slot>)
    requires c == PlainDisk(c.size, c.unitUnknown) && |slots| >= 2 && slots[0] == a && slots[1] == b
    requires a.id == 5 && b.id == 197 && forall i :: 2 <= i < |slots| ==> slots[i].id == 0
    ensures CacheOf(c, slots) == Cache(false, false, true, true, Reading(c, Raw32(a)), Reading(c, Raw32(b)))
  {
    assert slots[0] in slots && slots[1] in slots;
    assert forall s :: s in slots ==> s == a || s == b || s.id == 0;
    DescriptionIsCacheOf(Cache(false, false, true, true, Reading(c, Raw32(a)), Reading(c, Raw32(b))), c, slots);
  }

  /** The verdict on such a table is that of its sum. */
  lemma TableVerdict(c: Setting, a: Slot, b: Slot, n: nat, p: nat)
    requires c == PlainDisk(c.size, c.unitUnknown) && Counts(a, 5, n) && Counts(b, 197, p)
    ensures var sum := Reading(c, n) + Reading(c, p);
            Verdict(c, Table(a, b)) ==
            if sum >= Limit(c.size) then BadSectorMany else if sum > 0 then BadSector else Good
  {
    TableCache(c, a, b, Table(a, b));
  }

  lemma TableRises(c: Setting, a: Slot, a': Slot, b: Slot, n: nat, m: nat)
    requires Counts(a, 5, n) && Counts(a', 5, m)
    ensures RisesAt(c, Table(a, b), 0, a', c.size, c.unitUnknown, n, m)
    ensures Table(a, b)[0 := a'] == Table(a', b)
  {
  }

  /** The other attribute's raw count with which the rise from n crosses a limit. */
  function Companion(size: nat, unit: nat, n: nat): (p: nat)
    ensures p <= 0xffff_ffff
  {
    var limit := Limit(size);
    if unit == 0 || n >= limit then 0
    else if Reportable(size, limit - n) then limit - n
    else 0xffff_ffff
  }

  /** The crossing, in numbers. */
  lemma CompanionCrosses(c: Setting, n: nat, m: nat)
    requires n <= m <= 0xffff_ffff && CanBecomeMilder(c.size, c.unitUnknown, n, m)
    ensures var p := Reading(c, Companion(c.size, c.unitUnknown, n));
            var before, after, limit := Reading(c, n) + p, Reading(c, m) + p, Limit(c.size);
            after < limit && (before >= limit || (before > 0 && after == 0))
  {
  }

  lemma RiseMildens(c: Setting, n: nat, m: nat) returns (slots: seq<Slot>, s': Slot)
    requires n <= m <= 0xffff_ffff && CanBecomeMilder(c.size, c.unitUnknown, n, m)
              && c == PlainDisk(c.size, c.unitUnknown)
    ensures RisesAt(c, slots, 0, s', c.size, c.unitUnknown, n, m)
    ensures Rank(Verdict(c, slots[0 := s'])) < Rank(Verdict(c, slots))
  {
    var p := Companion(c.size, c.unitUnknown, n);
    var a := CountingSlot(5, n);
    var b := CountingSlot(197, p);
    s' := CountingSlot(5, m);
    slots := Table(a, b);
    TableRises(c, a, s', b, n, m);
    TableVerdict(c, a, b, n, p);
    TableVerdict(c, s', b, m, p);
    CompanionCrosses(c, n, m);
  }

  /** The condition, exactly: it concerns the two counts, the size of the disk and the stand-in, nothing else. */
  lemma NeverMilderIff(size: nat, unit: nat, n: nat, m: nat)
    requires n <= m <= 0xffff_ffff
    ensures NeverMilder(size, unit, n, m) <==> !CanBecomeMilder(size, unit, n, m)
  {
    if CanBecomeMilder(size, unit, n, m) {
      var slots, s' := RiseMildens(PlainDisk(size, unit), n, m);
      var i: nat := 0;
      assert RisesAt(PlainDisk(size, unit), slots, i, s', size, unit, n, m);
    } else {
      forall c, slots, i: nat, s' | RisesAt(c, slots, i, s', size, unit, n, m)
        ensures Rank(Verdict(c, slots)) <= Rank(Verdict(c, slots[i := s']))
      {
        OneRiseKeepsVerdict(c, slots, i, s', n, m);
      }
    }
  }

  /** An input: on a disk of 2048 sectors, where the number of the unknown unit is 0, a count that rises from 1000 to
      10000 turns a disk with bad sectors into a good one. */
  lemma MoreSectorsMilder() returns (c: Setting, slots: seq<Slot>, s': Slot)
    ensures RisesAt(c, slots, 0, s', 1048576, 0, 1000, 10000)
    ensures Verdict(c, slots) == BadSector && Verdict(c, slots[0 := s']) == Good
  {
    c := PlainDisk(1048576, 0);
    var a := CountingSlot(5, 1000);
    var b := CountingSlot(197, 0);
    s' := CountingSlot(5, 10000);
    slots := Table(a, b);
    TableRises(c, a, s', b, 1000, 10000);
    TableVerdict(c, a, b, 1000, 0);
    TableVerdict(c, s', b, 10000, 0);
    assert Log2(2048) >= 1;
  }

  /** A table whose counts are 0, with which a disk below 1024 bytes is condemned and a larger one is good. */
  lemma ZeroCounts(size: nat, unit: nat) returns (slots: seq<Slot>)
    ensures |slots| == SLOTS
    ensures Verdict(PlainDisk(size, unit), slots) == if size / 512 <= 1 then BadSectorMany else Good
  {
    var a := CountingSlot(5, 0);
    var b := CountingSlot(197, 0);
    slots := Table(a, b);
    TableVerdict(PlainDisk(size, unit), a, b, 0, 0);
  }
}
