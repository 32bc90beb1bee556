// Model of the attribute table, its cache and the overall verdict in atasmart.strpool.c:
// find_threshold, sk_disk_smart_parse_attributes, fill_cache, sk_disk_smart_get_bad,
// u64log2 and sk_disk_smart_get_overall.
module SmartVerdict {
  import opened Wrappers
  import opened Bytes

  // ----- The tables -----

  /** The bytes of one attribute slot that matter here. */
  datatype Slot = Slot(id: byte, flags: byte, current: byte, worst: byte, raw: seq<byte>)

  datatype Threshold = Threshold(id: byte, value: byte)

  /** What does not change while a verdict is formed: the threshold table, if valid, the size in bytes, whether the
      quirks hide attributes 5 and 197, and the header's number for an unknown unit. */
  datatype Setting = Setting(thresholds: Option<seq<Threshold>>, size: nat, hidden5: bool, hidden197: bool,
                             unitUnknown: nat)

  predicate InRange(v: byte) { 1 <= v <= 0xFD }

  datatype Assessment = Assessment(nowValid: bool, now: bool, pastValid: bool, past: bool, warn: bool)

  /** The first threshold of an attribute. */
  function FirstThreshold(ts: seq<Threshold>, id: byte): Option<byte> {
    if ts == [] then None else if ts[0].id == id then Some(ts[0].value) else FirstThreshold(ts[1..], id)
  }

  /** An attribute is bad when its value does not exceed a threshold in range. */
  function Assess(c: Setting, s: Slot): Assessment {
    match (if c.thresholds.None? then None else FirstThreshold(c.thresholds.value, s.id))
    case None => Assessment(false, true, false, true, false)
    case Some(t) =>
      var pastValid, nowValid := InRange(t) && InRange(s.worst), InRange(t) && InRange(s.current);
      var past, now := pastValid ==> s.worst > t, nowValid ==> s.current > t;
      Assessment(nowValid, now, pastValid, past, (nowValid && !now) || (pastValid && !past))
  }

  /** t is the threshold of the attribute: the value of its first entry in the table. */
  ghost predicate HasThreshold(c: Setting, id: byte, t: byte) {
    && c.thresholds.Some?
    && exists n :: 0 <= n < |c.thresholds.value| && IsFirstEntry(c.thresholds.value, n, id, t)
  }

  ghost predicate IsFirstEntry(ts: seq<Threshold>, n: int, id: byte, t: byte) {
    0 <= n < |ts| && ts[n] == Threshold(id, t) && forall m :: 0 <= m < n ==> ts[m].id != id
  }

  /** The value v of the slot's attribute is at or below its threshold, and threshold and value are in range. */
  ghost predicate Falls(c: Setting, s: Slot, v: byte) {
    exists t: byte :: HasThreshold(c, s.id, t) && t <= 0xFD && 1 <= v <= t
  }

  lemma {:induction false} FirstThresholdIs(ts: seq<Threshold>, id: byte, t: byte)
    ensures FirstThreshold(ts, id) == Some(t) <==> exists n :: 0 <= n < |ts| && IsFirstEntry(ts, n, id, t)
  {
    if ts != [] {
      FirstThresholdIs(ts[1..], id, t);
      if n :| 0 <= n < |ts| && IsFirstEntry(ts, n, id, t) {
        assert n > 0 ==> ts[1..][n - 1] == ts[n] && IsFirstEntry(ts[1..], n - 1, id, t);
      }
      if n :| 0 <= n < |ts[1..]| && IsFirstEntry(ts[1..], n, id, t) {
        assert ts[0].id != id ==> IsFirstEntry(ts, n + 1, id, t);
      }
      assert ts[0] == Threshold(id, t) ==> IsFirstEntry(ts, 0, id, t);
    }
  }

  /** What an assessment means: bad now or in the past when the present or the worst value falls to the threshold. */
  lemma AssessIsFall(c: Setting, s: Slot)
    ensures Assess(c, s).nowValid && !Assess(c, s).now <==> Falls(c, s, s.current)
    ensures Assess(c, s).pastValid && !Assess(c, s).past <==> Falls(c, s, s.worst)
  {
    if c.thresholds.Some? {
      forall t: byte
        ensures FirstThreshold(c.thresholds.value, s.id) == Some(t) <==> HasThreshold(c, s.id, t)
      {
        FirstThresholdIs(c.thresholds.value, s.id, t);
      }
    }
  }

  /** find_threshold. On failure the good flags stay as they were cleared; they are not valid then. */
  method FindThreshold(c: Setting, s: Slot) returns (a: Assessment)
    ensures a.nowValid == Assess(c, s).nowValid && a.pastValid == Assess(c, s).pastValid && a.warn == Assess(c, s).warn
    ensures a.nowValid ==> a.now == Assess(c, s).now
    ensures a.pastValid ==> a.past == Assess(c, s).past
    ensures a.nowValid && !a.now <==> Falls(c, s, s.current)
    ensures a.pastValid && !a.past <==> Falls(c, s, s.worst)
    ensures a.warn <==> Falls(c, s, s.current) || Falls(c, s, s.worst)
  {
    AssessIsFall(c, s);
    if c.thresholds.None? {
      return Assessment(false, false, false, false, false);
    }
    var ts := c.thresholds.value;
    var n := 0;
    while n < |ts| && ts[n].id != s.id
      invariant 0 <= n <= |ts|
      invariant FirstThreshold(ts, s.id) == FirstThreshold(ts[n..], s.id)
    {
      n := n + 1;
    }
    if n >= |ts| {
      return Assessment(false, false, false, false, false);
    }
    var t := ts[n].value;
    a := Assessment(false, true, false, true, false);
    if t >= 1 && t <= 0xFD {
      if InRange(s.worst) {
        a := a.(past := s.worst > t, pastValid := true);
      }
      if InRange(s.current) {
        a := a.(now := s.current > t, nowValid := true);
      }
    }
    a := a.(warn := (a.nowValid && !a.now) || (a.pastValid && !a.past));
  }

  // ----- Sector counts -----

  function RawAt(s: Slot, i: nat): nat {
    if i < |s.raw| then s.raw[i] else 0
  }

  /** The low 32 bits of the raw value. */
  function Raw32(s: Slot): (r: nat)
    ensures r <= 0xffff_ffff
  {
    RawAt(s, 0) + 256 * RawAt(s, 1) + 65536 * RawAt(s, 2) + 16777216 * RawAt(s, 3)
  }

  /** verify_sectors takes a count of all ones, or beyond the size of the disk, for a misreading. */
  predicate Plausible(size: nat, n: nat) {
    n != 0xffff_ffff && (size / 512 > 0 ==> n <= size / 512)
  }

  /** The count an attribute is taken to report; a misreading is overwritten with the number of the unknown unit. */
  function Reading(c: Setting, n: nat): nat {
    if Plausible(c.size, n) then n else c.unitUnknown
  }

  /** A larger raw value is taken as a smaller count exactly when it is a misreading, the smaller one is not, and the
      number of the unknown unit is below the smaller one. */
  lemma ReadingFallsIff(c: Setting, n: nat, m: nat)
    requires n <= m <= 0xffff_ffff
    ensures Reading(c, m) < Reading(c, n) <==> Plausible(c.size, n) && !Plausible(c.size, m) && c.unitUnknown < n
  {
  }

  // Kinds of slots, as predicates on a slot.

  function Reallocated(c: Setting): Slot -> bool {
    (s: Slot) => s.id == 5 && !c.hidden5
  }

  function Pending(c: Setting): Slot -> bool {
    (s: Slot) => s.id == 197 && !c.hidden197
  }

  function BadNow(c: Setting): Slot -> bool {
    (s: Slot) => s.id != 0 && s.flags % 2 == 1 && Assess(c, s).nowValid && !Assess(c, s).now
  }

  function BadInThePast(c: Setting): Slot -> bool {
    (s: Slot) => s.id != 0 && s.flags % 2 == 1 && Assess(c, s).pastValid && !Assess(c, s).past
  }

  function Count(c: Setting): Slot -> nat {
    (s: Slot) => Reading(c, Raw32(s))
  }

  // ----- The cache -----

  datatype Cache = Cache(badNow: bool, badPast: bool, reallocatedFound: bool, pendingFound: bool, reallocated: nat,
                         pending: nat)

  const EMPTY_CACHE := Cache(false, false, false, false, 0, 0)

  ghost predicate Occurs(p: Slot -> bool, slots: seq<Slot>) {
    exists s :: s in slots && p(s)
  }

  /** n is the greatest count among the slots of a kind, 0 when there is none. */
  ghost predicate IsGreatest(n: nat, p: Slot -> bool, f: Slot -> nat, slots: seq<Slot>) {
    && (forall s :: s in slots && p(s) ==> f(s) <= n)
    && (n > 0 ==> exists s :: s in slots && p(s) && f(s) == n)
  }

  lemma OccursAppend(p: Slot -> bool, slots: seq<Slot>, s: Slot)
    ensures Occurs(p, slots + [s]) <==> Occurs(p, slots) || p(s)
  {
    assert forall x :: x in slots + [s] <==> x in slots || x == s;
  }

  lemma GreatestAppend(n: nat, p: Slot -> bool, f: Slot -> nat, slots: seq<Slot>, s: Slot)
    requires IsGreatest(n, p, f, slots)
    ensures IsGreatest(if p(s) && f(s) > n then f(s) else n, p, f, slots + [s])
  {
    assert forall x :: x in slots + [s] <==> x in slots || x == s;
  }

  lemma GreatestIsUnique(n: nat, n': nat, p: Slot -> bool, f: Slot -> nat, slots: seq<Slot>, slots': seq<Slot>)
    requires IsGreatest(n, p, f, slots) && IsGreatest(n', p, f, slots')
    requires forall s :: s in slots <==> s in slots'
    ensures n == n'
  {
  }

  /** The cache says of the slots what it should: which kinds occur, and the greatest counts. */
  ghost predicate Describes(k: Cache, c: Setting, slots: seq<Slot>) {
    && k.badNow == Occurs(BadNow(c), slots)
    && k.badPast == Occurs(BadInThePast(c), slots)
    && k.reallocatedFound == Occurs(Reallocated(c), slots)
    && k.pendingFound == Occurs(Pending(c), slots)
    && IsGreatest(k.reallocated, Reallocated(c), Count(c), slots)
    && IsGreatest(k.pending, Pending(c), Count(c), slots)
  }

  /** fill_cache_cb on one parsed attribute. */
  function Absorb(k: Cache, c: Setting, s: Slot): Cache {
    Cache(k.badNow || BadNow(c)(s), k.badPast || BadInThePast(c)(s),
          k.reallocatedFound || Reallocated(c)(s), k.pendingFound || Pending(c)(s),
          if Reallocated(c)(s) && Count(c)(s) > k.reallocated then Count(c)(s) else k.reallocated,
          if Pending(c)(s) && Count(c)(s) > k.pending then Count(c)(s) else k.pending)
  }

  lemma EmptyDescribesNothing(c: Setting)
    ensures Describes(EMPTY_CACHE, c, [])
  {
  }

  lemma AbsorbDescribes(k: Cache, c: Setting, slots: seq<Slot>, s: Slot)
    requires Describes(k, c, slots)
    ensures Describes(Absorb(k, c, s), c, slots + [s])
  {
    OccursAppend(BadNow(c), slots, s);
    OccursAppend(BadInThePast(c), slots, s);
    OccursAppend(Reallocated(c), slots, s);
    OccursAppend(Pending(c), slots, s);
    GreatestAppend(k.reallocated, Reallocated(c), Count(c), slots, s);
    GreatestAppend(k.pending, Pending(c), Count(c), slots, s);
  }

  /** Two caches that describe the same slots, in whatever order and number, are the same. */
  lemma DescriptionIsUnique(k: Cache, k': Cache, c: Setting, slots: seq<Slot>, slots': seq<Slot>)
    requires Describes(k, c, slots) && Describes(k', c, slots')
    requires forall s :: s in slots <==> s in slots'
    ensures k == k'
  {
    GreatestIsUnique(k.reallocated, k'.reallocated, Reallocated(c), Count(c), slots, slots');
    GreatestIsUnique(k.pending, k'.pending, Pending(c), Count(c), slots, slots');
  }

  /** Permuting the slots changes nothing. */
  lemma PermutationKeepsCache(k: Cache, k': Cache, c: Setting, slots: seq<Slot>, slots': seq<Slot>)
    requires Describes(k, c, slots) && Describes(k', c, slots')
    requires multiset(slots) == multiset(slots')
    ensures k == k'
  {
    forall s ensures s in slots <==> s in slots' {
      assert s in slots <==> s in multiset(slots);
      assert s in slots' <==> s in multiset(slots');
    }
    DescriptionIsUnique(k, k', c, slots, slots');
  }

  /** The cache after all slots have been absorbed. */
  function CacheOf(c: Setting, slots: seq<Slot>): Cache {
    if slots == [] then EMPTY_CACHE else Absorb(CacheOf(c, slots[..|slots| - 1]), c, slots[|slots| - 1])
  }

  lemma {:induction false} CacheOfDescribes(c: Setting, slots: seq<Slot>)
    ensures Describes(CacheOf(c, slots), c, slots)
  {
    if slots == [] {
      EmptyDescribesNothing(c);
    } else {
      var front, last := slots[..|slots| - 1], slots[|slots| - 1];
      CacheOfDescribes(c, front);
      AbsorbDescribes(CacheOf(c, front), c, front, last);
      assert front + [last] == slots;
    }
  }

  /** Whatever describes the slots is that cache. */
  lemma DescriptionIsCacheOf(k: Cache, c: Setting, slots: seq<Slot>)
    requires Describes(k, c, slots)
    ensures k == CacheOf(c, slots)
  {
    CacheOfDescribes(c, slots);
    DescriptionIsUnique(k, CacheOf(c, slots), c, slots, slots);
  }

  // ----- The limit -----

  function Pow2(r: nat): nat {
    if r == 0 then 1 else 2 * Pow2(r - 1)
  }

  lemma {:induction false} Pow2Monotone(a: nat, b: nat)
    requires a <= b
    ensures Pow2(a) <= Pow2(b)
  {
    if a < b { Pow2Monotone(a, b - 1); }
  }

  /** The exponent of the highest power of two not above n, 0 for 0. */
  ghost predicate IsLog2(n: nat, r: nat) {
    if n == 0 then r == 0 else Pow2(r) <= n < Pow2(r + 1)
  }

  lemma Log2IsUnique(n: nat, r: nat, r': nat)
    requires IsLog2(n, r) && IsLog2(n, r')
    ensures r == r'
  {
    if r < r' {
      Pow2Monotone(r + 1, r');
    } else if r' < r {
      Pow2Monotone(r' + 1, r);
    }
  }

  function Log2(n: nat): nat {
    if n <= 1 then 0 else 1 + Log2(n / 2)
  }

  lemma {:induction false} Log2IsLog2(n: nat)
    ensures IsLog2(n, Log2(n))
  {
    if n > 1 {
      Log2IsLog2(n / 2);
    }
  }

  /** u64log2 */
  method U64Log2(n: nat) returns (r: nat)
    ensures IsLog2(n, r) && r == Log2(n)
  {
    r := HalveAndCount(n);
    Log2IsLog2(n);
    Log2IsUnique(n, r, Log2(n));
  }

  method HalveAndCount(n: nat) returns (r: nat)
    ensures IsLog2(n, r)
  {
    if n <= 1 {
      return 0;
    }
    r := 0;
    var m := n;
    while true
      invariant m >= 1 && Pow2(r) * m <= n < Pow2(r) * (m + 1)
      decreases m
    {
      ghost var p := Pow2(r);
      HalvingKeepsBounds(p, m, n);
      m := m / 2;
      if m == 0 {
        return;
      }
      r := r + 1;
    }
  }

  lemma HalvingKeepsBounds(p: nat, m: nat, n: nat)
    requires m >= 1 && p * m <= n < p * (m + 1)
    ensures (2 * p) * (m / 2) <= n < (2 * p) * (m / 2 + 1)
    ensures m / 2 == 0 ==> p <= n < 2 * p
  {
    var h := m / 2;
    if m % 2 == 0 {
      assert m == 2 * h && p * (2 * h) == (2 * p) * h;
      assert p * (2 * h + 1) == (2 * p) * h + p && (2 * p) * (h + 1) == (2 * p) * h + 2 * p;
    } else {
      assert m == 2 * h + 1 && p * (2 * h + 1) == (2 * p) * h + p;
      assert p * (2 * h + 2) == (2 * p) * (h + 1);
    }
  }

  // ----- The verdict -----

  datatype Overall = Good | BadAttributeInThePast | BadSector | BadAttributeNow | BadSectorMany | BadStatus

  function Rank(o: Overall): nat {
    match o
    case Good => 0
    case BadAttributeInThePast => 1
    case BadSector => 2
    case BadAttributeNow => 3
    case BadSectorMany => 4
    case BadStatus => 5
  }

  predicate Counted(k: Cache) { k.reallocatedFound || k.pendingFound }

  function Sectors(k: Cache): nat {
    (if k.reallocatedFound then k.reallocated else 0) + (if k.pendingFound then k.pending else 0)
  }

  /** The condition each verdict stands for, with r the logarithm of the size in sectors. */
  predicate Holds(o: Overall, good: bool, k: Cache, r: nat) {
    match o
    case Good => true
    case BadAttributeInThePast => k.badPast
    case BadSector => Counted(k) && Sectors(k) > 0
    case BadAttributeNow => k.badNow
    case BadSectorMany => Counted(k) && Sectors(k) >= 1024 * r
    case BadStatus => !good
  }

  ghost predicate MostSevere(o: Overall, good: bool, k: Cache, r: nat) {
    Holds(o, good, k, r) && forall p :: Holds(p, good, k, r) ==> Rank(p) <= Rank(o)
  }

  /** k' is at least as bad as k: no flag fewer, no count lower. */
  ghost predicate Worse(k: Cache, k': Cache) {
    && (k.badNow ==> k'.badNow) && (k.badPast ==> k'.badPast)
    && (Counted(k) ==> Counted(k')) && Sectors(k) <= Sectors(k')
  }

  /** More bad sectors, another bad flag or a failed self-assessment never makes the verdict milder. */
  lemma VerdictIsMonotone(o: Overall, o': Overall, good: bool, good': bool, k: Cache, k': Cache, r: nat)
    requires MostSevere(o, good, k, r) && MostSevere(o', good', k', r)
    requires Worse(k, k') && (!good ==> !good')
    ensures Rank(o) <= Rank(o')
  {
    assert Holds(o, good', k', r);
  }

  lemma MostSevereIsUnique(o: Overall, o': Overall, good: bool, k: Cache, r: nat)
    requires MostSevere(o, good, k, r) && MostSevere(o', good, k, r)
    ensures o == o'
  {
  }

  /** The count cannot exceed what 64 bits hold. */
  lemma SectorsFit(k: Cache, c: Setting, slots: seq<Slot>)
    requires Describes(k, c, slots) && c.unitUnknown <= 0xffff_ffff
    ensures Sectors(k) < 0x1_0000_0000_0000_0000
  {
    if k.reallocated > 0 {
      var s :| s in slots && Reallocated(c)(s) && Count(c)(s) == k.reallocated;
    }
    if k.pending > 0 {
      var s :| s in slots && Pending(c)(s) && Count(c)(s) == k.pending;
    }
  }

  datatype Errno = ENOENT | StatusFailed

  class Disk {
    const setting: Setting
    var slots: seq<Slot>       // the 30 slots of the SMART data
    var dataValid: bool
    var cacheValid: bool
    var cache: Cache

    constructor (setting: Setting, slots: seq<Slot>, dataValid: bool)
      requires |slots| == 30
      ensures this.setting == setting && this.slots == slots && this.dataValid == dataValid && Fresh() && Valid()
    {
      this.setting, this.slots, this.dataValid := setting, slots, dataValid;
      cacheValid, cache := false, EMPTY_CACHE;
    }

    /** The cache has not been filled since the disk was opened. */
    predicate Fresh()
      reads this
    {
      !cacheValid && cache == EMPTY_CACHE
    }

    /** An invalid cache is still empty, a valid one describes the slots. */
    ghost predicate Valid()
      reads this
    {
      && |slots| == 30
      && (if cacheValid then Describes(cache, setting, slots) else cache == EMPTY_CACHE)
    }

    /** sk_disk_smart_parse_attributes with fill_cache_cb: every used slot is parsed, assessed and absorbed. */
    method ParseAttributes()
      requires Valid() && !cacheValid && dataValid
      modifies `cache
      ensures Describes(cache, setting, slots)
    {
      var n := 0;
      EmptyDescribesNothing(setting);
      while n < 30
        invariant 0 <= n <= 30 && Describes(cache, setting, slots[..n])
      {
        AbsorbDescribes(cache, setting, slots[..n], slots[n]);
        assert slots[..n] + [slots[n]] == slots[..n + 1];
        ParseSlot(slots[n]);
        n := n + 1;
      }
      assert slots[..30] == slots;
    }

    method ParseSlot(s: Slot)
      modifies `cache
      ensures cache == Absorb(old(cache), setting, s)
    {
      if s.id == 0 {
        return;
      }
      var a := FindThreshold(setting, s);
      NoteBadness(s, a);
      NoteCount(s);
    }

    /** The first half of fill_cache_cb: a pre-failure attribute sets the flags. */
    method NoteBadness(s: Slot, a: Assessment)
      requires s.id != 0
      requires a.nowValid == Assess(setting, s).nowValid && (a.nowValid ==> a.now == Assess(setting, s).now)
      requires a.pastValid == Assess(setting, s).pastValid && (a.pastValid ==> a.past == Assess(setting, s).past)
      modifies `cache
      ensures cache == old(cache).(badNow := old(cache).badNow || BadNow(setting)(s),
                                   badPast := old(cache).badPast || BadInThePast(setting)(s))
    {
      if s.flags % 2 == 1 {
        if a.nowValid && !a.now {
          cache := cache.(badNow := true);
        }
        if a.pastValid && !a.past {
          cache := cache.(badPast := true);
        }
      }
    }

    /** The second half, with the count as make_pretty and verify_sectors leave it. */
    method NoteCount(s: Slot)
      modifies `cache
      ensures cache == Absorb(old(cache), setting, s).(badNow := old(cache).badNow, badPast := old(cache).badPast)
    {
      var reallocated, pending := Reallocated(setting)(s), Pending(setting)(s);
      if !reallocated && !pending {
        return;
      }
      var value := Raw32(s);
      var most := setting.size / 512;
      if value == 0xffff_ffff || value == 0xffff_ffff_ffff || (most > 0 && value > most) {
        value := setting.unitUnknown;
      }
      if reallocated {
        if value > cache.reallocated {
          cache := cache.(reallocated := value);
        }
        cache := cache.(reallocatedFound := true);
      }
      if pending {
        if value > cache.pending {
          cache := cache.(pending := value);
        }
        cache := cache.(pendingFound := true);
      }
    }

    /** fill_cache */
    method FillCache() returns (ok: bool)
      requires Valid()
      modifies `cache, `cacheValid
      ensures Valid()
      ensures ok <==> old(cacheValid) || dataValid
      ensures ok ==> cacheValid && Describes(cache, setting, slots)
      ensures old(cacheValid) || !ok ==> cache == old(cache) && cacheValid == old(cacheValid)
    {
      if cacheValid {
        return true;
      }
      if !dataValid {
        return false;
      }
      ParseAttributes();
      cacheValid := true;
      return true;
    }

    /** sk_disk_smart_get_bad: the greatest reallocated count plus the greatest pending count; None (ENOENT) when
        the table cannot be parsed or holds neither. */
    method GetBad() returns (sectors: Option<nat>)
      requires Valid()
      modifies `cache, `cacheValid
      ensures Valid()
      ensures sectors.Some? <==> (old(cacheValid) || dataValid) && Counted(cache)
      ensures sectors.Some? ==> sectors.value == Sectors(cache)
      ensures old(cacheValid) || dataValid ==> cacheValid
      ensures cacheValid == (old(cacheValid) || dataValid)
    {
      var ok := FillCache();
      if !ok {
        return None;
      }
      if !cache.reallocatedFound && !cache.pendingFound {
        return None;
      }
      if cache.reallocatedFound && cache.pendingFound {
        return Some(cache.reallocated + cache.pending);
      } else if cache.reallocatedFound {
        return Some(cache.reallocated);
      } else {
        return Some(cache.pending);
      }
    }

    /** sk_disk_smart_get_overall, given the drive's self-assessment: the most severe condition that holds. */
    method GetOverall(status: Option<bool>) returns (r: Result<Overall, Errno>)
      requires Valid()
      modifies `cache, `cacheValid
      ensures Valid()
      ensures r == Err(StatusFailed) <==> status.None?
      ensures r == Err(ENOENT) <==> status == Some(true) && !old(cacheValid) && !dataValid
      ensures status == Some(false) ==> r == Ok(BadStatus)
      ensures r.Ok? && status == Some(true) ==> cacheValid && r.value == Verdict(setting, slots)
    {
      var limit := U64Log2(setting.size / 512);
      if status.None? {
        return Err(StatusFailed);
      }
      if !status.value {
        return Ok(BadStatus);
      }
      var bad := GetBad();
      var ok := FillCache();
      if !ok {
        return Err(ENOENT);
      }
      DescriptionIsCacheOf(cache, setting, slots);
      return Ok(Judge(cache, bad, limit));
    }
  }

  /** The tests after the self-assessment, in their order. The table is parsed at most once, so parsing it before
      the limit test instead of after it makes no difference: a count can only come from a parsed table. */
  function Judge(k: Cache, bad: Option<nat>, limit: nat): (o: Overall)
    requires bad == if Counted(k) then Some(Sectors(k)) else None
    ensures MostSevere(o, true, k, limit)
  {
    if bad.Some? && bad.value >= limit * 1024 then BadSectorMany
    else if k.badNow then BadAttributeNow
    else if bad.GetOr(0) > 0 then BadSector
    else if k.badPast then BadAttributeInThePast
    else Good
  }

  /** The verdict on a table, the drive's self-assessment being good. */
  function Verdict(c: Setting, slots: seq<Slot>): Overall {
    var k := CacheOf(c, slots);
    Judge(k, if Counted(k) then Some(Sectors(k)) else None, Log2(c.size / 512))
  }

  /** It is the most severe condition that holds, and nothing else is. */
  lemma VerdictIsMostSevere(c: Setting, slots: seq<Slot>, k: Cache, r: nat, o: Overall)
    requires Describes(k, c, slots) && IsLog2(c.size / 512, r)
    ensures MostSevere(o, true, k, r) <==> o == Verdict(c, slots)
  {
    DescriptionIsCacheOf(k, c, slots);
    Log2IsLog2(c.size / 512);
    Log2IsUnique(c.size / 512, r, Log2(c.size / 512));
    if MostSevere(o, true, k, r) { MostSevereIsUnique(o, Verdict(c, slots), true, k, r); }
  }

  /** Two tables whose slots are permutations of each other get the same verdict. */
  lemma PermutationKeepsVerdict(c: Setting, slots: seq<Slot>, slots': seq<Slot>)
    requires multiset(slots) == multiset(slots')
    ensures Verdict(c, slots) == Verdict(c, slots')
  {
    CacheOfDescribes(c, slots);
    CacheOfDescribes(c, slots');
    PermutationKeepsCache(CacheOf(c, slots), CacheOf(c, slots'), c, slots, slots');
  }

  /** A disk below 1024 bytes, for which the limit is 0, is condemned by the mere presence of a sector count: a table
      whose counts are 0 gets the many-sectors verdict exactly there. */
  lemma TinyDiskIsCondemned(c: Setting, slots: seq<Slot>)
    requires Counted(CacheOf(c, slots)) && Sectors(CacheOf(c, slots)) == 0
    ensures Verdict(c, slots) == BadSectorMany <==> c.size / 512 <= 1
  {
  }
}
