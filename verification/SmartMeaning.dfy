// What the overall verdict of atasmart.strpool.c says about the slots of the table, verdict by verdict.
module SmartMeaning {
  import opened Wrappers
  import opened Bytes
  import opened SmartVerdict

  /** A used slot that predicts failure when it is bad. */
  predicate PreFailure(s: Slot) { s.id != 0 && s.flags % 2 == 1 }

  /** A pre-failure attribute is at or below its threshold. */
  ghost predicate FailsNow(c: Setting, slots: seq<Slot>) {
    exists s :: s in slots && PreFailure(s) && Falls(c, s, s.current)
  }

  /** A pre-failure attribute has once been at or below its threshold. */
  ghost predicate FailedOnce(c: Setting, slots: seq<Slot>) {
    exists s :: s in slots && PreFailure(s) && Falls(c, s, s.worst)
  }

  /** Attribute 5 counts reallocated sectors and 197 pending ones, where the quirks do not hide them. */
  predicate CountsSectors(c: Setting, s: Slot) {
    (s.id == 5 && !c.hidden5) || (s.id == 197 && !c.hidden197)
  }

  /** n is the greatest count reported by attribute id, 0 when it is absent. */
  ghost predicate Greatest(c: Setting, slots: seq<Slot>, id: byte, n: nat) {
    && (forall s :: s in slots && s.id == id && CountsSectors(c, s) ==> Reading(c, Raw32(s)) <= n)
    && (n > 0 ==> exists s :: s in slots && s.id == id && CountsSectors(c, s) && Reading(c, Raw32(s)) == n)
  }

  ghost predicate HasCount(c: Setting, slots: seq<Slot>) {
    exists s :: s in slots && CountsSectors(c, s)
  }

  lemma FlagsMean(c: Setting, slots: seq<Slot>)
    ensures Occurs(BadNow(c), slots) <==> FailsNow(c, slots)
    ensures Occurs(BadInThePast(c), slots) <==> FailedOnce(c, slots)
  {
    forall s
      ensures BadNow(c)(s) <==> PreFailure(s) && Falls(c, s, s.current)
      ensures BadInThePast(c)(s) <==> PreFailure(s) && Falls(c, s, s.worst)
    {
      AssessIsFall(c, s);
    }
  }

  lemma CountsMean(c: Setting, slots: seq<Slot>, k: Cache, reallocated: nat, pending: nat)
    requires Describes(k, c, slots)
    requires Greatest(c, slots, 5, reallocated) && Greatest(c, slots, 197, pending)
    ensures Counted(k) <==> HasCount(c, slots)
    ensures Sectors(k) == reallocated + pending
  {
    GreatestIsUnique(k.reallocated, reallocated, Reallocated(c), Count(c), slots, slots);
    GreatestIsUnique(k.pending, pending, Pending(c), Count(c), slots, slots);
    if HasCount(c, slots) {
      var s :| s in slots && CountsSectors(c, s);
      assert Reallocated(c)(s) || Pending(c)(s);
    }
  }

  /** Many sectors: a count is reported, and the greatest counts add up to 1024 for each doubling of the size. */
  ghost predicate Many(c: Setting, slots: seq<Slot>, total: nat, r: nat) {
    HasCount(c, slots) && total >= 1024 * r
  }

  /** What each verdict says, with total the sum of the two greatest counts and r the logarithm of the size in sectors:
      many sectors come first, then an attribute that fails now, then any bad sector, then one that has failed once. */
  lemma VerdictSays(c: Setting, slots: seq<Slot>, reallocated: nat, pending: nat, r: nat)
    requires Greatest(c, slots, 5, reallocated) && Greatest(c, slots, 197, pending) && IsLog2(c.size / 512, r)
    ensures var total, v := reallocated + pending, Verdict(c, slots);
            && (v == BadSectorMany <==> Many(c, slots, total, r))
            && (v == BadAttributeNow <==> !Many(c, slots, total, r) && FailsNow(c, slots))
            && (v == BadSector <==> !Many(c, slots, total, r) && !FailsNow(c, slots) && total > 0)
            && (v == BadAttributeInThePast <==>
                  !Many(c, slots, total, r) && !FailsNow(c, slots) && total == 0 && FailedOnce(c, slots))
            && (v == Good <==> !Many(c, slots, total, r) && !FailsNow(c, slots) && total == 0 && !FailedOnce(c, slots))
  {
    CacheOfDescribes(c, slots);
    FlagsMean(c, slots);
    CountsMean(c, slots, CacheOf(c, slots), reallocated, pending);
    Log2IsLog2(c.size / 512);
    Log2IsUnique(c.size / 512, r, Log2(c.size / 512));
    NoCountNoTotal(c, slots, reallocated, pending);
  }

  lemma NoCountNoTotal(c: Setting, slots: seq<Slot>, reallocated: nat, pending: nat)
    requires Greatest(c, slots, 5, reallocated) && Greatest(c, slots, 197, pending)
    ensures reallocated + pending > 0 ==> HasCount(c, slots)
  {
  }

  /** Every table has those greatest counts. */
  lemma GreatestExist(c: Setting, slots: seq<Slot>) returns (reallocated: nat, pending: nat)
    ensures Greatest(c, slots, 5, reallocated) && Greatest(c, slots, 197, pending)
  {
    var k := CacheOf(c, slots);
    CacheOfDescribes(c, slots);
    reallocated, pending := k.reallocated, k.pending;
  }

  /** The raw count is stored least significant byte first, whatever follows the first four. */
  lemma RawIsLittleEndian(s: Slot, n: nat, m: nat)
    requires n <= 0xff && m <= 0xff_ffff && |s.raw| >= 4
    ensures s.raw[0] == n && Raw32(s.(raw := s.raw[1..4])) == m ==> Raw32(s) == n + 256 * m
  {
  }
}
