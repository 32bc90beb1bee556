// What the PKGS mode of pkgdetails.c is to answer to each name, measured on the file, and what its passes are proved
// to answer.
module PkgAnswers {
  import opened Wrappers
  import opened PkgDetails

  // ----- What each name is to get -----

  /** The text of the last line of a kind among the first k, which may belong to an earlier stanza. */
  function Latest(lines: seq<Line>, k: nat, kind: Kind, start: string): string
    requires k <= |lines|
  {
    if k == 0 then start
    else if lines[k - 1].Field? && lines[k - 1].kind == kind then lines[k - 1].text
    else Latest(lines, k - 1, kind, start)
  }

  /** The package named since the last blank line, or nothing. */
  function CurField(lines: seq<Line>, k: nat): string
    requires k <= |lines|
  {
    if k == 0 || lines[k - 1].Blank? then ""
    else if lines[k - 1].Field? && lines[k - 1].kind == Pkg then lines[k - 1].text
    else CurField(lines, k - 1)
  }

  function DetailsAt(f: Source, b: nat): Out
    requires b <= |f.lines|
  {
    Details(Latest(f.lines, b, Pkg, ""), Latest(f.lines, b, Ver, ""), Latest(f.lines, b, Arch, ""), f.mirror,
            Latest(f.lines, b, File, ""), Latest(f.lines, b, Sum, f.checksum0), Latest(f.lines, b, Size, f.size0))
  }

  /** The first package named at or after from, among the first k lines. */
  function NextName(lines: seq<Line>, from: nat, k: nat): Option<string>
    requires k <= |lines|
    decreases k - from
  {
    if from >= k then None
    else if lines[from].Field? && lines[from].kind == Pkg then Some(lines[from].text)
    else NextName(lines, from + 1, k)
  }

  /** The blank line b ends a stanza of n, and the next stanza (as far as line k) is not again one of n. */
  predicate Survives(lines: seq<Line>, b: nat, k: nat, n: string)
    requires k <= |lines|
  {
    b < k && lines[b].Blank? && CurField(lines, b) == n && NextName(lines, b + 1, k) != Some(n)
  }

  function FirstSurvivor(lines: seq<Line>, from: nat, n: string): (b: Option<nat>)
    ensures b.Some? ==> b.value < |lines|
    decreases |lines| - from
  {
    if from >= |lines| then None
    else if Survives(lines, from, |lines|, n) then Some(from)
    else FirstSurvivor(lines, from + 1, n)
  }

  /** What a name is to get: the details of its first stanza that is ended by a blank line and not followed by another
      stanza of the same name; "name -" if there is none. */
  function Answer(f: Source, n: string): Out {
    match FirstSurvivor(f.lines, 0, n)
    case Some(b) => DetailsAt(f, b)
    case None => Missing(n)
  }

  lemma {:induction false} FirstSurvivorIs(lines: seq<Line>, from: nat, b: nat, n: string)
    requires from <= b && Survives(lines, b, |lines|, n)
    requires forall a :: from <= a < b ==> !Survives(lines, a, |lines|, n)
    ensures FirstSurvivor(lines, from, n) == Some(b)
    decreases b - from
  {
    if from < b { FirstSurvivorIs(lines, from + 1, b, n); }
  }

  lemma {:induction false} NoSurvivor(lines: seq<Line>, from: nat, n: string)
    requires forall a :: from <= a < |lines| ==> !Survives(lines, a, |lines|, n)
    ensures FirstSurvivor(lines, from, n) == None
    decreases |lines| - from
  {
    if from < |lines| { NoSurvivor(lines, from + 1, n); }
  }

  // ----- One line more -----

  lemma {:induction false} NextNameGrows(lines: seq<Line>, from: nat, k: nat)
    requires k < |lines|
    ensures NextName(lines, from, k).Some? ==> NextName(lines, from, k + 1) == NextName(lines, from, k)
    ensures NextName(lines, from, k).None? && from <= k && NamesPackage(lines[k]) ==>
              NextName(lines, from, k + 1) == Some(lines[k].text)
    ensures NextName(lines, from, k).None? && !NamesPackage(lines[k]) ==> NextName(lines, from, k + 1).None?
    decreases k - from
  {
    if from < k { NextNameGrows(lines, from + 1, k); }
  }

  lemma SurvivalStep(lines: seq<Line>, b: nat, k: nat, n: string)
    requires k < |lines| && b < k
    ensures Survives(lines, b, k + 1, n) ==> Survives(lines, b, k, n)
    ensures NextName(lines, b + 1, k) == None && lines[k] == Field(Pkg, n) ==> !Survives(lines, b, k + 1, n)
  {
    NextNameGrows(lines, b + 1, k);
  }

  lemma {:induction false} NamedStays(lines: seq<Line>, from: nat, k: nat, m: nat)
    requires k <= m <= |lines| && NextName(lines, from, k).Some?
    ensures NextName(lines, from, m) == NextName(lines, from, k)
    decreases m - k
  {
    if k < m {
      NextNameGrows(lines, from, k);
      NamedStays(lines, from, k + 1, m);
    }
  }

  /** No package named since a blank line: nothing is current. */
  lemma {:induction false} NothingCurrent(lines: seq<Line>, b: nat, k: nat)
    requires b < k <= |lines| && lines[b].Blank? && NextName(lines, b + 1, k) == None
    ensures CurField(lines, k) == ""
    ensures Latest(lines, k, Pkg, "") == Latest(lines, b, Pkg, "")
    decreases k - b
  {
    if b + 1 < k {
      NextNameGrows(lines, b + 1, k - 1);
      NothingCurrent(lines, b, k - 1);
    }
  }

  /** What is current, unless nothing is, is the last package named. */
  lemma {:induction false} CurrentIsLatest(lines: seq<Line>, k: nat)
    requires k <= |lines|
    ensures CurField(lines, k) != "" ==> CurField(lines, k) == Latest(lines, k, Pkg, "")
  {
    if k > 0 { CurrentIsLatest(lines, k - 1); }
  }

  // ----- Slots -----

  lemma {:induction false} LiveLoses(pkgs: seq<Option<string>>, i: nat)
    requires i < |pkgs| && pkgs[i].Some?
    ensures multiset(Live(pkgs)) == multiset(Live(pkgs[i := None])) + multiset{pkgs[i].value}
    decreases |pkgs|
  {
    var after := pkgs[i := None];
    if i == 0 {
      assert after[1..] == pkgs[1..];
      assert Live(after) == Live(pkgs[1..]);
    } else {
      LiveLoses(pkgs[1..], i - 1);
      assert after[1..] == pkgs[1..][i - 1 := None];
    }
  }

  lemma {:induction false} LiveOfAll(names: seq<string>, pkgs: seq<Option<string>>)
    requires |pkgs| == |names| && forall i :: 0 <= i < |names| ==> pkgs[i] == Some(names[i])
    ensures Live(pkgs) == names
  {
    if names != [] {
      LiveOfAll(names[1..], pkgs[1..]);
      assert names == [names[0]] + names[1..];
    }
  }

  // ----- What holds after k lines -----

  ghost predicate Plain(names: seq<string>) {
    "" !in names && forall i, j :: 0 <= i < j < |names| ==> names[i] != names[j]
  }

  function CurrentAt(f: Source, k: nat): Current
    requires k <= |f.lines|
  {
    Current(CurField(f.lines, k), Latest(f.lines, k, Pkg, ""), Latest(f.lines, k, Ver, ""),
            Latest(f.lines, k, Arch, ""), Latest(f.lines, k, Size, f.size0),
            Latest(f.lines, k, Sum, f.checksum0), Latest(f.lines, k, File, ""))
  }

  /** A slot holds its name until it has been answered. */
  ghost predicate SlotsOf(names: seq<string>, pkgs: seq<Option<string>>) {
    |pkgs| == |names| && forall i :: 0 <= i < |pkgs| ==> pkgs[i] == None || pkgs[i] == Some(names[i])
  }

  /** Every name was printed or is still asked for, as often as it was requested. */
  ghost predicate Shared(names: seq<string>, pkgs: seq<Option<string>>, asked: seq<string>) {
    multiset(asked) + multiset(Live(pkgs)) == multiset(names)
  }

  /** There is pending output exactly when output_pkg is set, and then it is that of the blank line at, for a slot still
      asked for, and no package has been named since. */
  ghost predicate PendingIs(f: Source, k: nat, pkgs: seq<Option<string>>, output: Option<Out>, slot: int, at: nat) {
    && (output.Some? <==> slot != -1)
    && (slot != -1 ==>
         && 0 <= slot < |pkgs| && pkgs[slot].Some? && EndsStanza(f, k, at, pkgs[slot].value)
         && NextName(f.lines, at + 1, k) == None && output == Some(DetailsAt(f, at)))
  }

  /** The blank line at, before line k, ends a stanza of n. */
  ghost predicate EndsStanza(f: Source, k: nat, at: nat, n: string) {
    at < k <= |f.lines| && f.lines[at].Blank? && CurField(f.lines, at) == n
  }

  /** Each line printed so far is the details of a stanza of the name it answers. */
  ghost predicate PrintedAre(f: Source, k: nat, printed: seq<Out>, asked: seq<string>, ats: seq<nat>) {
    && |printed| == |asked| == |ats|
    && forall j :: 0 <= j < |printed| ==> EndsStanza(f, k, ats[j], asked[j]) && printed[j] == DetailsAt(f, ats[j])
  }

  /** at is the first stanza of n to survive, whatever the rest of the file. */
  ghost predicate Settled(f: Source, k: nat, at: nat, n: string) {
    && EndsStanza(f, k, at, n)
    && NextName(f.lines, at + 1, k).Some? && NextName(f.lines, at + 1, k) != Some(n)
    && NoneBefore(f, k, at, n)
  }

  ghost predicate NoneBefore(f: Source, k: nat, at: nat, n: string) {
    k <= |f.lines| && forall b :: 0 <= b < at ==> !Survives(f.lines, b, k, n)
  }

  ghost predicate AllSettled(f: Source, k: nat, asked: seq<string>, ats: seq<nat>) {
    |asked| == |ats| && forall j :: 0 <= j < |asked| ==> Settled(f, k, ats[j], asked[j])
  }

  /** No stanza of n survives, except possibly the pending one. */
  ghost predicate Open(f: Source, k: nat, n: string, pending: bool, at: nat) {
    k <= |f.lines| && forall b :: 0 <= b < k && Survives(f.lines, b, k, n) ==> pending && b == at
  }

  ghost predicate AllOpen(f: Source, k: nat, pkgs: seq<Option<string>>, slot: int, at: nat) {
    forall i :: 0 <= i < |pkgs| && pkgs[i].Some? ==> Open(f, k, pkgs[i].value, i == slot, at)
  }

  // ----- How it goes on holding -----

  lemma SettledStays(f: Source, k: nat, asked: seq<string>, ats: seq<nat>)
    requires k < |f.lines| && AllSettled(f, k, asked, ats)
    ensures AllSettled(f, k + 1, asked, ats)
  {
    forall j | 0 <= j < |asked| ensures Settled(f, k + 1, ats[j], asked[j]) {
      NextNameGrows(f.lines, ats[j] + 1, k);
      NoneBeforeStays(f, k, ats[j], asked[j]);
    }
  }

  lemma NoneBeforeStays(f: Source, k: nat, at: nat, n: string)
    requires k < |f.lines| && at <= k && NoneBefore(f, k, at, n)
    ensures NoneBefore(f, k + 1, at, n)
  {
    var m := k + 1;
    forall b | 0 <= b < at ensures !Survives(f.lines, b, m, n) { SurvivalStep(f.lines, b, k, n); }
  }

  /** A pending stanza settles when the next package named is another one. */
  lemma PendingSettles(f: Source, k: nat, n: string, at: nat, p: string)
    requires k < |f.lines| && f.lines[k] == Field(Pkg, p) && p != n
    requires EndsStanza(f, k, at, n) && NextName(f.lines, at + 1, k) == None && Open(f, k, n, true, at)
    ensures Settled(f, k + 1, at, n)
  {
    NextNameGrows(f.lines, at + 1, k);
    assert NoneBefore(f, k, at, n);
    NoneBeforeStays(f, k, at, n);
  }

  /** The pending stanza's name is the last package named. */
  lemma PendingIsLatest(f: Source, k: nat, at: nat, n: string)
    requires EndsStanza(f, k, at, n) && n != "" && NextName(f.lines, at + 1, k) == None
    ensures Latest(f.lines, k, Pkg, "") == n
  {
    CurrentIsLatest(f.lines, at);
    NothingCurrent(f.lines, at, k);
  }

  /** After a package line nothing is pending: what was has been printed, or the same name came again. */
  lemma OpenAfterPackage(f: Source, k: nat, n: string, pending: bool, at: nat)
    requires k < |f.lines| && NamesPackage(f.lines[k]) && Open(f, k, n, pending, at)
    requires pending ==> f.lines[k].text == n && NextName(f.lines, at + 1, k) == None && at < k
    ensures Open(f, k + 1, n, false, 0)
  {
    var m := k + 1;
    forall b | 0 <= b < m && Survives(f.lines, b, m, n) ensures false {
      SurvivalStep(f.lines, b, k, n);
    }
  }

  lemma OpenAfterField(f: Source, k: nat, n: string, pending: bool, at: nat)
    requires k < |f.lines| && !f.lines[k].Blank? && Open(f, k, n, pending, at)
    ensures Open(f, k + 1, n, pending, at)
  {
    var m := k + 1;
    forall b | 0 <= b < m && Survives(f.lines, b, m, n) ensures pending && b == at {
      SurvivalStep(f.lines, b, k, n);
    }
  }

  /** A blank line that ends no stanza of n. */
  lemma OpenAfterBlank(f: Source, k: nat, n: string, pending: bool, at: nat)
    requires k < |f.lines| && CurField(f.lines, k) != n && Open(f, k, n, pending, at)
    ensures Open(f, k + 1, n, pending, at)
  {
    var m := k + 1;
    forall b | 0 <= b < m && Survives(f.lines, b, m, n) ensures pending && b == at {
      SurvivalStep(f.lines, b, k, n);
    }
  }

  /** A blank line that ends one. */
  lemma OpenAfterHit(f: Source, k: nat, n: string)
    requires k < |f.lines| && Open(f, k, n, false, 0)
    ensures Open(f, k + 1, n, true, k)
  {
    var m := k + 1;
    forall b | 0 <= b < m && Survives(f.lines, b, m, n) ensures b == k {
      if b < k { SurvivalStep(f.lines, b, k, n); }
    }
  }

  // ----- The scan -----

  /** For each printed line the name it answers and its blank line, and the blank line of the pending output. */
  datatype Trace = Trace(asked: seq<string>, ats: seq<nat>, at: nat)

  ghost predicate Inv(f: Source, names: seq<string>, k: nat, s: Scan, t: Trace) {
    && k <= |f.lines| && s.cur == CurrentAt(f, k) && s.prev == s.cur.pkg
    && SlotsOf(names, s.pkgs) && Shared(names, s.pkgs, t.asked)
    && PendingIs(f, k, s.pkgs, s.output, s.slot, t.at)
    && PrintedAre(f, k, s.printed, t.asked, t.ats)
  }

  ghost predicate Exact(f: Source, k: nat, s: Scan, t: Trace) {
    k <= |f.lines| && AllSettled(f, k, t.asked, t.ats) && AllOpen(f, k, s.pkgs, s.slot, t.at)
  }

  ghost function FlushedTrace(s: Scan, t: Trace): Trace
    requires s.output.Some? ==> 0 <= s.slot < |s.pkgs| && s.pkgs[s.slot].Some?
  {
    if s.output.None? then t else Trace(t.asked + [s.pkgs[s.slot].value], t.ats + [t.at], 0)
  }

  lemma SlotStruck(names: seq<string>, pkgs: seq<Option<string>>, i: nat, asked: seq<string>)
    requires i < |pkgs| && pkgs[i].Some? && SlotsOf(names, pkgs) && Shared(names, pkgs, asked)
    ensures SlotsOf(names, pkgs[i := None]) && Shared(names, pkgs[i := None], asked + [pkgs[i].value])
  {
    LiveLoses(pkgs, i);
    OneMoreAsked(asked, pkgs[i].value, Live(pkgs), Live(pkgs[i := None]));
  }

  lemma OneMoreAsked(asked: seq<string>, n: string, live: seq<string>, left: seq<string>)
    requires multiset(live) == multiset(left) + multiset{n}
    ensures multiset(asked + [n]) + multiset(left) == multiset(asked) + multiset(live)
  {
  }

  lemma FlushKeepsInv(f: Source, names: seq<string>, k: nat, s: Scan, t: Trace)
    requires Inv(f, names, k, s, t)
    ensures s.output.Some? ==> 0 <= s.slot < |s.pkgs| && s.pkgs[s.slot].Some?
    ensures Inv(f, names, k, Flushed(s), FlushedTrace(s, t))
  {
    if s.output.Some? { SlotStruck(names, s.pkgs, s.slot, t.asked); }
  }

  ghost function AfterPackageTrace(s: Scan, t: Trace, p: string): Trace
    requires s.output.Some? ==> 0 <= s.slot < |s.pkgs| && s.pkgs[s.slot].Some?
  {
    if p != s.prev then FlushedTrace(s, t) else t
  }

  lemma PackageKeepsInv(f: Source, names: seq<string>, k: nat, s: Scan, t: Trace, p: string)
    requires Inv(f, names, k, s, t) && k < |f.lines| && f.lines[k] == Field(Pkg, p)
    ensures s.output.Some? ==> 0 <= s.slot < |s.pkgs| && s.pkgs[s.slot].Some?
    ensures Inv(f, names, k + 1, AfterPackage(s, p), AfterPackageTrace(s, t, p))
  {
    FlushKeepsInv(f, names, k, s, t);
    PackageIsCurrent(f, k, p);
    if p != s.prev {
      PrintedStay(f, k, Flushed(s).printed, FlushedTrace(s, t).asked, FlushedTrace(s, t).ats);
    } else {
      PrintedStay(f, k, s.printed, t.asked, t.ats);
    }
  }

  lemma PrintedStay(f: Source, k: nat, printed: seq<Out>, asked: seq<string>, ats: seq<nat>)
    requires PrintedAre(f, k, printed, asked, ats) && k < |f.lines|
    ensures PrintedAre(f, k + 1, printed, asked, ats)
  {
  }

  lemma PackageIsCurrent(f: Source, k: nat, p: string)
    requires k < |f.lines| && f.lines[k] == Field(Pkg, p)
    ensures CurrentAt(f, k).(field := p, pkg := p) == CurrentAt(f, k + 1)
  {
  }

  lemma PackageKeepsExact(f: Source, names: seq<string>, k: nat, s: Scan, t: Trace, p: string)
    requires Inv(f, names, k, s, t) && k < |f.lines| && f.lines[k] == Field(Pkg, p)
    requires Plain(names) && Exact(f, k, s, t)
    ensures s.output.Some? ==> 0 <= s.slot < |s.pkgs| && s.pkgs[s.slot].Some?
    ensures Exact(f, k + 1, AfterPackage(s, p), AfterPackageTrace(s, t, p))
  {
    SettledStays(f, k, t.asked, t.ats);
    if s.slot != -1 {
      var n := s.pkgs[s.slot].value;
      assert names[s.slot] in names;
      PendingIsLatest(f, k, t.at, n);
      if p != s.prev { PendingSettles(f, k, n, t.at, p); }
    }
    var s' := AfterPackage(s, p);
    forall i | 0 <= i < |s'.pkgs| && s'.pkgs[i].Some? ensures Open(f, k + 1, s'.pkgs[i].value, i == -1, 0) {
      OpenAfterPackage(f, k, s.pkgs[i].value, i == s.slot, t.at);
    }
  }

  lemma FieldIsCurrent(f: Source, k: nat)
    requires k < |f.lines| && !NamesPackage(f.lines[k]) && !f.lines[k].Blank?
    ensures WithField(CurrentAt(f, k), f.lines[k]) == CurrentAt(f, k + 1)
    ensures CurrentAt(f, k + 1).pkg == CurrentAt(f, k).pkg
  {
  }

  lemma OtherKeepsInv(f: Source, names: seq<string>, k: nat, s: Scan, t: Trace)
    requires Inv(f, names, k, s, t) && k < |f.lines| && !NamesPackage(f.lines[k]) && !f.lines[k].Blank?
    ensures Inv(f, names, k + 1, AfterOther(s, f.lines[k]), t)
  {
    FieldIsCurrent(f, k);
    if s.slot != -1 { NextNameGrows(f.lines, t.at + 1, k); }
  }

  lemma OtherKeepsExact(f: Source, k: nat, s: Scan, t: Trace)
    requires k < |f.lines| && !NamesPackage(f.lines[k]) && !f.lines[k].Blank? && Exact(f, k, s, t)
    ensures Exact(f, k + 1, AfterOther(s, f.lines[k]), t)
  {
    SettledStays(f, k, t.asked, t.ats);
    forall i | 0 <= i < |s.pkgs| && s.pkgs[i].Some? ensures Open(f, k + 1, s.pkgs[i].value, i == s.slot, t.at) {
      OpenAfterField(f, k, s.pkgs[i].value, i == s.slot, t.at);
    }
  }

  lemma BlankKeepsInv(f: Source, names: seq<string>, k: nat, s: Scan, t: Trace, i: int)
    requires Inv(f, names, k, s, t) && k < |f.lines| && f.lines[k].Blank? && IsFirstSlot(s.pkgs, s.cur.field, i)
    ensures Inv(f, names, k + 1, AfterBlank(s, i, f.mirror), if i == -1 then t else t.(at := k))
  {
    assert AfterBlank(s, i, f.mirror).cur == CurrentAt(f, k + 1);
    if s.slot != -1 { NextNameGrows(f.lines, t.at + 1, k); }
  }

  lemma BlankKeepsExact(f: Source, names: seq<string>, k: nat, s: Scan, t: Trace, i: int)
    requires Inv(f, names, k, s, t) && k < |f.lines| && f.lines[k].Blank? && IsFirstSlot(s.pkgs, s.cur.field, i)
    requires Plain(names) && Exact(f, k, s, t)
    ensures Exact(f, k + 1, AfterBlank(s, i, f.mirror), if i == -1 then t else t.(at := k))
  {
    SettledStays(f, k, t.asked, t.ats);
    if s.slot != -1 { NothingCurrent(f.lines, t.at, k); }
    var at := if i == -1 then t.at else k;
    var slot := if i == -1 then s.slot else i;
    if i != -1 { assert names[i] in names; }
    assert i != -1 ==> s.slot == -1;
    forall j | 0 <= j < |s.pkgs| && s.pkgs[j].Some? ensures Open(f, k + 1, s.pkgs[j].value, j == slot, at) {
      if j == i {
        OpenAfterHit(f, k, s.pkgs[j].value);
      } else {
        assert s.pkgs[j] in s.pkgs;
        OpenAfterBlank(f, k, s.pkgs[j].value, j == s.slot, t.at);
      }
    }
  }

  // ----- The end of a pass -----

  lemma NeverSurvives(lines: seq<Line>, b: nat, k: nat, n: string)
    requires b < k <= |lines| && !Survives(lines, b, k, n)
    ensures !Survives(lines, b, |lines|, n)
  {
    if lines[b].Blank? && CurField(lines, b) == n { NamedStays(lines, b + 1, k, |lines|); }
  }

  lemma SettledIsAnswer(f: Source, k: nat, at: nat, n: string)
    requires Settled(f, k, at, n)
    ensures Answer(f, n) == DetailsAt(f, at)
  {
    NamedStays(f.lines, at + 1, k, |f.lines|);
    var m := |f.lines|;
    forall b | 0 <= b < at ensures !Survives(f.lines, b, m, n) { NeverSurvives(f.lines, b, k, n); }
    FirstSurvivorIs(f.lines, 0, at, n);
  }

  lemma PendingIsAnswer(f: Source, at: nat, n: string)
    requires EndsStanza(f, |f.lines|, at, n) && NextName(f.lines, at + 1, |f.lines|) == None
              && Open(f, |f.lines|, n, true, at)
    ensures Answer(f, n) == DetailsAt(f, at)
  {
    FirstSurvivorIs(f.lines, 0, at, n);
  }

  lemma OpenIsMissing(f: Source, n: string)
    requires Open(f, |f.lines|, n, false, 0)
    ensures Answer(f, n) == Missing(n)
  {
    NoSurvivor(f.lines, 0, n);
  }

  /** An output line for n: "n -", or the details of a stanza of n. */
  ghost predicate IsLineFor(f: Source, out: Out, n: string) {
    out == Missing(n) || exists b :: EndsStanza(f, |f.lines|, b, n) && out == DetailsAt(f, b)
  }

  /** The printed lines, one for each name asked; each the one it is to get when the names are plain. */
  ghost predicate Answered(f: Source, printed: seq<Out>, asked: seq<string>, plain: bool) {
    && |printed| == |asked|
    && (forall j :: 0 <= j < |printed| ==> IsLineFor(f, printed[j], asked[j]))
    && (plain ==> forall j :: 0 <= j < |printed| ==> printed[j] == Answer(f, asked[j]))
  }

  /** Exactly one line printed for each name, in some order. */
  ghost predicate OneEach(f: Source, printed: seq<Out>, names: seq<string>, plain: bool) {
    exists asked: seq<string> :: multiset(asked) == multiset(names) && Answered(f, printed, asked, plain)
  }

  lemma OneEachJoin(f: Source, p: seq<Out>, a: seq<string>, q: seq<Out>, b: seq<string>, plain: bool)
    requires OneEach(f, p, a, plain) && OneEach(f, q, b, plain)
    ensures OneEach(f, p + q, a + b, plain)
  {
    var x :| multiset(x) == multiset(a) && Answered(f, p, x, plain);
    var y :| multiset(y) == multiset(b) && Answered(f, q, y, plain);
    AnsweredJoin(f, p, x, q, y, plain);
    assert multiset(x + y) == multiset(a + b);
  }

  /** What all names are to get. */
  ghost function Answers(f: Source, names: seq<string>): seq<Out> {
    if names == [] then [] else [Answer(f, names[0])] + Answers(f, names[1..])
  }

  lemma {:induction false} AnswersWithout(f: Source, names: seq<string>, i: nat)
    requires i < |names|
    ensures multiset(Answers(f, names))
         == multiset(Answers(f, names[..i] + names[i + 1..])) + multiset{Answer(f, names[i])}
    decreases |names|
  {
    var rest := names[..i] + names[i + 1..];
    if i == 0 {
      assert rest == names[1..];
    } else {
      AnswersWithout(f, names[1..], i - 1);
      assert names[1..][..i - 1] + names[1..][i..] == rest[1..];
      assert rest[0] == names[0];
    }
  }

  lemma WithoutOne<T>(s: seq<T>, i: nat)
    requires i < |s|
    ensures multiset(s) == multiset(s[..i] + s[i + 1..]) + multiset{s[i]}
  {
    assert s == s[..i] + ([s[i]] + s[i + 1..]);
  }

  /** Where the first of a stands in b, its permutation: without it the rests are permutations. */
  lemma PlaceIn<T>(a: seq<T>, b: seq<T>) returns (i: nat)
    requires a != [] && multiset(a) == multiset(b)
    ensures i < |b| && b[i] == a[0] && multiset(a[1..]) == multiset(b[..i] + b[i + 1..])
  {
    WithoutOne(a, 0);
    assert a[..0] + a[1..] == a[1..];
    assert a[0] in multiset(b) && a[0] in b;
    i :| 0 <= i < |b| && b[i] == a[0];
    WithoutOne(b, i);
    assert multiset(a[1..]) == multiset(a) - multiset{a[0]};
  }

  /** The same names in another order get the same lines in another order. */
  lemma {:induction false} AnswersPermute(f: Source, a: seq<string>, b: seq<string>)
    requires multiset(a) == multiset(b)
    ensures multiset(Answers(f, a)) == multiset(Answers(f, b))
    decreases |a|
  {
    if a == [] {
      assert |multiset(b)| == 0;
    } else {
      var i := PlaceIn(a, b);
      AnswersPermute(f, a[1..], b[..i] + b[i + 1..]);
      AnswersWithout(f, b, i);
    }
  }

  lemma {:induction false} AnsweredAre(f: Source, printed: seq<Out>, asked: seq<string>)
    requires |printed| == |asked| && forall j :: 0 <= j < |printed| ==> printed[j] == Answer(f, asked[j])
    ensures printed == Answers(f, asked)
    decreases |asked|
  {
    if asked != [] {
      AnsweredAre(f, printed[1..], asked[1..]);
      assert printed == [printed[0]] + printed[1..];
    }
  }

  /** For plain names the output is a permutation of what the names are to get. */
  lemma OneEachIsAnswers(f: Source, printed: seq<Out>, names: seq<string>)
    requires OneEach(f, printed, names, true)
    ensures multiset(printed) == multiset(Answers(f, names)) && |printed| == |names|
  {
    var asked :| multiset(asked) == multiset(names) && Answered(f, printed, asked, true);
    AnsweredAre(f, printed, asked);
    AnswersPermute(f, asked, names);
    assert |multiset(asked)| == |multiset(names)|;
  }

  /** The details of a stanza of a non-empty name carry that name. */
  lemma DetailsNameThePackage(f: Source, out: Out, n: string)
    requires IsLineFor(f, out, n) && n != ""
    ensures out.Missing? || out.pkg == n
  {
    if out.Details? {
      var b :| EndsStanza(f, |f.lines|, b, n) && out == DetailsAt(f, b);
      CurrentIsLatest(f.lines, b);
    }
  }

  lemma FlushedAnswers(f: Source, names: seq<string>, k: nat, s: Scan, t: Trace)
    requires Inv(f, names, k, s, t) && (Plain(names) ==> Exact(f, k, s, t))
    requires k == |f.lines| || forall i :: 0 <= i < |s.pkgs| ==> s.pkgs[i].None?
    ensures s.output.Some? ==> 0 <= s.slot < |s.pkgs| && s.pkgs[s.slot].Some?
    ensures Answered(f, Flushed(s).printed, FlushedTrace(s, t).asked, Plain(names))
    ensures Plain(names) ==> forall i :: 0 <= i < |s.pkgs| && Flushed(s).pkgs[i].Some? ==>
              Answer(f, names[i]) == Missing(names[i])
  {
    forall j | 0 <= j < |t.asked|
      ensures IsLineFor(f, s.printed[j], t.asked[j]) && (Plain(names) ==> s.printed[j] == Answer(f, t.asked[j]))
    {
      assert EndsStanza(f, |f.lines|, t.ats[j], t.asked[j]);
      if Plain(names) { SettledIsAnswer(f, k, t.ats[j], t.asked[j]); }
    }
    if s.output.Some? {
      var n := s.pkgs[s.slot].value;
      assert EndsStanza(f, |f.lines|, t.at, n);
      if Plain(names) { PendingIsAnswer(f, t.at, n); }
    }
    if Plain(names) {
      forall i | 0 <= i < |s.pkgs| && Flushed(s).pkgs[i].Some? ensures Answer(f, names[i]) == Missing(names[i]) {
        OpenIsMissing(f, names[i]);
      }
    }
  }

  // ----- A whole pass -----

  lemma StartHolds(f: Source, names: seq<string>)
    ensures Inv(f, names, 0, Start(f, names), Trace([], [], 0)) && Exact(f, 0, Start(f, names), Trace([], [], 0))
  {
    LiveOfAll(names, Start(f, names).pkgs);
  }

  /** One line that does not end the pass. */
  lemma LineKeeps(f: Source, names: seq<string>, k: nat, s: Scan, t: Trace) returns (t': Trace)
    requires Inv(f, names, k, s, t) && (Plain(names) ==> Exact(f, k, s, t)) && k < |f.lines|
    ensures InRange(s) && Inv(f, names, k + 1, AfterLine(s, f.lines[k], f.mirror), t')
    ensures Plain(names) ==> Exact(f, k + 1, AfterLine(s, f.lines[k], f.mirror), t')
  {
    var l := f.lines[k];
    t' := t;
    if NamesPackage(l) {
      PackageKeepsInv(f, names, k, s, t, l.text);
      if Plain(names) { PackageKeepsExact(f, names, k, s, t, l.text); }
      t' := AfterPackageTrace(s, t, l.text);
    } else if l.Blank? {
      var i := FirstSlot(s.pkgs, s.cur.field);
      BlankKeepsInv(f, names, k, s, t, i);
      if Plain(names) { BlankKeepsExact(f, names, k, s, t, i); }
      t' := if i == -1 then t else t.(at := k);
    } else {
      OtherKeepsInv(f, names, k, s, t);
      if Plain(names) { OtherKeepsExact(f, k, s, t); }
    }
  }

  lemma {:induction false} RanKeeps(f: Source, names: seq<string>, k: nat, s: Scan, t: Trace, end: Scan)
    returns (k': nat, t': Trace)
    requires Inv(f, names, k, s, t) && (Plain(names) ==> Exact(f, k, s, t)) && InRange(s) && end == Ran(f, s, k)
    ensures Inv(f, names, k', end, t') && (Plain(names) ==> Exact(f, k', end, t'))
    ensures k' == |f.lines| || Exhausted(end)
    decreases |f.lines| - k
  {
    if k == |f.lines| || (f.lines[k].Blank? && Exhausted(s)) {
      k', t' := k, t;
    } else {
      t' := LineKeeps(f, names, k, s, t);
      k', t' := RanKeeps(f, names, k + 1, AfterLine(s, f.lines[k], f.mirror), t', end);
    }
  }

  lemma {:induction false} LiveMembers(pkgs: seq<Option<string>>, n: string)
    ensures n in Live(pkgs) <==> Some(n) in pkgs
  {
    if pkgs != [] {
      LiveMembers(pkgs[1..], n);
      assert pkgs == [pkgs[0]] + pkgs[1..];
    }
  }

  lemma AnsweredJoin(f: Source, p: seq<Out>, a: seq<string>, q: seq<Out>, b: seq<string>, plain: bool)
    requires Answered(f, p, a, plain) && Answered(f, q, b, plain)
    ensures Answered(f, p + q, a + b, plain)
  {
  }

  lemma AnsweredMissing(f: Source, printed: seq<Out>, asked: seq<string>, names: seq<string>, plain: bool)
    requires Answered(f, printed, asked, plain)
    requires plain ==> forall n :: n in names ==> Answer(f, n) == Missing(n)
    ensures Answered(f, printed + MissingLines(names), asked + names, plain)
  {
    assert Answered(f, MissingLines(names), names, plain);
    AnsweredJoin(f, printed, asked, MissingLines(names), names, plain);
  }

  /** Over any file a pass prints exactly one line for each name, and the one it is to get when the names are plain. */
  lemma PassIsOneEach(f: Source, names: seq<string>)
    ensures OneEach(f, Pass(f, names), names, Plain(names))
  {
    StartHolds(f, names);
    var s := Ran(f, Start(f, names), 0);
    var k, t := RanKeeps(f, names, 0, Start(f, names), Trace([], [], 0), s);
    EndIsOneEach(f, names, k, s, t);
  }

  lemma EndIsOneEach(f: Source, names: seq<string>, k: nat, s: Scan, t: Trace)
    requires Inv(f, names, k, s, t) && (Plain(names) ==> Exact(f, k, s, t)) && InRange(s)
    requires k == |f.lines| || Exhausted(s)
    ensures OneEach(f, Ended(s), names, Plain(names))
  {
    FlushKeepsInv(f, names, k, s, t);
    FlushedAnswers(f, names, k, s, t);
    var asked, left := FlushedTrace(s, t).asked, Flushed(s).pkgs;
    forall n | Plain(names) && n in Live(left) ensures Answer(f, n) == Missing(n) {
      LiveMembers(left, n);
      var i :| 0 <= i < |left| && left[i] == Some(n);
      assert left[i] == Some(names[i]);
    }
    AnsweredMissing(f, Flushed(s).printed, asked, Live(left), Plain(names));
    assert multiset(asked + Live(left)) == multiset(names);
  }
}
