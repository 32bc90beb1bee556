// Exactly when a run in the PKGS mode of pkgdetails.c gives every name what it is to get, with the files on which it
// does not.
module PkgExactness {
  import opened Wrappers
  import opened PkgDetails
  import opened PkgAnswers

  /** Distinct non-empty names within each hundred; a name may come again in another hundred. */
  ghost predicate PlainHundreds(args: seq<string>) {
    if |args| > MAX_PKGS then Plain(args[..MAX_PKGS]) && PlainHundreds(args[MAX_PKGS..]) else Plain(args)
  }

  // ----- Plain hundreds get their answers -----

  lemma PlainMatters(f: Source, p: seq<Out>, names: seq<string>, plain: bool, less: bool)
    requires OneEach(f, p, names, plain) && (less ==> plain)
    ensures OneEach(f, p, names, less)
  {
    var asked :| multiset(asked) == multiset(names) && Answered(f, p, asked, plain);
    assert Answered(f, p, asked, less);
  }

  /** Over any file a run prints exactly one line for each argument, and the one it is to get when the
      hundreds are plain. */
  lemma {:induction false} PassAllIsOneEach(f: Source, args: seq<string>)
    ensures OneEach(f, PassAll(f, args), args, PlainHundreds(args))
    decreases |args|
  {
    if |args| > MAX_PKGS {
      var first, rest := args[..MAX_PKGS], args[MAX_PKGS..];
      PassIsOneEach(f, first);
      PassAllIsOneEach(f, rest);
      PlainMatters(f, Pass(f, first), first, Plain(first), PlainHundreds(args));
      PlainMatters(f, PassAll(f, rest), rest, PlainHundreds(rest), PlainHundreds(args));
      OneEachJoin(f, Pass(f, first), first, PassAll(f, rest), rest, PlainHundreds(args));
      assert first + rest == args;
    } else {
      PassIsOneEach(f, args);
    }
  }

  // ----- Two files that tell -----

  /** A stanza of a, ended. */
  function OneStanza(a: string): Source { Source([Field(Pkg, a), Blank], "", "", "") }

  /** A stanza of no package, and another one with a version. */
  function NamelessStanzas(): Source { Source([Blank, Field(Ver, "1"), Blank], "", "", "") }

  lemma RanStep(f: Source, s: Scan, k: nat)
    requires k < |f.lines| && InRange(s) && !(f.lines[k].Blank? && Exhausted(s))
    ensures Ran(f, s, k) == Ran(f, AfterLine(s, f.lines[k], f.mirror), k + 1)
  {
  }

  lemma RanEnd(f: Source, s: Scan)
    requires InRange(s)
    ensures Ran(f, s, |f.lines|) == s
  {
  }

  lemma NotExhausted(f: Source, names: seq<string>, s: Scan)
    requires names != [] && s.pkgs == Start(f, names).pkgs
    ensures !Exhausted(s)
  {
    assert s.pkgs[0] == Some(names[0]);
  }

  /** The pass over one stanza of a: its details become pending for the first slot that asks for a. */
  lemma PassOverStanza(a: string, names: seq<string>)
    requires a != "" && names != []
    ensures var f := OneStanza(a);
            var s := Start(f, names);
            var i := FirstSlot(s.pkgs, a);
            var after := AfterBlank(AfterPackage(s, a), i, "");
            InRange(after) && Pass(f, names) == Ended(after)
  {
    var f := OneStanza(a);
    var s := Start(f, names);
    RanStep(f, s, 0);
    var s1 := AfterPackage(s, a);
    NotExhausted(f, names, s1);
    RanStep(f, s1, 1);
    RanEnd(f, AfterBlank(s1, FirstSlot(s.pkgs, a), ""));
  }

  /** The second of two slots that ask for a gets nothing. */
  lemma RepeatedNameMissed(a: string, names: seq<string>, p: nat, q: nat)
    requires a != "" && p < q < |names| && names[p] == a && names[q] == a
    ensures Missing(a) in Pass(OneStanza(a), names)
  {
    var f := OneStanza(a);
    var s := Start(f, names);
    var i := FirstSlot(s.pkgs, a);
    PassOverStanza(a, names);
    var after := AfterBlank(AfterPackage(s, a), i, "");
    assert s.pkgs[p] == Some(a) && s.pkgs[p] in s.pkgs;
    assert i <= p;
    var left := Flushed(after).pkgs;
    assert left == s.pkgs[i := None] && left[q] == Some(a) && left[q] in left;
    LiveMembers(left, a);
    var j :| 0 <= j < |Live(left)| && Live(left)[j] == a;
    assert MissingLines(Live(left))[j] == Missing(a);
  }

  lemma StanzaAnswers(a: string)
    requires a != ""
    ensures Answer(OneStanza(a), a) == DetailsAt(OneStanza(a), 1)
  {
    var f := OneStanza(a);
    assert CurField(f.lines, 1) == a && NextName(f.lines, 2, 2) == None;
    assert Survives(f.lines, 1, 2, a);
    FirstSurvivorIs(f.lines, 0, 1, a);
  }

  /** A pass that has only details pending prints no others. */
  lemma OnlyPending(s: Scan, out: Out)
    requires InRange(s) && s.printed == [] && s.output != Some(out) && out.Details?
    ensures out !in Ended(s)
  {
  }

  /** The pass over the nameless stanzas never prints the details of the first. */
  lemma NamelessOverwritten(names: seq<string>)
    ensures DetailsAt(NamelessStanzas(), 0) !in Pass(NamelessStanzas(), names)
  {
    var f := NamelessStanzas();
    var s := Start(f, names);
    var end := s;
    if names == [] {
      RanStops(f, s);
    } else {
      var i := FirstSlot(s.pkgs, "");
      NotExhausted(f, names, s);
      RanStep(f, s, 0);
      var s1 := AfterBlank(s, i, "");
      RanStep(f, s1, 1);
      var s2 := AfterOther(s1, Field(Ver, "1"));
      NotExhausted(f, names, s2);
      RanStep(f, s2, 2);
      end := AfterBlank(s2, i, "");
      RanEnd(f, end);
      assert s2.cur.ver == "1";
    }
    assert DetailsAt(f, 0).ver == "";
    OnlyPending(end, DetailsAt(f, 0));
  }

  lemma RanStops(f: Source, s: Scan)
    requires f.lines != [] && f.lines[0].Blank? && InRange(s) && Exhausted(s)
    ensures Ran(f, s, 0) == s
  {
  }

  lemma NamelessAnswer()
    ensures Answer(NamelessStanzas(), "") == DetailsAt(NamelessStanzas(), 0)
  {
    var f := NamelessStanzas();
    assert NextName(f.lines, 3, 3) == None && NextName(f.lines, 2, 3) == None && NextName(f.lines, 1, 3) == None;
    assert Survives(f.lines, 0, 3, "");
    FirstSurvivorIs(f.lines, 0, 0, "");
  }

  // ----- Exactly the plain hundreds -----

  /** The output is a permutation of what the arguments are to get. */
  ghost predicate GivesAnswers(f: Source, args: seq<string>) {
    multiset(PassAll(f, args)) == multiset(Answers(f, args))
  }

  /** Some hundred holds the empty name or a name twice. */
  lemma {:induction false} WhyNotPlain(args: seq<string>) returns (a: string)
    requires !PlainHundreds(args)
    ensures a in args
    ensures a != "" ==> forall f :: f == OneStanza(a) ==> Missing(a) in PassAll(f, args)
    decreases |args|
  {
    var first := if |args| > MAX_PKGS then args[..MAX_PKGS] else args;
    if !Plain(first) {
      if "" in first {
        a := "";
      } else {
        var p: nat, q: nat :| p < q < |first| && first[p] == first[q];
        a := first[p];
        assert first[p] in first;
        RepeatedNameMissed(a, first, p, q);
      }
    } else {
      a := WhyNotPlain(args[MAX_PKGS..]);
    }
  }

  lemma {:induction false} NamelessNeverPrinted(args: seq<string>)
    ensures DetailsAt(NamelessStanzas(), 0) !in PassAll(NamelessStanzas(), args)
    decreases |args|
  {
    if |args| > MAX_PKGS {
      NamelessOverwritten(args[..MAX_PKGS]);
      NamelessNeverPrinted(args[MAX_PKGS..]);
    } else {
      NamelessOverwritten(args);
    }
  }

  lemma {:induction false} AnswersMembers(f: Source, args: seq<string>, out: Out)
    ensures out in Answers(f, args) <==> exists n :: n in args && out == Answer(f, n)
    decreases |args|
  {
    if args != [] {
      AnswersMembers(f, args[1..], out);
      assert args == [args[0]] + args[1..];
    }
  }

  /** No name is to get "a -" on a file with a stanza of a. */
  lemma NobodyMissesStanza(a: string, args: seq<string>)
    requires a != ""
    ensures Missing(a) !in Answers(OneStanza(a), args)
  {
    var f := OneStanza(a);
    AnswersMembers(f, args, Missing(a));
    StanzaAnswers(a);
  }

  lemma DifferentMultisets(a: seq<Out>, b: seq<Out>, x: Out)
    requires (x in a) != (x in b)
    ensures multiset(a) != multiset(b)
  {
    assert x in multiset(a) <==> x in a;
    assert x in multiset(b) <==> x in b;
  }

  /** On every file every argument gets exactly what it is to get if and only if within each hundred the names are
      distinct and none is empty. */
  lemma OutputIsAnswersIff(args: seq<string>)
    ensures (forall f :: GivesAnswers(f, args)) <==> PlainHundreds(args)
  {
    if PlainHundreds(args) {
      forall f ensures GivesAnswers(f, args) {
        PassAllIsOneEach(f, args);
        OneEachIsAnswers(f, PassAll(f, args), args);
      }
    } else {
      var a := WhyNotPlain(args);
      if a == "" {
        var f := NamelessStanzas();
        NamelessNeverPrinted(args);
        NamelessAnswer();
        AnswersMembers(f, args, DetailsAt(f, 0));
        DifferentMultisets(PassAll(f, args), Answers(f, args), DetailsAt(f, 0));
        assert !GivesAnswers(f, args);
      } else {
        var f := OneStanza(a);
        NobodyMissesStanza(a, args);
        DifferentMultisets(PassAll(f, args), Answers(f, args), Missing(a));
        assert !GivesAnswers(f, args);
      }
    }
  }

  /** For one pass, of at most a hundred names. */
  lemma PassIsAnswersIff(names: seq<string>)
    requires |names| <= MAX_PKGS
    ensures (forall f :: GivesAnswers(f, names)) <==> Plain(names)
  {
    OutputIsAnswersIff(names);
  }

  // ----- Whose details are printed -----

  /** A stanza of x, and a stanza of no package. */
  function StanzaThenNothing(x: string): Source { Source([Field(Pkg, x), Blank, Blank], "", "", "") }

  /** Every details line names a requested package. */
  ghost predicate NamesRequested(f: Source, names: seq<string>) {
    forall out :: out in Pass(f, names) && out.Details? ==> out.pkg in names
  }

  lemma FreshName(names: seq<string>) returns (x: string)
    ensures x != "" && x !in names
  {
    var n := Longest(names);
    x := seq(n + 1, _ => 'x');
    assert |x| == n + 1;
  }

  lemma {:induction false} Longest(names: seq<string>) returns (n: nat)
    ensures forall a :: a in names ==> |a| <= n
    decreases |names|
  {
    n := 0;
    if names != [] {
      n := Longest(names[1..]);
      assert names == [names[0]] + names[1..];
      if n < |names[0]| { n := |names[0]|; }
    }
  }

  /** The pass over the stanza: nobody asked for x. */
  lemma StanzaPassedOver(x: string, names: seq<string>) returns (s: Scan)
    requires x != "" && x !in names && names != []
    ensures s == Start(StanzaThenNothing(x), names).(cur := Current("", x, "", "", "", "", ""), prev := x)
    ensures Pass(StanzaThenNothing(x), names) == Ended(Ran(StanzaThenNothing(x), s, 2))
  {
    var f := StanzaThenNothing(x);
    s := Start(f, names);
    assert forall i :: 0 <= i < |names| ==> s.pkgs[i] != Some(x);
    RanStep(f, s, 0);
    s := AfterPackage(s, x);
    NotExhausted(f, names, s);
    RanStep(f, s, 1);
    s := AfterBlank(s, -1, "");
  }

  /** The pass over them: the empty name gets the details of x, which nobody asked for. */
  lemma PassOverNothing(x: string, names: seq<string>)
    requires x != "" && x !in names && "" in names
    ensures exists out :: out in Pass(StanzaThenNothing(x), names) && out.Details? && out.pkg == x
  {
    var f := StanzaThenNothing(x);
    var s := StanzaPassedOver(x, names);
    var j :| 0 <= j < |names| && names[j] == "";
    assert s.pkgs[j] == Some("") && s.pkgs[j] in s.pkgs;
    NotExhausted(f, names, s);
    RanStep(f, s, 2);
    var end := AfterBlank(s, FirstSlot(s.pkgs, ""), "");
    RanEnd(f, end);
    assert end.output.value.pkg == x && Ended(end)[0] == end.output.value;
  }

  /** On every file each details line is of a requested package if and only if the empty name is not requested. */
  lemma DetailsAreRequestedIff(names: seq<string>)
    ensures (forall f :: NamesRequested(f, names)) <==> "" !in names
  {
    if "" in names {
      var x := FreshName(names);
      PassOverNothing(x, names);
      assert !NamesRequested(StanzaThenNothing(x), names);
    } else {
      forall f ensures NamesRequested(f, names) {
        PassNamesRequested(f, names);
      }
    }
  }

  lemma PassNamesRequested(f: Source, names: seq<string>)
    requires "" !in names
    ensures NamesRequested(f, names)
  {
    PassIsOneEach(f, names);
    var printed := Pass(f, names);
    var asked :| multiset(asked) == multiset(names) && Answered(f, printed, asked, Plain(names));
    forall out | out in printed && out.Details? ensures out.pkg in names {
      var j :| 0 <= j < |printed| && printed[j] == out;
      assert asked[j] in multiset(asked) && asked[j] in multiset(names) && asked[j] in names;
      DetailsNameThePackage(f, out, asked[j]);
    }
  }

  /** The empty name can also displace the pending output of another name: a has a stanza and still counts as
      missing. */
  lemma EmptyNameDisplacesOutput(a: string)
    requires a != ""
    ensures Pass(StanzaThenNothing(a), [a, ""]) == [DetailsAt(StanzaThenNothing(a), 2), Missing(a)]
    ensures Answer(StanzaThenNothing(a), a) == DetailsAt(StanzaThenNothing(a), 1)
  {
    var f, names := StanzaThenNothing(a), [a, ""];
    var s := Start(f, names);
    var pkgs := [Some(a), Some("")];
    assert s.pkgs == pkgs && pkgs[..1] == [Some(a)];
    RanStep(f, s, 0);
    var s1 := AfterPackage(s, a);
    NotExhausted(f, names, s1);
    FirstSlotIsOne(pkgs, a, FirstSlot(pkgs, a), 0);
    RanStep(f, s1, 1);
    var s2 := AfterBlank(s1, 0, "");
    NotExhausted(f, names, s2);
    FirstSlotIsOne(pkgs, "", FirstSlot(pkgs, ""), 1);
    RanStep(f, s2, 2);
    var s3 := AfterBlank(s2, 1, "");
    RanEnd(f, s3);
    SecondDetails(a);
    TwoSlotsLeft(f, s3, a);
    DisplacedAnswer(a);
  }

  lemma SecondDetails(x: string)
    ensures DetailsAt(StanzaThenNothing(x), 2) == Details(x, "", "", "", "", "", "")
  {
    var lines := StanzaThenNothing(x).lines;
    forall kind: Kind ensures Latest(lines, 2, kind, "") == if kind == Pkg then x else "" {
      assert Latest(lines, 1, kind, "") == if kind == Pkg then x else "";
    }
  }

  lemma TwoSlotsLeft(f: Source, s: Scan, a: string)
    requires 2 <= |f.lines| && s.output == Some(DetailsAt(f, 2))
    requires s.pkgs == [Some(a), Some("")] && s.slot == 1 && s.printed == []
    ensures Ended(s) == [DetailsAt(f, 2), Missing(a)]
  {
    var left: seq<Option<string>> := [Some(a), None];
    var none: seq<Option<string>> := [None];
    assert Flushed(s).pkgs == left;
    assert left[1..] == none && none[1..] == [] && Live(none) == [];
    assert Live(left) == [a];
    assert MissingLines([a]) == [Missing(a)];
  }

  lemma DisplacedAnswer(a: string)
    requires a != ""
    ensures Answer(StanzaThenNothing(a), a) == DetailsAt(StanzaThenNothing(a), 1)
  {
    var f := StanzaThenNothing(a);
    assert CurField(f.lines, 1) == a && NextName(f.lines, 3, 3) == None && NextName(f.lines, 2, 3) == None;
    assert Survives(f.lines, 1, 3, a);
    FirstSurvivorIs(f.lines, 0, 1, a);
  }
}
