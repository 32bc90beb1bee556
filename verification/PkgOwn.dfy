// When the details that pkgdetails.c prints for a package are those of its own stanza. The current-field buffers are
// cleared nowhere but for the requested field, so a field that a stanza lacks is taken from an earlier one, or from a
// buffer that was never written.
module PkgOwn {
  import opened Wrappers
  import opened PkgDetails
  import opened PkgAnswers
  import opened PkgExactness

  // ----- A stanza's own fields -----

  /** The text of the last line of a kind since the last blank line, before line k. */
  function OwnField(lines: seq<Line>, k: nat, kind: Kind): Option<string>
    requires k <= |lines|
  {
    if k == 0 || lines[k - 1].Blank? then None
    else if lines[k - 1].Field? && lines[k - 1].kind == kind then Some(lines[k - 1].text)
    else OwnField(lines, k - 1, kind)
  }

  /** The details of the stanza that ends at b, a field it lacks being empty. */
  function OwnDetailsAt(f: Source, b: nat): Out
    requires b <= |f.lines|
  {
    Details(OwnField(f.lines, b, Pkg).GetOr(""), OwnField(f.lines, b, Ver).GetOr(""),
            OwnField(f.lines, b, Arch).GetOr(""), f.mirror, OwnField(f.lines, b, File).GetOr(""),
            OwnField(f.lines, b, Sum).GetOr(""), OwnField(f.lines, b, Size).GetOr(""))
  }

  /** What a name ought to get: the details of its own stanza. */
  function OwnAnswer(f: Source, n: string): Out {
    match FirstSurvivor(f.lines, 0, n)
    case Some(b) => OwnDetailsAt(f, b)
    case None => Missing(n)
  }

  /** What a buffer holds before the first line. */
  function StartOf(f: Source, kind: Kind): string {
    match kind
    case Size => f.size0
    case Sum => f.checksum0
    case _ => ""
  }

  ghost predicate FieldIsOwn(f: Source, b: nat, kind: Kind)
    requires b <= |f.lines|
  {
    OwnField(f.lines, b, kind).Some? || Latest(f.lines, b, kind, StartOf(f, kind)) == ""
  }

  /** Every field that the stanza lacks is empty in the buffers too. */
  ghost predicate NothingCarried(f: Source, b: nat) {
    b <= |f.lines| && forall kind: Kind :: FieldIsOwn(f, b, kind)
  }

  lemma {:induction false} OwnIsLatest(lines: seq<Line>, k: nat, kind: Kind, start: string)
    requires k <= |lines|
    ensures OwnField(lines, k, kind).Some? ==> OwnField(lines, k, kind).value == Latest(lines, k, kind, start)
  {
    if k > 0 { OwnIsLatest(lines, k - 1, kind, start); }
  }

  lemma {:induction false} OwnPackageIsCurrent(lines: seq<Line>, k: nat)
    requires k <= |lines|
    ensures CurField(lines, k) == OwnField(lines, k, Pkg).GetOr("")
  {
    if k > 0 { OwnPackageIsCurrent(lines, k - 1); }
  }

  /** The details at a blank line are those of its own stanza exactly when nothing is carried over. */
  lemma OwnDetailsIff(f: Source, b: nat)
    requires b <= |f.lines|
    ensures DetailsAt(f, b) == OwnDetailsAt(f, b) <==> NothingCarried(f, b)
  {
    forall kind: Kind
      ensures FieldIsOwn(f, b, kind)
         <==> Latest(f.lines, b, kind, StartOf(f, kind)) == OwnField(f.lines, b, kind).GetOr("")
    {
      OwnIsLatest(f.lines, b, kind, StartOf(f, kind));
    }
    assert NothingCarried(f, b) <==> FieldIsOwn(f, b, Pkg) && FieldIsOwn(f, b, Ver) && FieldIsOwn(f, b, Arch)
                                     && FieldIsOwn(f, b, File) && FieldIsOwn(f, b, Sum) && FieldIsOwn(f, b, Size);
  }

  // ----- A whole run -----

  ghost function OwnAnswers(f: Source, names: seq<string>): seq<Out> {
    if names == [] then [] else [OwnAnswer(f, names[0])] + OwnAnswers(f, names[1..])
  }

  /** The output is a permutation of what the arguments ought to get. */
  ghost predicate GivesOwnAnswers(f: Source, args: seq<string>) {
    multiset(PassAll(f, args)) == multiset(OwnAnswers(f, args))
  }

  /** Nothing is carried into the stanza that answers n. */
  ghost predicate AnswerIsOwn(f: Source, n: string) {
    var b := FirstSurvivor(f.lines, 0, n);
    b.Some? ==> NothingCarried(f, b.value)
  }

  lemma AnswerIsOwnIff(f: Source, n: string)
    ensures Answer(f, n) == OwnAnswer(f, n) <==> AnswerIsOwn(f, n)
  {
    var b := FirstSurvivor(f.lines, 0, n);
    if b.Some? { OwnDetailsIff(f, b.value); }
  }

  lemma {:induction false} OwnAnswersMembers(f: Source, args: seq<string>, out: Out)
    ensures out in OwnAnswers(f, args) <==> exists n :: n in args && out == OwnAnswer(f, n)
    decreases |args|
  {
    if args != [] {
      OwnAnswersMembers(f, args[1..], out);
      assert args == [args[0]] + args[1..];
    }
  }

  lemma {:induction false} SameAnswers(f: Source, args: seq<string>)
    requires forall n :: n in args ==> Answer(f, n) == OwnAnswer(f, n)
    ensures Answers(f, args) == OwnAnswers(f, args)
    decreases |args|
  {
    if args != [] { SameAnswers(f, args[1..]); }
  }

  /** The name an output line is about. */
  function About(out: Out): string {
    match out
    case Details(pkg, _, _, _, _, _, _) => pkg
    case Missing(n) => n
  }

  lemma {:induction false} SurvivorHits(lines: seq<Line>, from: nat, n: string)
    ensures var b := FirstSurvivor(lines, from, n); b.Some? ==> Survives(lines, b.value, |lines|, n)
    decreases |lines| - from
  {
    if from < |lines| { SurvivorHits(lines, from + 1, n); }
  }

  lemma AnswersAreAbout(f: Source, n: string)
    requires n != ""
    ensures About(Answer(f, n)) == n && About(OwnAnswer(f, n)) == n
  {
    var b := FirstSurvivor(f.lines, 0, n);
    if b.Some? {
      SurvivorHits(f.lines, 0, n);
      CurrentIsLatest(f.lines, b.value);
      OwnPackageIsCurrent(f.lines, b.value);
    }
  }

  lemma {:induction false} PlainNonempty(args: seq<string>)
    requires PlainHundreds(args)
    ensures "" !in args
    decreases |args|
  {
    if |args| > MAX_PKGS {
      PlainNonempty(args[MAX_PKGS..]);
      assert args == args[..MAX_PKGS] + args[MAX_PKGS..];
    }
  }

  lemma ForeignAnswerShows(f: Source, args: seq<string>, n: string)
    requires PlainHundreds(args) && n in args && Answer(f, n) != OwnAnswer(f, n)
    ensures multiset(Answers(f, args)) != multiset(OwnAnswers(f, args))
  {
    PlainNonempty(args);
    AnswersMembers(f, args, Answer(f, n));
    OwnAnswersMembers(f, args, Answer(f, n));
    AnswersAreAbout(f, n);
    forall m | m in args ensures OwnAnswer(f, m) != Answer(f, n) { AnswersAreAbout(f, m); }
    DifferentMultisets(Answers(f, args), OwnAnswers(f, args), Answer(f, n));
  }

  /** On a file, plain arguments all get their own stanza's details exactly when nothing is carried into any of the
      stanzas that answer them. */
  lemma OutputIsOwnIff(f: Source, args: seq<string>)
    requires PlainHundreds(args)
    ensures GivesOwnAnswers(f, args) <==> forall n :: n in args ==> AnswerIsOwn(f, n)
  {
    OutputIsAnswersIff(args);
    assert GivesAnswers(f, args);
    forall n ensures Answer(f, n) == OwnAnswer(f, n) <==> AnswerIsOwn(f, n) { AnswerIsOwnIff(f, n); }
    if forall n :: n in args ==> AnswerIsOwn(f, n) {
      SameAnswers(f, args);
    } else {
      var n :| n in args && !AnswerIsOwn(f, n);
      ForeignAnswerShows(f, args, n);
    }
  }

  // ----- Whatever stands before the stanza -----

  /** The lines of one stanza of n, without the blank line that ends it. */
  ghost predicate IsStanzaOf(st: seq<Line>, n: string) {
    n != "" && (forall l :: l in st ==> !l.Blank?) && OwnField(st, |st|, Pkg) == Some(n)
  }

  /** The stanza holds its version, architecture, size, checksum and filename. */
  ghost predicate Complete(st: seq<Line>) {
    forall kind: Kind :: OwnField(st, |st|, kind).Some?
  }

  /** The file has the stanza last, ended, behind lines that end with a blank line and do not name n. */
  ghost predicate EndsWith(f: Source, before: seq<Line>, st: seq<Line>, n: string) {
    && f.lines == before + st + [Blank]
    && (before == [] || before[|before| - 1].Blank?)
    && forall l :: l in before ==> l != Field(Pkg, n)
  }

  /** The pass for n alone prints the details of the stanza itself, whatever stands before it. */
  ghost predicate AlwaysPrintsOwn(st: seq<Line>, n: string) {
    forall f, before :: EndsWith(f, before, st, n) ==> Pass(f, [n]) == [OwnDetailsAt(f, |before| + |st|)]
  }

  lemma {:induction false} OwnInPlace(lines: seq<Line>, before: seq<Line>, st: seq<Line>, k: nat, kind: Kind)
    requires k <= |st| && |before| + k <= |lines| && lines[..|before| + k] == before + st[..k]
    requires forall l :: l in st ==> !l.Blank?
    requires before == [] || before[|before| - 1].Blank?
    ensures OwnField(lines, |before| + k, kind) == OwnField(st, k, kind)
    ensures CurField(lines, |before| + k) == OwnField(st, k, Pkg).GetOr("")
    decreases k
  {
    if k > 0 {
      assert lines[|before| + k - 1] == (before + st[..k])[|before| + k - 1] == st[k - 1];
      assert st[k - 1] in st;
      assert lines[..|before| + (k - 1)] == lines[..|before| + k][..|before| + k - 1] == before + st[..k - 1];
      OwnInPlace(lines, before, st, k - 1, kind);
    } else if before != [] {
      assert lines[|before| - 1] == lines[..|before|][|before| - 1];
    }
  }

  /** A field the stanza lacks is still what it was before the stanza. */
  lemma {:induction false} CarriedInPlace(lines: seq<Line>, before: seq<Line>, st: seq<Line>, k: nat, b: nat,
                                          kind: Kind, start: string)
    requires k <= |st| && b == |before| + k <= |lines| && lines[..b] == before + st[..k]
    requires (forall l :: l in st ==> !l.Blank?) && OwnField(st, k, kind).None?
    ensures Latest(lines, b, kind, start) == Latest(lines, |before|, kind, start)
    decreases k
  {
    if k > 0 {
      assert lines[b - 1] == lines[..b][b - 1] == st[k - 1] && st[k - 1] in st;
      assert lines[..b - 1] == lines[..b][..b - 1] == before + st[..k - 1];
      CarriedInPlace(lines, before, st, k - 1, b - 1, kind, start);
    }
  }

  lemma {:induction false} CurrentWasNamed(lines: seq<Line>, k: nat)
    requires k <= |lines| && CurField(lines, k) != ""
    ensures exists i :: 0 <= i < k && lines[i] == Field(Pkg, CurField(lines, k))
  {
    if !NamesPackage(lines[k - 1]) { CurrentWasNamed(lines, k - 1); }
  }

  /** What the file looks like at the stanza's end. */
  lemma StanzaEnds(f: Source, before: seq<Line>, st: seq<Line>, n: string, kind: Kind)
    requires IsStanzaOf(st, n) && EndsWith(f, before, st, n)
    ensures var b := |before| + |st|;
            && b + 1 == |f.lines| && f.lines[b] == Blank && f.lines[..b] == before + st[..|st|]
            && CurField(f.lines, b) == n && OwnField(f.lines, b, kind) == OwnField(st, |st|, kind)
  {
    var b := |before| + |st|;
    assert st[..|st|] == st;
    assert f.lines[..b] == before + st;
    OwnInPlace(f.lines, before, st, |st|, kind);
  }

  /** The stanza is what answers n. */
  lemma StanzaAnswersName(f: Source, before: seq<Line>, st: seq<Line>, n: string)
    requires IsStanzaOf(st, n) && EndsWith(f, before, st, n)
    ensures FirstSurvivor(f.lines, 0, n) == Some(|before| + |st|)
  {
    var b := |before| + |st|;
    StanzaEnds(f, before, st, n, Pkg);
    assert NextName(f.lines, b + 1, b + 1) == None;
    assert forall i :: 0 <= i < |before| ==> f.lines[i] == before[i] && f.lines[i] in before;
    forall a: nat | a < b ensures !Survives(f.lines, a, |f.lines|, n) {
      if a >= |before| {
        assert f.lines[a] == f.lines[..b][a] == st[a - |before|] && st[a - |before|] in st;
      } else if CurField(f.lines, a) != "" {
        CurrentWasNamed(f.lines, a);
      }
    }
    FirstSurvivorIs(f.lines, 0, b, n);
  }

  lemma OnlyMember<T>(s: seq<T>, x: T)
    requires |s| == 1 && multiset(s) == multiset([x])
    ensures s == [x]
  {
    assert s == [s[0]] && s[0] in multiset([x]);
  }

  lemma SinglePass(f: Source, n: string)
    requires n != ""
    ensures Pass(f, [n]) == [Answer(f, n)]
  {
    PassIsOneEach(f, [n]);
    OneEachIsAnswers(f, Pass(f, [n]), [n]);
    assert [n][1..] == [];
    OnlyMember(Pass(f, [n]), Answer(f, n));
  }

  lemma StanzaPrinted(f: Source, before: seq<Line>, st: seq<Line>, n: string)
    requires IsStanzaOf(st, n) && EndsWith(f, before, st, n)
    ensures Pass(f, [n]) == [DetailsAt(f, |before| + |st|)]
  {
    StanzaAnswersName(f, before, st, n);
    SinglePass(f, n);
  }

  lemma CompleteIsOwn(f: Source, before: seq<Line>, st: seq<Line>, n: string)
    requires IsStanzaOf(st, n) && EndsWith(f, before, st, n) && Complete(st)
    ensures NothingCarried(f, |before| + |st|)
  {
    var b := |before| + |st|;
    forall kind: Kind ensures FieldIsOwn(f, b, kind) { StanzaEnds(f, before, st, n, kind); }
  }

  lemma CompletePrintsOwn(f: Source, before: seq<Line>, st: seq<Line>, n: string)
    requires IsStanzaOf(st, n) && EndsWith(f, before, st, n) && Complete(st)
    ensures Pass(f, [n]) == [OwnDetailsAt(f, |before| + |st|)]
  {
    StanzaPrinted(f, before, st, n);
    CompleteIsOwn(f, before, st, n);
    OwnDetailsIff(f, |before| + |st|);
  }

  /** The stanza that ends at b lacks the field, for which the buffer holds v. */
  ghost predicate HasForeign(f: Source, b: nat, kind: Kind, v: string) {
    b <= |f.lines| && OwnField(f.lines, b, kind).None? && Latest(f.lines, b, kind, StartOf(f, kind)) == v
  }

  lemma ForeignInPlace(f: Source, b: nat, before: seq<Line>, st: seq<Line>, kind: Kind, v: string)
    requires b == |before| + |st| <= |f.lines| && f.lines[..b] == before + st[..|st|]
    requires (forall l :: l in st ==> !l.Blank?) && OwnField(st, |st|, kind).None? && OwnField(f.lines, b, kind).None?
    requires Latest(f.lines, |before|, kind, StartOf(f, kind)) == v
    ensures HasForeign(f, b, kind, v)
  {
    CarriedInPlace(f.lines, before, st, |st|, b, kind, StartOf(f, kind));
  }

  /** A field the stanza lacks is the one of the stanza before it. */
  lemma IncompleteIsForeign(f: Source, b: nat, before: seq<Line>, st: seq<Line>, n: string, kind: Kind, v: string)
    requires b == |before| + |st| && IsStanzaOf(st, n) && EndsWith(f, before, st, n) && OwnField(st, |st|, kind).None?
    requires Latest(f.lines, |before|, kind, StartOf(f, kind)) == v
    ensures HasForeign(f, b, kind, v)
  {
    StanzaEnds(f, before, st, n, kind);
    ForeignInPlace(f, b, before, st, kind, v);
  }

  lemma ForeignDiffers(f: Source, b: nat, kind: Kind, v: string)
    requires HasForeign(f, b, kind, v) && v != ""
    ensures DetailsAt(f, b) != OwnDetailsAt(f, b)
  {
    assert !FieldIsOwn(f, b, kind);
    OwnDetailsIff(f, b);
  }

  /** A file in which the missing field is taken from another stanza. */
  lemma IncompleteFile(st: seq<Line>, n: string, kind: Kind) returns (f: Source, before: seq<Line>)
    requires IsStanzaOf(st, n) && OwnField(st, |st|, kind).None?
    ensures EndsWith(f, before, st, n) && HasForeign(f, |before| + |st|, kind, "1")
  {
    before := [Field(kind, "1"), Blank];
    f := Source(before + st + [Blank], "", "", "");
    assert f.lines[0] == before[0] && f.lines[1] == before[1];
    assert Latest(f.lines, 1, kind, "") == "1";
    assert EndsWith(f, before, st, n);
    IncompleteIsForeign(f, |before| + |st|, before, st, n, kind, "1");
  }

  lemma IncompletePrintsForeign(f: Source, before: seq<Line>, st: seq<Line>, n: string, kind: Kind)
    requires IsStanzaOf(st, n) && EndsWith(f, before, st, n) && HasForeign(f, |before| + |st|, kind, "1")
    ensures Pass(f, [n]) != [OwnDetailsAt(f, |before| + |st|)]
  {
    ForeignDiffers(f, |before| + |st|, kind, "1");
    StanzaPrinted(f, before, st, n);
  }

  /** Whatever stands before it, a stanza's own details are printed for its package exactly when it holds all
      the fields. */
  lemma AlwaysOwnIffComplete(st: seq<Line>, n: string)
    requires IsStanzaOf(st, n)
    ensures AlwaysPrintsOwn(st, n) <==> Complete(st)
  {
    if Complete(st) {
      forall f, before | EndsWith(f, before, st, n) ensures Pass(f, [n]) == [OwnDetailsAt(f, |before| + |st|)] {
        CompletePrintsOwn(f, before, st, n);
      }
    } else {
      var kind: Kind :| OwnField(st, |st|, kind).None?;
      var f, before := IncompleteFile(st, n, kind);
      IncompletePrintsForeign(f, before, st, n, kind);
    }
  }

  /** The failing input: of two stanzas, of a with a version and of b without, the second is printed with the
      first's. */
  lemma VersionCarriedOver(f: Source, a: string, b: string)
    requires b != "" && a != b && f.lines == [Field(Pkg, a), Field(Ver, "1"), Blank, Field(Pkg, b), Blank]
    ensures Pass(f, [b]) == [DetailsAt(f, 4)] && DetailsAt(f, 4).pkg == b
    ensures DetailsAt(f, 4).ver == "1" && OwnDetailsAt(f, 4).ver == ""
  {
    var before, st := [Field(Pkg, a), Field(Ver, "1"), Blank], [Field(Pkg, b)];
    assert f.lines == before + st + [Blank];
    assert OwnField(st, 1, Pkg) == Some(b) && OwnField(st, 0, Ver) == None && OwnField(st, 1, Ver) == None;
    assert Latest(f.lines, 2, Ver, "") == "1" && Latest(f.lines, 3, Ver, "") == "1";
    StanzaPrinted(f, before, st, b);
    IncompleteIsForeign(f, 4, before, st, b, Ver, "1");
  }
}
