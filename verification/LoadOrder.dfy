// The generator and the loader together: no module is inserted before the dependencies its dictionary leads to, and,
// exactly when the dictionary covers the modules that matter, none before the dependencies reported for it.
module LoadOrder {
  import opened Wrappers
  import opened ModuleGraph
  import opened LevelledFile
  import opened ParallelLoader
  import opened LoaderRuns

  /** In action i of the run, some worker starts insmod for line k. */
  ghost predicate StartsInsmod(tr: seq<State>, acts: seq<Action>, i: nat, k: nat) {
    && i < |acts| && i < |tr| && acts[i].Run?
    && acts[i].t < |tr[i].threads| && tr[i].threads[acts[i].t] == Forking(k)
  }

  /** For every dictionary, target list, built-in list and number of workers, in every run of the loader over
      the generated file: when the insmod of a module starts, every line that names a module it reaches in the
      dictionary, by one edge or many, has had its insmod exit and be reaped, and every such module that is a target
      and not built in has a line. */
  lemma DependenciesLoadFirst(targets: seq<Name>, d: Deps, limit: nat, builtin: Option<seq<Name>>, n: nat,
                              workers: nat, tr: seq<State>, acts: seq<Action>, i: nat, k: nat, x: Name)
    requires HeightsKnown(targets, d, limit) && IsMaxHeight(targets, Heights(d, limit), n)
    requires IsRun(Blocks(targets, Heights(d, limit), builtin, n), workers, tr, acts)
    requires StartsInsmod(tr, acts, i, k)
    ensures IsModuleLine(Blocks(targets, Heights(d, limit), builtin, n), k)
    ensures var lines := Blocks(targets, Heights(d, limit), builtin, n);
            Reaches(d, lines[k].name, x) ==>
              && (forall j: nat :: j < |lines| && lines[j] == Module(x) ==> j in tr[i].reaped)
              && (x in targets && !Builtin(builtin, x) ==> exists j: nat :: j < |lines| && lines[j] == Module(x))
  {
    var level, lines := Heights(d, limit), Blocks(targets, Heights(d, limit), builtin, n);
    RunKeepsInv(lines, workers, tr, acts, i);
    assert Carrier(tr[i], acts[i].t, k);
    var m := lines[k].name;
    LineLevelIsHeight(targets, level, builtin, n, k);
    if Reaches(d, m, x) {
      var p :| IsChain(d, p) && |p| >= 2 && p[0] == m && p[|p| - 1] == x;
      HeightsFallAlongChain(d, p, 0, |p| - 1, limit);
      forall j: nat | j < |lines| && lines[j] == Module(x) ensures j in tr[i].reaped {
        LineLevelIsHeight(targets, level, builtin, n, j);
        EarlierLevelsAreReaped(lines, tr[i], acts[i].t, k, j);
      }
      if x in targets && !Builtin(builtin, x) {
        TreeHeightPositive(x, d, limit);
        TargetsAreWritten(targets, level, builtin, n, x);
        var j :| 0 <= j < |lines| && lines[j] == Module(x);
      }
    }
  }

  /** A run that can only go on by spurious wake-ups has inserted every non-builtin target. */
  lemma EveryTargetIsLoaded(targets: seq<Name>, d: Deps, limit: nat, builtin: Option<seq<Name>>, n: nat,
                            workers: nat, tr: seq<State>, acts: seq<Action>, t: Name)
    requires HeightsKnown(targets, d, limit) && IsMaxHeight(targets, Heights(d, limit), n)
    requires IsRun(Blocks(targets, Heights(d, limit), builtin, n), workers, tr, acts) && workers >= 1
    requires forall a :: Enabled(Blocks(targets, Heights(d, limit), builtin, n), tr[|acts|], a) ==> a.Spurious?
    requires t in targets && !Builtin(builtin, t)
    ensures exists j: nat :: j in tr[|acts|].reaped && j < |Blocks(targets, Heights(d, limit), builtin, n)|
              && Blocks(targets, Heights(d, limit), builtin, n)[j] == Module(t)
    ensures tr[|acts|].curHeight == n
  {
    var level, lines := Heights(d, limit), Blocks(targets, Heights(d, limit), builtin, n);
    RunKeepsInv(lines, workers, tr, acts, |acts|);
    StuckMeansComplete(lines, tr[|acts|]);
    TreeHeightPositive(t, d, limit);
    TargetsAreWritten(targets, level, builtin, n, t);
    var j: nat :| j < |lines| && lines[j] == Module(t);
    assert IsModuleLine(lines, j);
    BlocksHeaders(targets, level, builtin, n);
  }

  // ----- The dependencies the commands report -----

  ghost predicate IsLineOf(lines: seq<Line>, k: nat, m: Name) {
    k < |lines| && lines[k] == Module(m)
  }

  /** In every run of w workers, when insmod of a line for m starts, every line for x has been reaped. */
  ghost predicate LoadsFirst(lines: seq<Line>, w: nat, x: Name, m: Name) {
    forall tr: seq<State>, acts: seq<Action>, i: nat, k: nat, j: nat ::
      IsRun(lines, w, tr, acts) && StartsInsmod(tr, acts, i, k) && IsLineOf(lines, k, m) && IsLineOf(lines, j, x) ==>
        j in tr[i].reaped
  }

  /** Every run of w workers loads every reported dependency first. */
  ghost predicate LoadsReportedFirst(lines: seq<Line>, w: nat, lookup: Deps) {
    forall m, x :: x in DepsOf(lookup, m) ==> LoadsFirst(lines, w, x, m)
  }

  ghost predicate IsWritten(targets: seq<Name>, builtin: Option<seq<Name>>, m: Name) {
    m in targets && !Builtin(builtin, m)
  }

  /** Each target that is written and has a reported dependency that is written too was listed, so that its
      dependencies were asked for. */
  ghost predicate AskedForAll(targets: seq<Name>, moduleList: seq<Name>, lookup: Deps, builtin: Option<seq<Name>>) {
    forall m, x :: x in DepsOf(lookup, m) && IsWritten(targets, builtin, m) && IsWritten(targets, builtin, x) ==>
      m in moduleList
  }

  lemma ListedLoadsFirst(targets: seq<Name>, moduleList: seq<Name>, lookup: Deps, builtin: Option<seq<Name>>,
                         limit: nat, n: nat, w: nat, m: Name, x: Name)
    requires HeightsKnown(targets, Dictionary(lookup, moduleList), limit)
    requires IsMaxHeight(targets, Heights(Dictionary(lookup, moduleList), limit), n)
    requires x in DepsOf(lookup, m)
    requires IsWritten(targets, builtin, m) && IsWritten(targets, builtin, x) ==> m in moduleList
    ensures LoadsFirst(Blocks(targets, Heights(Dictionary(lookup, moduleList), limit), builtin, n), w, x, m)
  {
    var d := Dictionary(lookup, moduleList);
    var lines := Blocks(targets, Heights(d, limit), builtin, n);
    forall tr: seq<State>, acts: seq<Action>, i: nat, k: nat, j: nat |
      IsRun(lines, w, tr, acts) && StartsInsmod(tr, acts, i, k) && IsLineOf(lines, k, m) && IsLineOf(lines, j, x)
      ensures j in tr[i].reaped
    {
      LineLevelIsHeight(targets, Heights(d, limit), builtin, n, k);
      LineLevelIsHeight(targets, Heights(d, limit), builtin, n, j);
      StepReaches(d, m, x);
      DependenciesLoadFirst(targets, d, limit, builtin, n, w, tr, acts, i, k, x);
    }
  }

  lemma {:induction false} NoHeaderBetween(lines: seq<Line>, j: nat, k: nat)
    requires j <= k <= |lines| && Headers(lines[..j]) == Headers(lines[..k])
    ensures forall q :: j <= q < k ==> lines[q].Module?
    decreases k - j
  {
    if j < k {
      HeadersStep(lines, k - 1);
      HeadersGrow(lines, j, k - 1);
      NoHeaderBetween(lines, j, k - 1);
    }
  }

  /** A run in which the second line is started before the first has been reaped. */
  lemma OvertakingRun(lines: seq<Line>, w: nat, j: nat, k: nat, m: Name, x: Name)
    requires w >= 2 && IsLineOf(lines, j, x) && IsLineOf(lines, k, m)
    requires forall q :: j <= q < k ==> lines[q].Module?
    ensures !LoadsFirst(lines, w, x, m)
  {
    var s, t := CanOvertake(lines, w, j, k);
    var tr, acts :| IsRun(lines, w, tr, acts) && tr[|acts|] == s;
    var i := |acts|;
    Extended(lines, w, tr, acts, Run(t));
    var tr' := tr + [Apply(lines, s, Run(t))];
    assert StartsInsmod(tr', acts + [Run(t)], i, k);
    assert tr'[i] == s;
  }

  /** A target that was not listed gets height 1, in the first block, so nothing keeps it behind a dependency. */
  lemma UnlistedOvertakes(targets: seq<Name>, moduleList: seq<Name>, lookup: Deps, builtin: Option<seq<Name>>,
                          limit: nat, n: nat, w: nat, m: Name, x: Name)
    requires HeightsKnown(targets, Dictionary(lookup, moduleList), limit)
    requires IsMaxHeight(targets, Heights(Dictionary(lookup, moduleList), limit), n)
    requires IsWritten(targets, builtin, m) && IsWritten(targets, builtin, x) && m !in moduleList && w >= 2
    ensures !LoadsFirst(Blocks(targets, Heights(Dictionary(lookup, moduleList), limit), builtin, n), w, x, m)
  {
    var d := Dictionary(lookup, moduleList);
    var level := Heights(d, limit);
    var lines := Blocks(targets, level, builtin, n);
    assert TreeHeight(m, d, limit) == Some(1);
    TreeHeightPositive(x, d, limit);
    TargetsAreWritten(targets, level, builtin, n, m);
    TargetsAreWritten(targets, level, builtin, n, x);
    var k: nat :| k < |lines| && lines[k] == Module(m);
    var j: nat :| j < |lines| && lines[j] == Module(x);
    LineLevelIsHeight(targets, level, builtin, n, k);
    LineLevelIsHeight(targets, level, builtin, n, j);
    if j < k {
      HeadersGrow(lines, j, k);
      NoHeaderBetween(lines, j, k);
    }
    OvertakingRun(lines, w, j, k, m, x);
  }

  /** The number of workers the program starts. */
  const NUM_THREAD: nat := 4

  /** With any number of workers, every run over the generated file loads the reported dependencies first if every
      written target with a written dependency was listed; from two workers on, only if. */
  lemma ReportedLoadFirstIff(targets: seq<Name>, moduleList: seq<Name>, lookup: Deps, builtin: Option<seq<Name>>,
                             limit: nat, n: nat, w: nat)
    requires HeightsKnown(targets, Dictionary(lookup, moduleList), limit)
    requires IsMaxHeight(targets, Heights(Dictionary(lookup, moduleList), limit), n)
    ensures AskedForAll(targets, moduleList, lookup, builtin) ==>
              LoadsReportedFirst(Blocks(targets, Heights(Dictionary(lookup, moduleList), limit), builtin, n), w, lookup)
    ensures w >= 2 && !AskedForAll(targets, moduleList, lookup, builtin) ==>
              !LoadsReportedFirst(Blocks(targets, Heights(Dictionary(lookup, moduleList), limit), builtin, n),
                                  w, lookup)
  {
    var lines := Blocks(targets, Heights(Dictionary(lookup, moduleList), limit), builtin, n);
    if AskedForAll(targets, moduleList, lookup, builtin) {
      forall m, x | x in DepsOf(lookup, m) ensures LoadsFirst(lines, w, x, m) {
        ListedLoadsFirst(targets, moduleList, lookup, builtin, limit, n, w, m, x);
      }
    } else if w >= 2 {
      var m, x :| x in DepsOf(lookup, m) && IsWritten(targets, builtin, m) && IsWritten(targets, builtin, x)
        && m !in moduleList;
      UnlistedOvertakes(targets, moduleList, lookup, builtin, limit, n, w, m, x);
    }
  }

  /** Generator and loader composed: the program's four workers, or any other number from two on, load a generated
      file in the reported order, in every run, exactly when every written target with a written dependency was listed;
      any number does, when the targets are the listed modules. */
  method GeneratedFileLoads(targets: seq<Name>, moduleList: seq<Name>, lookup: Deps, builtin: Option<seq<Name>>,
                            limit: nat)
    returns (r: Result<seq<Line>, GenError>)
    ensures r.Ok? ==> forall w: nat :: w >= 2 ==>
              (LoadsReportedFirst(r.value, w, lookup) <==> AskedForAll(targets, moduleList, lookup, builtin))
    ensures r.Ok? ==>
              (LoadsReportedFirst(r.value, NUM_THREAD, lookup) <==> AskedForAll(targets, moduleList, lookup, builtin))
    ensures r.Ok? && targets == moduleList ==> forall w: nat :: LoadsReportedFirst(r.value, w, lookup)
  {
    ghost var n;
    r, n := GenerateDependencyTrees(targets, moduleList, lookup, builtin, limit);
    if r.Ok? {
      forall w: nat
        ensures AskedForAll(targets, moduleList, lookup, builtin) ==> LoadsReportedFirst(r.value, w, lookup)
        ensures w >= 2 && !AskedForAll(targets, moduleList, lookup, builtin) ==> !LoadsReportedFirst(r.value, w, lookup)
      {
        ReportedLoadFirstIff(targets, moduleList, lookup, builtin, limit, n, w);
      }
    }
  }

  /** The early list can be such a case: of two early modules with an edge from a to b, of which only b is listed, both
      get height 1, and some run of the program's workers starts a before b has been inserted. */
  lemma UnlistedEarlyModule(a: Name, b: Name, w: nat)
    requires a != b && w >= 2
    ensures !LoadsReportedFirst(Blocks([a, b], Heights(Dictionary(map[a := [b]], [b]), 1), None, 1), w, map[a := [b]])
  {
    var lookup: Deps := map[a := [b]];
    var d, targets := Dictionary(lookup, [b]), [a, b];
    assert b in d && d[b] == [] && a !in d;
    assert TreeHeight(a, d, 1) == Some(1) && TreeHeight(b, d, 1) == Some(1);
    assert a in targets && b in targets && Heights(d, 1)(a) == 1;
    ReportedLoadFirstIff(targets, [b], lookup, None, 1, 1, w);
    assert b in DepsOf(lookup, a) && IsWritten(targets, None, a) && IsWritten(targets, None, b);
  }
}
