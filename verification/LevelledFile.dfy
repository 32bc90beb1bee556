// Model of generate_dependency_trees and is_buildin in modparse.py: bucket the
// targets by tree height and write one "Height n" block per level.
module LevelledFile {
  import opened Wrappers
  import opened ModuleGraph
  import opened Buckets

  /** A line of the generated file, line ending and leading tab stripped. */
  datatype Line = Header(level: nat) | Module(name: Name)

  /** What the interpreter raises: recursion too deep, or no bucket for a level. */
  datatype GenError = RecursionError | KeyError(level: nat)

  ghost predicate Builtin(builtin: Option<seq<Name>>, m: Name) {
    builtin.Some? && m in builtin.value
  }

  method IsBuildin(builtin: Option<seq<Name>>, m: Name) returns (found: bool)
    ensures found <==> builtin.Some? && m in builtin.value
  {
    if builtin.None? {
      return false;
    }
    for i := 0 to |builtin.value|
      invariant m !in builtin.value[..i]
    {
      if m == builtin.value[i] {
        return true;
      }
    }
    return false;
  }

  /** dependency_dict: the answers for the listed modules only. */
  ghost function Dictionary(lookup: Deps, modules: seq<Name>): Deps {
    map m | m in modules :: DepsOf(lookup, m)
  }

  ghost predicate HeightsKnown(targets: seq<Name>, d: Deps, limit: nat) {
    forall t :: t in targets ==> TreeHeight(t, d, limit).Some?
  }

  /** The height as a level, 0 when the recursion does not return. */
  ghost function Heights(d: Deps, limit: nat): Name -> nat {
    (m: Name) => var h := TreeHeight(m, d, limit); if h.Some? then h.value else 0
  }

  ghost predicate IsMaxHeight(targets: seq<Name>, level: Name -> nat, n: nat) {
    && (forall t :: t in targets ==> level(t) <= n)
    && (n > 0 ==> HasLevel(targets, level, n))
  }

  ghost predicate NoGap(targets: seq<Name>, level: Name -> nat, n: nat) {
    forall h :: 1 <= h <= n ==> HasLevel(targets, level, h)
  }

  /** The module lines of one block. */
  ghost function ModuleLines(ms: seq<Name>, builtin: Option<seq<Name>>): seq<Line> {
    if ms == [] then []
    else
      var front, last := ms[..|ms| - 1], ms[|ms| - 1];
      ModuleLines(front, builtin) + if Builtin(builtin, last) then [] else [Module(last)]
  }

  ghost function Block(targets: seq<Name>, level: Name -> nat, builtin: Option<seq<Name>>, h: nat): seq<Line> {
    [Header(h)] + ModuleLines(AtLevel(targets, level, h), builtin)
  }

  /** Blocks 1..n of the file. */
  ghost function Blocks(targets: seq<Name>, level: Name -> nat, builtin: Option<seq<Name>>, n: nat): seq<Line> {
    if n == 0 then [] else Blocks(targets, level, builtin, n - 1) + Block(targets, level, builtin, n)
  }

  lemma AtLevelStep(targets: seq<Name>, i: nat, level: Name -> nat, h: nat)
    requires i < |targets|
    ensures AtLevel(targets[..i + 1], level, h) ==
              AtLevel(targets[..i], level, h) + if level(targets[i]) == h then [targets[i]] else []
    ensures HasLevel(targets[..i + 1], level, h) <==> HasLevel(targets[..i], level, h) || level(targets[i]) == h
    ensures !HasLevel(targets[..i], level, h) ==> AtLevel(targets[..i], level, h) == []
  {
    assert targets[..i + 1] == targets[..i] + [targets[i]];
    assert forall t :: t in targets[..i + 1] <==> t in targets[..i] || t == targets[i];
    AtLevelAppend(targets[..i], targets[i], level, h);
    if !HasLevel(targets[..i], level, h) {
      AbsentLevelIsEmpty(targets[..i], level, h);
    }
  }

  /** The first loop: one dictionary entry per listed module. */
  method BuildDictionary(lookup: Deps, moduleList: seq<Name>) returns (dict: Deps)
    ensures dict == Dictionary(lookup, moduleList)
  {
    dict := map[];
    for i := 0 to |moduleList|
      invariant dict == Dictionary(lookup, moduleList[..i])
    {
      dict := dict[moduleList[i] := DepsOf(lookup, moduleList[i])];
    }
    assert moduleList[..|moduleList|] == moduleList;
  }

  /** height_module_dict: a bucket for each level that occurs, holding that level's targets. */
  ghost predicate AreBuckets(buckets: map<nat, seq<Name>>, targets: seq<Name>, level: Name -> nat) {
    && (forall h :: h in buckets <==> HasLevel(targets, level, h))
    && (forall h :: h in buckets ==> buckets[h] == AtLevel(targets, level, h))
  }

  /** The second loop: compute heights and fill the buckets; None when the recursion does not return. */
  method FillBuckets(targets: seq<Name>, dict: Deps, limit: nat)
    returns (r: Option<(map<nat, seq<Name>>, nat)>)
    ensures r.None? <==> !HeightsKnown(targets, dict, limit)
    ensures r.Some? ==> AreBuckets(r.value.0, targets, Heights(dict, limit))
    ensures r.Some? ==> IsMaxHeight(targets, Heights(dict, limit), r.value.1)
  {
    ghost var level := Heights(dict, limit);
    var buckets: map<nat, seq<Name>> := map[];
    var maxHeight := 0;
    for i := 0 to |targets|
      invariant HeightsKnown(targets[..i], dict, limit)
      invariant IsMaxHeight(targets[..i], level, maxHeight)
      invariant AreBuckets(buckets, targets[..i], level)
    {
      var height := TreeHeight(targets[i], dict, limit);
      if height.None? {
        assert targets[i] in targets;
        return None;
      }
      ghost var before := buckets;
      if height.value !in buckets {
        buckets := buckets[height.value := []];
      }
      buckets := buckets[height.value := buckets[height.value] + [targets[i]]];
      forall h: nat
        ensures h in buckets <==> HasLevel(targets[..i + 1], level, h)
        ensures h in buckets ==> buckets[h] == AtLevel(targets[..i + 1], level, h)
      {
        AtLevelStep(targets, i, level, h);
      }
      assert forall t :: t in targets[..i + 1] <==> t in targets[..i] || t == targets[i];
      if height.value > maxHeight {
        maxHeight := height.value;
      }
    }
    assert targets[..|targets|] == targets;
    return Some((buckets, maxHeight));
  }

  /** The writing loop. */
  method WriteBlocks(ghost targets: seq<Name>, ghost level: Name -> nat, buckets: map<nat, seq<Name>>,
                     maxHeight: nat, builtin: Option<seq<Name>>)
    returns (file: seq<Line>)
    requires AreBuckets(buckets, targets, level) && NoGap(targets, level, maxHeight)
    ensures file == Blocks(targets, level, builtin, maxHeight)
  {
    file := [];
    for h := 1 to maxHeight + 1
      invariant file == Blocks(targets, level, builtin, h - 1)
    {
      var lines := WriteModules(buckets[h], builtin);
      file := file + ([Header(h)] + lines);
    }
  }

  method WriteModules(modules: seq<Name>, builtin: Option<seq<Name>>) returns (lines: seq<Line>)
    ensures lines == ModuleLines(modules, builtin)
  {
    lines := [];
    for k := 0 to |modules|
      invariant lines == ModuleLines(modules[..k], builtin)
    {
      assert modules[..k + 1][..k] == modules[..k];
      var b := IsBuildin(builtin, modules[k]);
      if !b {
        lines := lines + [Module(modules[k])];
      }
    }
    assert modules[..|modules|] == modules;
  }

  /** The three ways a run ends: a height is unknown, the lowest empty level stops it, or the blocks are written. */
  method GenerateDependencyTrees(targets: seq<Name>, moduleList: seq<Name>, lookup: Deps,
                                 builtin: Option<seq<Name>>, limit: nat)
    returns (r: Result<seq<Line>, GenError>, ghost n: nat)
    ensures r == Err(RecursionError) <==> !HeightsKnown(targets, Dictionary(lookup, moduleList), limit)
    ensures r != Err(RecursionError) ==> IsMaxHeight(targets, Heights(Dictionary(lookup, moduleList), limit), n)
    ensures r.Err? && r.error.KeyError? ==>
              LowestGap(targets, Heights(Dictionary(lookup, moduleList), limit), n, r.error.level)
    ensures r.Ok? ==>
              && NoGap(targets, Heights(Dictionary(lookup, moduleList), limit), n)
              && r.value == Blocks(targets, Heights(Dictionary(lookup, moduleList), limit), builtin, n)
    ensures targets == moduleList ==>
              (r.Err? && r.error.KeyError? <==>
                 HeightsKnown(targets, Dictionary(lookup, targets), limit) && NoLeaf(targets, lookup))
              && (r.Err? && r.error.KeyError? ==> r.error.level == 1)
    ensures ClosedTargets(targets, Dictionary(lookup, moduleList)) ==> r.Ok? || r == Err(RecursionError)
    ensures r.Ok? ==>
              && WritesEachTarget(r.value, targets, builtin)
              && SortedByLevel(Names(r.value), Heights(Dictionary(lookup, moduleList), limit))
              && KeepsOrder(r.value, targets, Heights(Dictionary(lookup, moduleList), limit), builtin)
              && HeadersCountUp(r.value) && Headers(r.value) == n
  {
    var dict := BuildDictionary(lookup, moduleList);
    var filled := FillBuckets(targets, dict, limit);
    if filled.None? {
      return Err(RecursionError), 0;
    }
    var (buckets, maxHeight) := filled.value;
    n := maxHeight;
    // The console listing runs first, so a missing bucket stops the run before any file is written.
    for h := 1 to maxHeight + 1
      invariant forall g :: 1 <= g < h ==> g in buckets
    {
      if h !in buckets {
        GapMeansNoLeaf(targets, moduleList, lookup, limit, n, h);
        return Err(KeyError(h)), n;
      }
    }
    if targets == moduleList { ListedTargetsLeaveNoGapIff(targets, lookup, limit, n); }
    var file := WriteBlocks(targets, Heights(dict, limit), buckets, maxHeight, builtin);
    forall t | t in targets ensures 1 <= Heights(dict, limit)(t) <= n { TreeHeightPositive(t, dict, limit); }
    BlocksSortTargets(targets, Heights(dict, limit), builtin, n);
    return Ok(file), n;
  }

  // ----- No gap between levels -----

  /** h is the lowest level up to n without a target. */
  ghost predicate LowestGap(targets: seq<Name>, level: Name -> nat, n: nat, h: nat) {
    1 <= h <= n && !HasLevel(targets, level, h) && forall g :: 1 <= g < h ==> HasLevel(targets, level, g)
  }

  /** There are targets, and each has dependencies. */
  ghost predicate NoLeaf(targets: seq<Name>, lookup: Deps) {
    targets != [] && forall t :: t in targets ==> DepsOf(lookup, t) != []
  }

  /** Every dependency that the dictionary lists for a target is itself a target. */
  ghost predicate ClosedTargets(targets: seq<Name>, d: Deps) {
    forall t, x :: t in targets && t in d && x in d[t] ==> x in targets
  }

  /** A closed target list has a target on every level up to its highest one. */
  lemma {:induction false} ClosedTargetsReachDown(targets: seq<Name>, d: Deps, limit: nat, t: Name, h: nat)
    requires ClosedTargets(targets, d)
    requires t in targets && TreeHeight(t, d, limit).Some?
    requires 1 <= h <= TreeHeight(t, d, limit).value
    ensures HasLevel(targets, Heights(d, limit), h)
    decreases TreeHeight(t, d, limit).value
  {
    if h < TreeHeight(t, d, limit).value {
      DepsHeightIsMax(d[t], d, limit - 1);
      var x :| x in d[t] && TreeHeight(x, d, limit - 1) == DepsHeight(d[t], d, limit - 1);
      MoreFramesSameHeight(x, d, limit - 1, limit);
      ClosedTargetsReachDown(targets, d, limit, x, h);
    } else {
      assert Heights(d, limit)(t) == h;
    }
  }

  /** So the bucket lookup never misses when the targets are closed under their dependencies. */
  lemma ClosedTargetsLeaveNoGap(targets: seq<Name>, d: Deps, limit: nat, n: nat)
    requires ClosedTargets(targets, d) && HeightsKnown(targets, d, limit)
    requires IsMaxHeight(targets, Heights(d, limit), n)
    ensures NoGap(targets, Heights(d, limit), n)
    ensures forall t :: t in targets ==> 1 <= Heights(d, limit)(t) <= n
  {
    forall h | 1 <= h <= n ensures HasLevel(targets, Heights(d, limit), h) {
      var t :| t in targets && Heights(d, limit)(t) == n;
      ClosedTargetsReachDown(targets, d, limit, t, h);
    }
    forall t | t in targets ensures 1 <= Heights(d, limit)(t) {
      TreeHeightPositive(t, d, limit);
    }
  }

  /** When every listed module is a target, only level 1 can be empty: a dependency of height 2 or more is listed. */
  lemma {:induction false} ListedTargetsReachDown(targets: seq<Name>, d: Deps, limit: nat, t: Name, h: nat)
    requires forall x :: x in d ==> x in targets
    requires t in targets && TreeHeight(t, d, limit).Some?
    requires 2 <= h <= TreeHeight(t, d, limit).value
    ensures HasLevel(targets, Heights(d, limit), h)
    decreases TreeHeight(t, d, limit).value
  {
    if h < TreeHeight(t, d, limit).value {
      DepsHeightIsMax(d[t], d, limit - 1);
      var x :| x in d[t] && TreeHeight(x, d, limit - 1) == DepsHeight(d[t], d, limit - 1);
      MoreFramesSameHeight(x, d, limit - 1, limit);
      ListedTargetsReachDown(targets, d, limit, x, h);
    } else {
      assert Heights(d, limit)(t) == h;
    }
  }

  /** A listed module has height 1 exactly when it has no dependencies. */
  lemma LeavesAreLevelOne(lookup: Deps, moduleList: seq<Name>, t: Name, limit: nat)
    requires t in moduleList && TreeHeight(t, Dictionary(lookup, moduleList), limit).Some?
    ensures TreeHeight(t, Dictionary(lookup, moduleList), limit).value == 1 <==> DepsOf(lookup, t) == []
  {
    var d := Dictionary(lookup, moduleList);
    DepsHeightIsMax(d[t], d, limit - 1);
    if d[t] != [] {
      var x :| x in d[t] && TreeHeight(x, d, limit - 1) == DepsHeight(d[t], d, limit - 1);
      TreeHeightPositive(x, d, limit - 1);
    }
  }

  /** When the targets are the listed modules, the bucket lookup never misses exactly when some target has no
      dependencies, or there is no target. */
  lemma ListedTargetsLeaveNoGapIff(targets: seq<Name>, lookup: Deps, limit: nat, n: nat)
    requires HeightsKnown(targets, Dictionary(lookup, targets), limit)
    requires IsMaxHeight(targets, Heights(Dictionary(lookup, targets), limit), n)
    ensures forall h :: 2 <= h <= n ==> HasLevel(targets, Heights(Dictionary(lookup, targets), limit), h)
    ensures NoGap(targets, Heights(Dictionary(lookup, targets), limit), n) <==> !NoLeaf(targets, lookup)
  {
    var d := Dictionary(lookup, targets);
    forall h | 2 <= h <= n ensures HasLevel(targets, Heights(d, limit), h) {
      var t :| t in targets && Heights(d, limit)(t) == n;
      ListedTargetsReachDown(targets, d, limit, t, h);
    }
    forall t | t in targets
      ensures Heights(d, limit)(t) >= 1 && (Heights(d, limit)(t) == 1 <==> DepsOf(lookup, t) == [])
    {
      LeavesAreLevelOne(lookup, targets, t, limit);
      TreeHeightPositive(t, d, limit);
    }
    if targets != [] {
      assert targets[0] in targets;
      assert NoGap(targets, Heights(d, limit), n) <==> HasLevel(targets, Heights(d, limit), 1);
    }
  }

  /** What a gap found by the generator tells about its input. */
  lemma GapMeansNoLeaf(targets: seq<Name>, moduleList: seq<Name>, lookup: Deps, limit: nat, n: nat, h: nat)
    requires HeightsKnown(targets, Dictionary(lookup, moduleList), limit)
    requires IsMaxHeight(targets, Heights(Dictionary(lookup, moduleList), limit), n)
    requires LowestGap(targets, Heights(Dictionary(lookup, moduleList), limit), n, h)
    ensures targets == moduleList ==> h == 1 && NoLeaf(targets, lookup)
    ensures !ClosedTargets(targets, Dictionary(lookup, moduleList))
  {
    if targets == moduleList { ListedTargetsLeaveNoGapIff(targets, lookup, limit, n); }
    if ClosedTargets(targets, Dictionary(lookup, moduleList)) {
      ClosedTargetsLeaveNoGap(targets, Dictionary(lookup, moduleList), limit, n);
    }
  }

  /** With enough frames, the heights are known exactly when no target reaches a cycle. */
  lemma HeightsKnownIffAcyclic(targets: seq<Name>, d: Deps, limit: nat)
    requires limit > |d|
    ensures HeightsKnown(targets, d, limit) <==> forall t :: t in targets ==> AcyclicFrom(d, t)
  {
    forall t | t in targets ensures TreeHeight(t, d, limit).Some? <==> AcyclicFrom(d, t) {
      TerminatesIffAcyclic(t, d);
      if TreeHeight(t, d, |d| + 1).Some? {
        MoreFramesSameHeight(t, d, |d| + 1, limit);
      }
    }
  }

  /** The early module x of the command line, or something it reaches. */
  ghost predicate EarlyModule(lookup: Deps, names: seq<Name>, x: Name) {
    exists e :: e in names && (x == e + ".ko" || Reaches(lookup, e + ".ko", x))
  }

  /** The early list: each early module followed by its dependency closure. */
  method EarlyModules(lookup: Deps, names: seq<Name>) returns (list: seq<Name>)
    ensures forall x :: x in list <==> EarlyModule(lookup, names, x)
    ensures forall x :: x in list <==> exists e :: e in names && (x == e + ".ko" || Reaches(lookup, e + ".ko", x))
  {
    list := [];
    for i := 0 to |names|
      invariant forall x :: x in list <==> EarlyModule(lookup, names[..i], x)
    {
      var e := names[i] + ".ko";
      var deps := new Record();
      deps.Closure(lookup, e);
      ghost var before := list;
      list := list + [e] + deps.items;
      assert names[..i + 1] == names[..i] + [names[i]];
      forall x ensures x in list <==> EarlyModule(lookup, names[..i + 1], x) {
        assert x in list <==> x in before || x == e || x in deps.items;
        assert names[i] in names[..i + 1];
        assert forall f :: f in names[..i + 1] <==> f in names[..i] || f == names[i];
      }
    }
    assert names[..|names|] == names;
  }

  /** The early list is closed under dependencies, so its levels have no gap. */
  lemma EarlyModulesAreClosed(lookup: Deps, names: seq<Name>, list: seq<Name>, moduleList: seq<Name>)
    requires forall x :: x in list <==> EarlyModule(lookup, names, x)
    ensures ClosedTargets(list, Dictionary(lookup, moduleList))
  {
    forall t, x | t in list && t in Dictionary(lookup, moduleList) && x in Dictionary(lookup, moduleList)[t]
      ensures x in list
    {
      var e :| e in names && (t == e + ".ko" || Reaches(lookup, e + ".ko", t));
      if t == e + ".ko" {
        StepReaches(lookup, t, x);
      } else {
        ReachesThenStep(lookup, e + ".ko", t, x);
      }
      assert EarlyModule(lookup, names, x);
    }
  }

  /** Without closure it can miss: a lone target that depends on an unlisted module. */
  lemma OpenTargetsCanLeaveGap(t: Name, x: Name)
    requires t != x
    ensures IsMaxHeight([t], Heights(map[t := [x]], 2), 2)
    ensures !HasLevel([t], Heights(map[t := [x]], 2), 1)
  {
    var d: Deps := map[t := [x]];
    assert TreeHeight(x, d, 1) == Some(1);
    assert [x][..0] == [];
    assert DepsHeight([x], d, 1) == Some(1);
    assert TreeHeight(t, d, 2) == Some(2);
    assert t in [t] && Heights(d, 2)(t) == 2;
  }

  // ----- Levels of the written lines -----

  /** Header lines among the lines of s. */
  ghost function Headers(s: seq<Line>): nat {
    if s == [] then 0
    else Headers(s[..|s| - 1]) + if s[|s| - 1].Header? then 1 else 0
  }

  lemma {:induction false} HeadersOfConcat(a: seq<Line>, b: seq<Line>)
    ensures Headers(a + b) == Headers(a) + Headers(b)
    decreases |b|
  {
    if b == [] {
      assert a + b == a;
    } else {
      HeadersOfConcat(a, b[..|b| - 1]);
      assert (a + b)[..|a + b| - 1] == a + b[..|b| - 1];
    }
  }

  lemma {:induction false} ModuleLinesAreModules(ms: seq<Name>, builtin: Option<seq<Name>>)
    ensures forall l :: l in ModuleLines(ms, builtin) ==> l.Module? && l.name in ms && !Builtin(builtin, l.name)
    ensures forall m :: m in ms && !Builtin(builtin, m) ==> Module(m) in ModuleLines(ms, builtin)
  {
    if ms != [] {
      ModuleLinesAreModules(ms[..|ms| - 1], builtin);
      assert ms == ms[..|ms| - 1] + [ms[|ms| - 1]];
    }
  }

  lemma {:induction false} NoHeaders(s: seq<Line>)
    requires forall i :: 0 <= i < |s| ==> s[i].Module?
    ensures Headers(s) == 0
  {
    if s != [] {
      NoHeaders(s[..|s| - 1]);
    }
  }

  /** Line j of block h: the header, or a module of height h with one header before it. */
  lemma BlockLine(targets: seq<Name>, level: Name -> nat, builtin: Option<seq<Name>>, h: nat, j: nat)
    requires j <= |Block(targets, level, builtin, h)|
    ensures Headers(Block(targets, level, builtin, h)[..j]) == if j == 0 then 0 else 1
    ensures j < |Block(targets, level, builtin, h)| && Block(targets, level, builtin, h)[j].Module? ==>
              var m := Block(targets, level, builtin, h)[j].name;
              j > 0 && m in targets && level(m) == h && !Builtin(builtin, m)
  {
    var mods := ModuleLines(AtLevel(targets, level, h), builtin);
    ModuleLinesAreModules(AtLevel(targets, level, h), builtin);
    AtLevelMembers(targets, level, h);
    assert forall i :: 0 <= i < |mods| ==> mods[i] in mods;
    if j > 0 {
      assert Block(targets, level, builtin, h)[..j] == [Header(h)] + mods[..j - 1];
      HeadersOfConcat([Header(h)], mods[..j - 1]);
      NoHeaders(mods[..j - 1]);
      assert Headers([Header(h)]) == 1 by { assert [Header(h)][..0] == []; }
    }
  }

  lemma {:induction false} BlocksHeaders(targets: seq<Name>, level: Name -> nat, builtin: Option<seq<Name>>, n: nat)
    ensures Headers(Blocks(targets, level, builtin, n)) == n
  {
    if n > 0 {
      BlocksHeaders(targets, level, builtin, n - 1);
      var b := Block(targets, level, builtin, n);
      HeadersOfConcat(Blocks(targets, level, builtin, n - 1), b);
      BlockLine(targets, level, builtin, n, |b|);
      assert b[..|b|] == b;
    }
  }

  lemma HeadersBefore(a: seq<Line>, b: seq<Line>, k: nat, x: nat, y: nat)
    requires |a| <= k < |a| + |b| && Headers(a) == x && Headers(b[..k - |a|]) == y
    ensures (a + b)[k] == b[k - |a|] && Headers((a + b)[..k]) == x + y
  {
    assert (a + b)[..k] == a + b[..k - |a|];
    HeadersOfConcat(a, b[..k - |a|]);
  }

  lemma BlockModule(targets: seq<Name>, level: Name -> nat, builtin: Option<seq<Name>>, h: nat, j: nat)
    requires j < |Block(targets, level, builtin, h)| && Block(targets, level, builtin, h)[j].Module?
    ensures var m := Block(targets, level, builtin, h)[j].name; m in targets && level(m) == h && !Builtin(builtin, m)
    ensures Headers(Block(targets, level, builtin, h)[..j]) == 1
  {
    BlockLine(targets, level, builtin, h, j);
  }

  /** A module line stands after exactly as many headers as its module's height. */
  lemma {:induction false} LineLevelIsHeight(targets: seq<Name>, level: Name -> nat, builtin: Option<seq<Name>>,
                                             n: nat, k: nat)
    requires k < |Blocks(targets, level, builtin, n)|
    requires Blocks(targets, level, builtin, n)[k].Module?
    ensures var m := Blocks(targets, level, builtin, n)[k].name;
            && level(m) == Headers(Blocks(targets, level, builtin, n)[..k])
            && m in targets && !Builtin(builtin, m)
    decreases n
  {
    var earlier, b := Blocks(targets, level, builtin, n - 1), Block(targets, level, builtin, n);
    var file := Blocks(targets, level, builtin, n);
    if k >= |earlier| {
      BlocksHeaders(targets, level, builtin, n - 1);
      BlockModule(targets, level, builtin, n, k - |earlier|);
      HeadersBefore(earlier, b, k, n - 1, 1);
    } else {
      LineLevelIsHeight(targets, level, builtin, n - 1, k);
      assert file[..k] == earlier[..k];
    }
  }

  /** Every non-builtin target up to level n is written. */
  lemma {:induction false} TargetsAreWritten(targets: seq<Name>, level: Name -> nat, builtin: Option<seq<Name>>,
                                             n: nat, t: Name)
    requires t in targets && !Builtin(builtin, t) && 1 <= level(t) <= n
    ensures Module(t) in Blocks(targets, level, builtin, n)
    decreases n
  {
    if level(t) < n {
      TargetsAreWritten(targets, level, builtin, n - 1, t);
    } else {
      AtLevelMembers(targets, level, n);
      ModuleLinesAreModules(AtLevel(targets, level, n), builtin);
    }
  }

  // ----- The file without its blocks -----

  /** The names on the module lines, in file order. */
  ghost function Names(file: seq<Line>): seq<Name> {
    if file == [] then []
    else
      var front, last := file[..|file| - 1], file[|file| - 1];
      Names(front) + if last.Module? then [last.name] else []
  }

  ghost function NotBuiltin(ms: seq<Name>, builtin: Option<seq<Name>>): seq<Name> {
    if ms == [] then []
    else
      var front, last := ms[..|ms| - 1], ms[|ms| - 1];
      NotBuiltin(front, builtin) + if Builtin(builtin, last) then [] else [last]
  }

  lemma {:induction false} NamesOfConcat(a: seq<Line>, b: seq<Line>)
    ensures Names(a + b) == Names(a) + Names(b)
    decreases |b|
  {
    if b == [] {
      assert a + b == a;
    } else {
      NamesOfConcat(a, b[..|b| - 1]);
      assert (a + b)[..|a + b| - 1] == a + b[..|b| - 1];
    }
  }

  lemma {:induction false} NamesOfModuleLines(ms: seq<Name>, builtin: Option<seq<Name>>)
    ensures Names(ModuleLines(ms, builtin)) == NotBuiltin(ms, builtin)
  {
    if ms != [] {
      var front, last := ms[..|ms| - 1], ms[|ms| - 1];
      var lines := if Builtin(builtin, last) then [] else [Module(last)];
      NamesOfModuleLines(front, builtin);
      NamesOfConcat(ModuleLines(front, builtin), lines);
      assert Names([Module(last)]) == [last] by { assert [Module(last)][..0] == []; }
    }
  }

  lemma {:induction false} NotBuiltinOfLevel(targets: seq<Name>, level: Name -> nat, builtin: Option<seq<Name>>, h: nat)
    ensures NotBuiltin(AtLevel(targets, level, h), builtin) == AtLevel(NotBuiltin(targets, builtin), level, h)
  {
    if targets != [] {
      var front, last := targets[..|targets| - 1], targets[|targets| - 1];
      NotBuiltinOfLevel(front, level, builtin, h);
      NotBuiltinAppend(AtLevel(front, level, h), last, builtin);
      AtLevelAppend(NotBuiltin(front, builtin), last, level, h);
      assert AtLevel(front, level, h) + [] == AtLevel(front, level, h);
      assert NotBuiltin(front, builtin) + [] == NotBuiltin(front, builtin);
    }
  }

  lemma NotBuiltinAppend(ms: seq<Name>, m: Name, builtin: Option<seq<Name>>)
    ensures NotBuiltin(ms + [m], builtin) == NotBuiltin(ms, builtin) + if Builtin(builtin, m) then [] else [m]
  {
    assert (ms + [m])[..|ms|] == ms;
  }

  lemma NamesOfBoth(a: seq<Line>, b: seq<Line>, c: seq<Line>, x: seq<Name>, y: seq<Name>)
    requires Names(a) == x && Names(b) == y && c == a + b
    ensures Names(c) == x + y
  {
    NamesOfConcat(a, b);
  }

  lemma NamesOfBlock(targets: seq<Name>, level: Name -> nat, builtin: Option<seq<Name>>, h: nat)
    ensures Names(Block(targets, level, builtin, h)) == AtLevel(NotBuiltin(targets, builtin), level, h)
  {
    var mods := ModuleLines(AtLevel(targets, level, h), builtin);
    NamesBehindHeader(h, mods);
    NamesOfModuleLines(AtLevel(targets, level, h), builtin);
    NotBuiltinOfLevel(targets, level, builtin, h);
  }

  lemma NamesBehindHeader(h: nat, lines: seq<Line>)
    ensures Names([Header(h)] + lines) == Names(lines)
  {
    NamesOfConcat([Header(h)], lines);
    assert Names([Header(h)]) == [] by { assert [Header(h)][..0] == []; }
    assert [] + Names(lines) == Names(lines);
  }

  lemma {:induction false} NamesOfBlocks(targets: seq<Name>, level: Name -> nat, builtin: Option<seq<Name>>, n: nat)
    ensures Names(Blocks(targets, level, builtin, n)) == Concatenated(NotBuiltin(targets, builtin), level, n)
  {
    if n > 0 {
      var earlier, b := Blocks(targets, level, builtin, n - 1), Block(targets, level, builtin, n);
      var left := NotBuiltin(targets, builtin);
      NamesOfBlocks(targets, level, builtin, n - 1);
      NamesOfBlock(targets, level, builtin, n);
      NamesOfBoth(earlier, b, earlier + b, Concatenated(left, level, n - 1), AtLevel(left, level, n));
    }
  }

  lemma {:induction false} LinesOfName(file: seq<Line>, m: Name)
    ensures multiset(file)[Module(m)] == multiset(Names(file))[m]
  {
    if file != [] {
      var front, last := file[..|file| - 1], file[|file| - 1];
      LinesOfName(front, m);
      assert file == front + [last];
    }
  }

  lemma {:induction false} CopiesLeft(ms: seq<Name>, builtin: Option<seq<Name>>, m: Name)
    ensures multiset(NotBuiltin(ms, builtin))[m] == if Builtin(builtin, m) then 0 else multiset(ms)[m]
  {
    if ms != [] {
      var front, last := ms[..|ms| - 1], ms[|ms| - 1];
      CopiesLeft(front, builtin, m);
      assert ms == front + [last];
    }
  }

  /** Each module has as many lines as it is a target, none when it is builtin. */
  ghost predicate WritesEachTarget(file: seq<Line>, targets: seq<Name>, builtin: Option<seq<Name>>) {
    forall m :: multiset(file)[Module(m)] == if Builtin(builtin, m) then 0 else multiset(targets)[m]
  }

  /** Line k, if it is a header, says how many headers there are up to it. */
  ghost predicate HeaderCounts(file: seq<Line>, k: nat)
    requires k < |file|
  {
    file[k].Header? ==> file[k].level == Headers(file[..k]) + 1
  }

  /** The k-th header line says k. */
  ghost predicate HeadersCountUp(file: seq<Line>) {
    forall k: nat :: k < |file| ==> HeaderCounts(file, k)
  }

  /** Modules of the same height stand in the file in the order of the targets. */
  ghost predicate KeepsOrder(file: seq<Line>, targets: seq<Name>, level: Name -> nat, builtin: Option<seq<Name>>) {
    forall h: nat :: AtLevel(Names(file), level, h) == AtLevel(NotBuiltin(targets, builtin), level, h)
  }

  lemma {:induction false} NotBuiltinMembers(ms: seq<Name>, builtin: Option<seq<Name>>)
    ensures forall m :: m in NotBuiltin(ms, builtin) ==> m in ms
  {
    if ms != [] {
      NotBuiltinMembers(ms[..|ms| - 1], builtin);
      assert ms == ms[..|ms| - 1] + [ms[|ms| - 1]];
    }
  }

  lemma {:induction false} BlocksCountUp(targets: seq<Name>, level: Name -> nat, builtin: Option<seq<Name>>, n: nat)
    ensures HeadersCountUp(Blocks(targets, level, builtin, n))
  {
    if n > 0 {
      BlocksCountUp(targets, level, builtin, n - 1);
      BlocksHeaders(targets, level, builtin, n - 1);
      BlockHasOnlyModules(AtLevel(targets, level, n), builtin);
      NextBlockCountsUp(Blocks(targets, level, builtin, n), Blocks(targets, level, builtin, n - 1), n,
                        ModuleLines(AtLevel(targets, level, n), builtin));
    }
  }

  lemma BlockHasOnlyModules(ms: seq<Name>, builtin: Option<seq<Name>>)
    ensures OnlyModules(ModuleLines(ms, builtin))
  {
    ModuleLinesAreModules(ms, builtin);
  }

  ghost predicate OnlyModules(mods: seq<Line>) {
    forall l :: l in mods ==> l.Module?
  }

  lemma NextBlockCountsUp(file: seq<Line>, earlier: seq<Line>, h: nat, mods: seq<Line>)
    requires file == earlier + ([Header(h)] + mods)
    requires HeadersCountUp(earlier) && h == Headers(earlier) + 1 && OnlyModules(mods)
    ensures HeadersCountUp(file)
  {
    forall k: nat | k < |file| ensures HeaderCounts(file, k) {
      if k < |earlier| {
        assert HeaderCounts(earlier, k) && file[..k] == earlier[..k];
      } else if k == |earlier| {
        assert file[..k] == earlier;
      } else {
        assert file[k] == mods[k - |earlier| - 1] && file[k] in mods;
      }
    }
  }

  /** What the blocks are, put together: the non-builtin targets, stably sorted by height, below numbered headers. */
  lemma BlocksSortTargets(targets: seq<Name>, level: Name -> nat, builtin: Option<seq<Name>>, n: nat)
    requires forall t :: t in targets ==> 1 <= level(t) <= n
    ensures var file := Blocks(targets, level, builtin, n);
            && WritesEachTarget(file, targets, builtin) && SortedByLevel(Names(file), level)
            && KeepsOrder(file, targets, level, builtin) && HeadersCountUp(file) && Headers(file) == n
  {
    var file, left := Blocks(targets, level, builtin, n), NotBuiltin(targets, builtin);
    NamesOfBlocks(targets, level, builtin, n);
    NotBuiltinMembers(targets, builtin);
    BucketsAreStableSort(left, level, n);
    forall m ensures multiset(file)[Module(m)] == if Builtin(builtin, m) then 0 else multiset(targets)[m] {
      LinesOfName(file, m);
      CopiesLeft(targets, builtin, m);
    }
    BlocksCountUp(targets, level, builtin, n);
    BlocksHeaders(targets, level, builtin, n);
  }
}
