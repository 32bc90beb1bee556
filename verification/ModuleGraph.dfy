// Model of modparse.py: dependency closures, tree heights and the levelled
// module file that the parallel loader reads.
module ModuleGraph {
  import opened Wrappers

  type Name = string

  /** What modprobe answers, module by module. */
  type Deps = map<Name, seq<Name>>

  /** The answer for one module; a failing query answers with the empty list. */
  function DepsOf(d: Deps, m: Name): seq<Name> {
    if m in d then d[m] else []
  }

  /** A walk along dependency edges, written as the modules it visits. */
  ghost predicate IsChain(d: Deps, p: seq<Name>) {
    |p| > 0 && forall i :: 0 <= i < |p| - 1 ==> p[i + 1] in DepsOf(d, p[i])
  }

  ghost predicate Reaches(d: Deps, m: Name, x: Name) {
    exists p :: IsChain(d, p) && |p| >= 2 && p[0] == m && p[|p| - 1] == x
  }

  ghost predicate Distinct<T>(s: seq<T>) {
    forall i, j :: 0 <= i < j < |s| ==> s[i] != s[j]
  }

  ghost function Elements<T>(s: seq<T>): set<T> {
    set x | x in s
  }

  // ----- The dependency closure -----

  /** Every module that occurs as somebody's dependency. */
  ghost function Universe(d: Deps): set<Name> {
    set m, x | m in d && x in d[m] :: x
  }

  lemma StepReaches(d: Deps, m: Name, x: Name)
    requires x in DepsOf(d, m)
    ensures Reaches(d, m, x)
  {
    assert IsChain(d, [m, x]);
  }

  lemma StepThenReaches(d: Deps, m: Name, x: Name, y: Name)
    requires x in DepsOf(d, m) && Reaches(d, x, y)
    ensures Reaches(d, m, y)
  {
    var p :| IsChain(d, p) && |p| >= 2 && p[0] == x && p[|p| - 1] == y;
    assert IsChain(d, [m] + p);
  }

  lemma ReachesThenStep(d: Deps, m: Name, x: Name, y: Name)
    requires Reaches(d, m, x) && y in DepsOf(d, x)
    ensures Reaches(d, m, y)
  {
    var p :| IsChain(d, p) && |p| >= 2 && p[0] == m && p[|p| - 1] == x;
    assert IsChain(d, p + [y]);
  }

  /** A record that holds m's dependencies and everybody's dependencies holds all that m reaches. */
  lemma {:induction false} ClosedHoldsReachable(d: Deps, rec: seq<Name>, p: seq<Name>)
    requires IsChain(d, p) && |p| >= 2
    requires forall x :: x in DepsOf(d, p[0]) ==> x in rec
    requires forall y, x :: y in rec && x in DepsOf(d, y) ==> x in rec
    ensures p[|p| - 1] in rec
    decreases |p|
  {
    assert p[1] in rec;
    if |p| > 2 {
      ClosedHoldsReachable(d, rec, p[1..]);
    }
  }

  lemma PrefixKeeps<T>(a: seq<T>, b: seq<T>)
    requires a <= b
    ensures forall i :: 0 <= i < |a| ==> a[i] == b[i]
    ensures forall x :: x in a ==> x in b
  {
    forall x | x in a ensures x in b {
      var i :| 0 <= i < |a| && a[i] == x;
      assert b[i] == x;
    }
  }

  /** The new entries stay closed when an item is appended and then all that it reaches. */
  lemma StillClosed(d: Deps, from: nat, before: seq<Name>, item: Name, after: seq<Name>)
    requires before + [item] <= after && forall x :: x in before ==> x in after
    requires forall i, x :: from <= i < |before| && x in DepsOf(d, before[i]) ==> x in before
    requires forall x :: x in DepsOf(d, item) ==> x in after
    requires forall i, x :: |before| < i < |after| && x in DepsOf(d, after[i]) ==> x in after
    ensures forall i, x :: from <= i < |after| && x in DepsOf(d, after[i]) ==> x in after
  {
    assert after[|before|] == item;
    forall i, x | from <= i < |before| && x in DepsOf(d, after[i]) ensures x in after {
      assert x in DepsOf(d, before[i]);
    }
  }

  /** The list that get_module_all_dependencies appends to. */
  class Record {
    var items: seq<Name>

    constructor ()
      ensures items == []
    {
      items := [];
    }

    method GetAllDependencies(d: Deps, m: Name)
      requires Distinct(items)
      modifies this
      ensures old(items) <= items && Distinct(items)
      ensures forall x :: x in DepsOf(d, m) ==> x in items
      ensures forall i :: |old(items)| <= i < |items| ==> Reaches(d, m, items[i])
      ensures forall i, x :: |old(items)| <= i < |items| && x in DepsOf(d, items[i]) ==> x in items
      decreases Universe(d) - Elements(items)
    {
      var deps := DepsOf(d, m);
      for k := 0 to |deps|
        invariant old(items) <= items && Distinct(items)
        invariant forall x :: x in deps[..k] ==> x in items
        invariant forall i :: |old(items)| <= i < |items| ==> Reaches(d, m, items[i])
        invariant forall i, x :: |old(items)| <= i < |items| && x in DepsOf(d, items[i]) ==> x in items
      {
        var item := deps[k];
        if item !in items {
          ghost var before := items;
          items := items + [item];
          ghost var mid := items;
          StepReaches(d, m, item);
          assert item in Universe(d);
          assert item !in Elements(before);
          assert Elements(old(items)) <= Elements(before);
          assert item in Elements(items);
          GetAllDependencies(d, item);
          forall i | |mid| <= i < |items| ensures Reaches(d, m, items[i]) {
            StepThenReaches(d, m, item, items[i]);
          }
          PrefixKeeps(mid, items);
          PrefixKeeps(before, items);
          assert items[|before|] == item;
          StillClosed(d, |old(items)|, before, item, items);
        }
        assert forall x :: x in deps[..k + 1] ==> x in deps[..k] || x == item;
      }
    }

    /** Started empty, the record ends as a duplicate-free list of exactly what m reaches. */
    method Closure(d: Deps, m: Name)
      requires items == []
      modifies this
      ensures Distinct(items)
      ensures forall x :: x in items <==> Reaches(d, m, x)
    {
      GetAllDependencies(d, m);
      forall x | Reaches(d, m, x) ensures x in items {
        var p :| IsChain(d, p) && |p| >= 2 && p[0] == m && p[|p| - 1] == x;
        ClosedHoldsReachable(d, items, p);
      }
    }
  }

  // ----- Tree heights -----

  /** get_tree_height with `limit` interpreter frames left; None when the recursion runs out of frames. */
  function TreeHeight(m: Name, d: Deps, limit: nat): Option<nat>
    decreases limit, 0
  {
    if limit == 0 then None
    else if m !in d then Some(1)
    else
      match DepsHeight(d[m], d, limit - 1)
      case None => None
      case Some(h) => Some(h + 1)
  }

  /** The greatest height among ds, 0 for no dependencies. */
  function DepsHeight(ds: seq<Name>, d: Deps, limit: nat): Option<nat>
    decreases limit, |ds| + 1
  {
    if ds == [] then Some(0)
    else
      match (DepsHeight(ds[..|ds| - 1], d, limit), TreeHeight(ds[|ds| - 1], d, limit))
      case (Some(a), Some(b)) => Some(if a < b then b else a)
      case _ => None
  }

  lemma {:induction false} DepsHeightIsMax(ds: seq<Name>, d: Deps, limit: nat)
    ensures DepsHeight(ds, d, limit).None? <==> exists x :: x in ds && TreeHeight(x, d, limit).None?
    ensures DepsHeight(ds, d, limit).Some? ==>
              && (forall x :: x in ds ==> TreeHeight(x, d, limit).value <= DepsHeight(ds, d, limit).value)
              && (ds != [] ==> exists x :: x in ds && TreeHeight(x, d, limit) == DepsHeight(ds, d, limit))
    decreases |ds|
  {
    if ds != [] {
      var front, last := ds[..|ds| - 1], ds[|ds| - 1];
      DepsHeightIsMax(front, d, limit);
      assert forall x :: x in ds <==> x in front || x == last;
      TreeHeightPositive(last, d, limit);
    }
  }

  lemma TreeHeightPositive(m: Name, d: Deps, limit: nat)
    ensures TreeHeight(m, d, limit).Some? ==> TreeHeight(m, d, limit).value >= 1
  {
  }

  // The height is the node count of the longest dependency chain.

  lemma {:induction false} ChainsFitHeight(m: Name, d: Deps, limit: nat, p: seq<Name>)
    requires TreeHeight(m, d, limit).Some?
    requires IsChain(d, p) && p[0] == m
    ensures |p| <= TreeHeight(m, d, limit).value
    decreases limit
  {
    TreeHeightPositive(m, d, limit);
    if |p| >= 2 {
      assert p[0 + 1] in DepsOf(d, p[0]);
      DepsHeightIsMax(d[m], d, limit - 1);
      ChainsFitHeight(p[1], d, limit - 1, p[1..]);
    }
  }

  lemma {:induction false} HeightIsAttained(m: Name, d: Deps, limit: nat) returns (p: seq<Name>)
    requires TreeHeight(m, d, limit).Some?
    ensures IsChain(d, p) && p[0] == m && |p| == TreeHeight(m, d, limit).value
    decreases limit
  {
    p := [m];
    if m in d && d[m] != [] {
      DepsHeightIsMax(d[m], d, limit - 1);
      var x :| x in d[m] && TreeHeight(x, d, limit - 1) == DepsHeight(d[m], d, limit - 1);
      var q := HeightIsAttained(x, d, limit - 1);
      p := [m] + q;
    }
  }

  /** Running out of frames means a chain longer than the frames. */
  lemma {:induction false} OutOfFrames(m: Name, d: Deps, limit: nat) returns (p: seq<Name>)
    requires TreeHeight(m, d, limit).None?
    ensures IsChain(d, p) && p[0] == m && |p| == limit + 1
    decreases limit
  {
    p := [m];
    if limit > 0 {
      DepsHeightIsMax(d[m], d, limit - 1);
      var x :| x in d[m] && TreeHeight(x, d, limit - 1).None?;
      var q := OutOfFrames(x, d, limit - 1);
      p := [m] + q;
    }
  }

  /** An edge goes strictly down, and a height does not depend on the spare frames. */
  lemma {:induction false} MoreFramesSameHeight(m: Name, d: Deps, limit: nat, more: nat)
    requires TreeHeight(m, d, limit).Some? && limit <= more
    ensures TreeHeight(m, d, more) == TreeHeight(m, d, limit)
  {
    var p := HeightIsAttained(m, d, limit);
    if TreeHeight(m, d, more).None? {
      var q := OutOfFrames(m, d, more);
      ChainsFitHeight(m, d, limit, q);
      HeightWithinFrames(m, d, limit);
      assert false;
    } else {
      var q := HeightIsAttained(m, d, more);
      ChainsFitHeight(m, d, limit, q);
      ChainsFitHeight(m, d, more, p);
    }
  }

  lemma {:induction false} HeightWithinFrames(m: Name, d: Deps, limit: nat)
    requires TreeHeight(m, d, limit).Some?
    ensures 1 <= TreeHeight(m, d, limit).value <= limit
    decreases limit
  {
    if m in d && d[m] != [] {
      DepsHeightIsMax(d[m], d, limit - 1);
      var x :| x in d[m] && TreeHeight(x, d, limit - 1) == DepsHeight(d[m], d, limit - 1);
      HeightWithinFrames(x, d, limit - 1);
    }
  }

  lemma EdgeGoesDown(m: Name, x: Name, d: Deps, limit: nat)
    requires TreeHeight(m, d, limit).Some? && m in d && x in d[m]
    ensures TreeHeight(x, d, limit).Some?
    ensures TreeHeight(x, d, limit).value < TreeHeight(m, d, limit).value
  {
    DepsHeightIsMax(d[m], d, limit - 1);
    MoreFramesSameHeight(x, d, limit - 1, limit);
  }

  /** No walk from m comes back to a module it has already visited. */
  ghost predicate AcyclicFrom(d: Deps, m: Name) {
    forall p :: IsChain(d, p) && p[0] == m ==> Distinct(p)
  }

  lemma {:induction false} HeightsFallAlongChain(d: Deps, p: seq<Name>, i: nat, j: nat, limit: nat)
    requires IsChain(d, p) && i < j < |p|
    requires TreeHeight(p[i], d, limit).Some?
    ensures TreeHeight(p[j], d, limit).Some?
    ensures TreeHeight(p[j], d, limit).value < TreeHeight(p[i], d, limit).value
    decreases j
  {
    if i < j - 1 {
      HeightsFallAlongChain(d, p, i, j - 1, limit);
    }
    assert p[j - 1 + 1] in DepsOf(d, p[j - 1]);
    EdgeGoesDown(p[j - 1], p[j], d, limit);
  }

  lemma {:induction false} DistinctFits<T>(s: seq<T>, u: set<T>)
    requires Distinct(s) && forall x :: x in s ==> x in u
    ensures |s| <= |u|
    decreases |s|
  {
    if s != [] {
      var front, last := s[..|s| - 1], s[|s| - 1];
      forall x | x in front ensures x in u - {last} {
        assert x in s;
      }
      DistinctFits(front, u - {last});
      assert last in u;
    }
  }

  /** get_tree_height returns on m, given enough frames, exactly when no cycle is reachable from m. */
  lemma TerminatesIffAcyclic(m: Name, d: Deps)
    ensures AcyclicFrom(d, m) <==> TreeHeight(m, d, |d| + 1).Some?
    ensures (exists limit :: TreeHeight(m, d, limit).Some?) ==> AcyclicFrom(d, m)
  {
    forall limit, p | TreeHeight(m, d, limit).Some? && IsChain(d, p) && p[0] == m
      ensures Distinct(p)
    {
      forall i, j | 0 <= i < j < |p| ensures p[i] != p[j] {
        if i > 0 { HeightsFallAlongChain(d, p, 0, i, limit); }
        HeightsFallAlongChain(d, p, i, j, limit);
      }
    }
    if AcyclicFrom(d, m) && TreeHeight(m, d, |d| + 1).None? {
      var p := OutOfFrames(m, d, |d| + 1);
      forall x | x in p[..|d| + 1] ensures x in d.Keys {
        var i :| 0 <= i < |d| + 1 && p[i] == x;
        assert p[i + 1] in DepsOf(d, p[i]);
      }
      DistinctFits(p[..|d| + 1], d.Keys);
    }
  }
}
