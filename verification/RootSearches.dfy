/** The searches from several roots, which record into one list, and when that list is free of
    repeats.
 */
module RootSearches {
  import opened Sequences
  import opened TypeGraph
  import opened SimplePaths
  import opened UniqueRecords

  ghost predicate AreRoots(reg: Registry, roots: seq<TypeId>) {
    forall i :: 0 <= i < |roots| ==> roots[i] < |reg.types|
  }

  /** What the searches from several roots record. */
  ghost function RootRecords(reg: Registry, aggs: Aggregates, roots: seq<TypeId>): seq<Record>
    requires Valid(reg, aggs) && AreRoots(reg, roots)
  {
    if roots == [] then []
    else RootRecords(reg, aggs, roots[..|roots| - 1]) + Records(reg, aggs, roots[|roots| - 1], [], [])
  }

  lemma NoRoots(reg: Registry, aggs: Aggregates)
    requires Valid(reg, aggs)
    ensures RootRecords(reg, aggs, []) == []
  {
  }

  lemma RootRecordsNext(reg: Registry, aggs: Aggregates, roots: seq<TypeId>, i: nat)
    requires Valid(reg, aggs) && i < |roots| && AreRoots(reg, roots)
    ensures RootRecords(reg, aggs, roots[..i + 1])
         == RootRecords(reg, aggs, roots[..i]) + Records(reg, aggs, roots[i], [], [])
  {
    hide Records;
    assert roots[..i + 1][..i] == roots[..i];
  }

  lemma {:induction false} RootRecordsIn(reg: Registry, aggs: Aggregates, roots: seq<TypeId>, r: Record)
    requires Valid(reg, aggs) && AreRoots(reg, roots)
    ensures r in RootRecords(reg, aggs, roots) <==>
            exists i :: 0 <= i < |roots| && r in Records(reg, aggs, roots[i], [], [])
  {
    hide Records;
    if roots == [] {
    } else {
      var last := |roots| - 1;
      RootRecordsIn(reg, aggs, roots[..last], r);
      if r in RootRecords(reg, aggs, roots[..last]) {
        var i :| 0 <= i < last && r in Records(reg, aggs, roots[..last][i], [], []);
        assert r in Records(reg, aggs, roots[i], [], []);
      }
      if i :| 0 <= i < |roots| && r in Records(reg, aggs, roots[i], [], []) {
        assert i < last ==> roots[..last][i] == roots[i];
      }
    }
  }

  // ----- repeats

  /** The record of some simple path. */
  lemma RecordIn(reg: Registry, aggs: Aggregates, root: TypeId, r: Record)
    requires Valid(reg, aggs) && root < |reg.types|
    ensures r in Records(reg, aggs, root, [], []) <==>
            exists w :: IsSimplePath(reg, aggs, root, w) && RecordOf(reg, aggs, root, [], w) == r
  {
    hide Records, RecordOf, IsWalk;
    var walks := SearchRecordsSimplePaths(reg, aggs, root);
    var records := RecordsOf(reg, aggs, root, [], walks);
    if r in records {
      var k :| 0 <= k < |records| && records[k] == r;
      assert walks[k] in walks;
    }
    if w :| IsSimplePath(reg, aggs, root, w) && RecordOf(reg, aggs, root, [], w) == r {
      assert w in walks;
      var k :| 0 <= k < |walks| && walks[k] == w;
      assert records[k] == r;
    }
  }

  /** Simple paths from the two roots over edges of the same names, to the same type. */
  ghost predicate Meets(reg: Registry, aggs: Aggregates, r: TypeId, s: TypeId, a: Walk, b: Walk)
    requires Valid(reg, aggs) && r < |reg.types| && s < |reg.types|
  {
    && IsSimplePath(reg, aggs, r, a) && IsSimplePath(reg, aggs, s, b)
    && Names(reg, aggs, r, a) == Names(reg, aggs, s, b) && EndOf(reg, aggs, r, a) == EndOf(reg, aggs, s, b)
  }

  ghost predicate Meet(reg: Registry, aggs: Aggregates, r: TypeId, s: TypeId)
    requires Valid(reg, aggs) && r < |reg.types| && s < |reg.types|
  {
    exists a, b :: Meets(reg, aggs, r, s, a, b)
  }

  lemma MeetsIff(reg: Registry, aggs: Aggregates, r: TypeId, s: TypeId, a: Walk, b: Walk)
    requires Valid(reg, aggs) && r < |reg.types| && s < |reg.types| && PlainNames(reg)
    requires IsSimplePath(reg, aggs, r, a) && IsSimplePath(reg, aggs, s, b)
    ensures Meets(reg, aggs, r, s, a, b) <==> RecordOf(reg, aggs, r, [], a) == RecordOf(reg, aggs, s, [], b)
  {
    hide IsWalk, Visits, Names, EndOf, JoinPath, IsElement, PlainNames, Distinct;
    var p, q := Names(reg, aggs, r, a), Names(reg, aggs, s, b);
    assert [] + p == p && [] + q == q;
    EndIsLast(reg, aggs, r, a);
    EndIsLast(reg, aggs, s, b);
    PathElements(reg, aggs, r, a);
    PathElements(reg, aggs, s, b);
    if JoinPath(p) == JoinPath(q) { JoinInjective(p, q); }
  }

  /** Two searches record the same somewhere exactly if their paths meet. */
  lemma CommonIff(reg: Registry, aggs: Aggregates, r: TypeId, s: TypeId)
    requires Valid(reg, aggs) && r < |reg.types| && s < |reg.types| && PlainNames(reg)
    ensures Meet(reg, aggs, r, s) <==>
            exists x :: x in Records(reg, aggs, r, [], []) && x in Records(reg, aggs, s, [], [])
  {
    hide Records, RecordOf, Meets, IsWalk, PlainNames;
    if Meet(reg, aggs, r, s) {
      var a, b :| Meets(reg, aggs, r, s, a, b);
      MeetsPaths(reg, aggs, r, s, a, b);
      MeetsIff(reg, aggs, r, s, a, b);
      RecordIn(reg, aggs, r, RecordOf(reg, aggs, r, [], a));
      RecordIn(reg, aggs, s, RecordOf(reg, aggs, r, [], a));
    }
    if x :| x in Records(reg, aggs, r, [], []) && x in Records(reg, aggs, s, [], []) {
      RecordIn(reg, aggs, r, x);
      RecordIn(reg, aggs, s, x);
      var a :| IsSimplePath(reg, aggs, r, a) && RecordOf(reg, aggs, r, [], a) == x;
      var b :| IsSimplePath(reg, aggs, s, b) && RecordOf(reg, aggs, s, [], b) == x;
      MeetsIff(reg, aggs, r, s, a, b);
    }
  }

  lemma MeetsPaths(reg: Registry, aggs: Aggregates, r: TypeId, s: TypeId, a: Walk, b: Walk)
    requires Valid(reg, aggs) && r < |reg.types| && s < |reg.types| && Meets(reg, aggs, r, s, a, b)
    ensures IsSimplePath(reg, aggs, r, a) && IsSimplePath(reg, aggs, s, b)
  {
  }

  /** No search repeats a record of its own, and no two of them share one. */
  ghost predicate NoRepeats(reg: Registry, aggs: Aggregates, roots: seq<TypeId>)
    requires Valid(reg, aggs) && AreRoots(reg, roots)
  {
    && (forall i :: 0 <= i < |roots| ==> !HasFork(reg, aggs, roots[i]))
    && (forall i, j :: 0 <= i < j < |roots| ==> !Meet(reg, aggs, roots[i], roots[j]))
  }

  /** All records of all searches are different exactly if no simple path forks and the paths from
      no two roots, at different places of the list, meet. */
  lemma {:induction false} RootsDistinctIff(reg: Registry, aggs: Aggregates, roots: seq<TypeId>)
    requires Valid(reg, aggs) && AreRoots(reg, roots) && PlainNames(reg) && NamesTell(reg, aggs)
    ensures Distinct(RootRecords(reg, aggs, roots)) <==> NoRepeats(reg, aggs, roots)
  {
    hide Records, HasFork, Meet, PlainNames, NamesTell, Distinct;
    if roots == [] {
      NoneDistinct();
    } else {
      var last, front := |roots| - 1, roots[..|roots| - 1];
      var root, before := roots[last], RootRecords(reg, aggs, front);
      RootsDistinctIff(reg, aggs, front);
      OwnDistinct(reg, aggs, root);
      DistinctAppend(before, Records(reg, aggs, root, [], []));
      SharedIff(reg, aggs, front, root);
      NoRepeatsLast(reg, aggs, roots);
    }
  }

  lemma NoneDistinct()
    ensures Distinct<Record>([])
  {
  }

  lemma OwnDistinct(reg: Registry, aggs: Aggregates, root: TypeId)
    requires Valid(reg, aggs) && root < |reg.types| && PlainNames(reg) && NamesTell(reg, aggs)
    ensures Distinct(Records(reg, aggs, root, [], [])) <==> !HasFork(reg, aggs, root)
  {
    hide Records, HasFork, PlainNames, NamesTell, Distinct, RecordsOf, AreWalks, ListsSimplePaths;
    var walks := SearchRecordsSimplePaths(reg, aggs, root);
    RecordsDistinctIff(reg, aggs, root, walks);
  }

  lemma DistinctAppend<T>(a: seq<T>, b: seq<T>)
    ensures Distinct(a + b) <==> Distinct(a) && Distinct(b) && forall x :: x in a ==> x !in b
  {
    var all := a + b;
    assert forall i :: 0 <= i < |a| ==> all[i] == a[i];
    assert forall j :: 0 <= j < |b| ==> all[|a| + j] == b[j];
    if Distinct(all) {
      forall i, j | 0 <= i < j < |b| ensures b[i] != b[j] { assert all[|a| + i] != all[|a| + j]; }
      forall x | x in a ensures x !in b {
        var i :| 0 <= i < |a| && a[i] == x;
        assert forall j :: 0 <= j < |b| ==> all[i] != b[j];
      }
    } else if Distinct(a) && Distinct(b) {
      var i, j :| 0 <= i < j < |all| && all[i] == all[j];
      assert i < |a| <= j;
      assert a[i] in a && b[j - |a|] in b;
    }
  }

  lemma SharedIff(reg: Registry, aggs: Aggregates, front: seq<TypeId>, root: TypeId)
    requires Valid(reg, aggs) && AreRoots(reg, front) && root < |reg.types| && PlainNames(reg)
    ensures (forall x :: x in RootRecords(reg, aggs, front) ==> x !in Records(reg, aggs, root, [], []))
            <==> forall i :: 0 <= i < |front| ==> !Meet(reg, aggs, front[i], root)
  {
    hide Records, RootRecords, Meet, PlainNames;
    if x :| x in RootRecords(reg, aggs, front) && x in Records(reg, aggs, root, [], []) {
      RootRecordsIn(reg, aggs, front, x);
      var i :| 0 <= i < |front| && x in Records(reg, aggs, front[i], [], []);
      CommonIff(reg, aggs, front[i], root);
    }
    if i :| 0 <= i < |front| && Meet(reg, aggs, front[i], root) {
      CommonIff(reg, aggs, front[i], root);
      var x :| x in Records(reg, aggs, front[i], [], []) && x in Records(reg, aggs, root, [], []);
      RootRecordsIn(reg, aggs, front, x);
    }
  }

  lemma NoRepeatsLast(reg: Registry, aggs: Aggregates, roots: seq<TypeId>)
    requires Valid(reg, aggs) && AreRoots(reg, roots) && roots != []
    ensures var last := |roots| - 1;
      NoRepeats(reg, aggs, roots) <==>
        && NoRepeats(reg, aggs, roots[..last]) && !HasFork(reg, aggs, roots[last])
        && forall i :: 0 <= i < last ==> !Meet(reg, aggs, roots[..last][i], roots[last])
  {
    hide HasFork, Meet;
    var last := |roots| - 1;
    assert forall i :: 0 <= i < last ==> roots[..last][i] == roots[i];
  }

  // ----- the smallest repeat between searches

  const ONE_TYPE: Registry := Registry([TypeInfo("A", [])], {}, 1)

  /** One type without edges, searched from twice: no path forks, and both searches record it. */
  lemma SameRootTwice()
    ensures Valid(ONE_TYPE, []) && !HasFork(ONE_TYPE, [], 0)
    ensures RootRecords(ONE_TYPE, [], [0, 0]) == [(0, ""), (0, "")]
  {
    var reg, aggs: Aggregates := ONE_TYPE, [];
    assert ChildEdges(reg, 0, 0) == [] && ChildEdges(reg, 0, 1) == [];
    assert Edges(reg, aggs, 0) == [];
    assert Records(reg, aggs, 0, [], []) == [(0, "")];
    var one, two: seq<TypeId> := [0], [0, 0];
    assert one[..0] == [] && two[..1] == one;
    assert RootRecords(reg, aggs, one) == [(0, "")];
    forall w, i, j ensures !Forks(reg, aggs, 0, w, i, j) {
      if IsSimplePath(reg, aggs, 0, w) && w == [] { assert EndOf(reg, aggs, 0, w) == 0; }
    }
  }
}
