/** The class StaticInformation of utils/print-introspected-doxygen.cc: the recursive gathering of
    configuration paths, with the member vectors it pushes to and pops from.
 */
module StaticInformationModel {
  import opened Sequences
  import opened TypeGraph
  import opened SimplePaths
  import opened UniqueRecords
  import opened RootSearches

  /** The registered type with a given name, as TypeId::LookupByNameFailSafe finds it. */
  predicate IsNamed(reg: Registry, tid: TypeId, name: string) {
    tid < |reg.types| && reg.types[tid].name == name
  }

  /** The recorded paths of one type, in the order in which they were recorded. */
  function PathsOf(records: seq<Record>, tid: TypeId): seq<string> {
    if records == [] then []
    else
      var i := |records| - 1;
      PathsOf(records[..i], tid) + (if records[i].0 == tid then [records[i].1] else [])
  }

  /** The paths of a type are those of its records, all of them and in their order. */
  lemma {:induction false} PathsInOrder(records: seq<Record>, tid: TypeId) returns (at: seq<nat>)
    ensures |at| == |PathsOf(records, tid)|
    ensures forall k :: 0 <= k < |at| ==> at[k] < |records| && records[at[k]] == (tid, PathsOf(records, tid)[k])
    ensures forall k, l :: 0 <= k < l < |at| ==> at[k] < at[l]
    ensures forall r :: 0 <= r < |records| && records[r].0 == tid ==> r in at
  {
    if records == [] {
      at := [];
    } else {
      var i, front := |records| - 1, records[..|records| - 1];
      var paths, last := PathsOf(front, tid), if records[i].0 == tid then [records[i].1] else [];
      at := PathsInOrder(front, tid);
      assert PathsOf(records, tid) == paths + last && forall k :: 0 <= k < i ==> front[k] == records[k];
      hide PathsOf;
      if records[i].0 == tid { at := at + [i]; }
    }
  }

  lemma Regroup<T>(a: seq<T>, b: seq<T>, c: seq<T>, d: seq<T>, e: seq<T>)
    ensures a + b + c + d + e == a + (b + c + d + e)
  {
  }

  class StaticInformation {
    const reg: Registry
    var output: seq<Record>
    var currentPath: seq<string>
    var alreadyProcessed: seq<TypeId>
    var aggregates: Aggregates
    var noTids: seq<string>

    constructor (reg: Registry)
      requires TypeGraph.Valid(reg, [])
      ensures this.reg == reg && Valid() && AtRest()
      ensures output == [] && aggregates == [] && noTids == []
    {
      this.reg := reg;
      output, currentPath, alreadyProcessed, aggregates, noTids := [], [], [], [], [];
    }

    /** The stack holds registered types, none twice, and one path element for each. */
    ghost predicate Valid()
      reads this
    {
      && TypeGraph.Valid(reg, aggregates)
      && |currentPath| == |alreadyProcessed|
      && Distinct(alreadyProcessed)
    }

    /** Between two calls of Gather both stacks are empty. */
    predicate AtRest()
      reads this
    {
      currentPath == [] && alreadyProcessed == []
    }

    method LookupByName(name: string) returns (found: bool, tid: TypeId)
      ensures found ==> IsNamed(reg, tid, name)
      ensures !found ==> forall t :: 0 <= t < |reg.types| ==> !IsNamed(reg, t, name)
    {
      found, tid := false, 0;
      for t := 0 to |reg.types|
        invariant forall u :: 0 <= u < t ==> !IsNamed(reg, u, name)
      {
        if reg.types[t].name == name {
          return true, t;
        }
      }
    }

    /** Records a -> b when both types are registered, and otherwise notes the first name that
        is not. */
    method RecordAggregationInfo(a: string, b: string)
      requires Valid()
      modifies this`aggregates, this`noTids
      ensures Valid()
      ensures noTids == old(noTids) + Noted(reg, a, b)
      ensures Noted(reg, a, b) != [] ==> aggregates == old(aggregates)
      ensures Noted(reg, a, b) == [] ==>
        exists t, u :: IsNamed(reg, t, a) && IsNamed(reg, u, b) && aggregates == old(aggregates) + [(t, u)]
      ensures (forall t :: !IsNamed(reg, t, a)) ==> noTids == old(noTids) + [a]
      ensures (exists t :: IsNamed(reg, t, a)) && (forall t :: !IsNamed(reg, t, b)) ==> noTids == old(noTids) + [b]
      ensures (exists t :: IsNamed(reg, t, a)) && (exists t :: IsNamed(reg, t, b)) ==> noTids == old(noTids)
    {
      var found, aTid := LookupByName(a);
      if !found {
        noTids := noTids + [a];
        return;
      }
      var bTid;
      found, bTid := LookupByName(b);
      if !found {
        noTids := noTids + [b];
        return;
      }
      aggregates := aggregates + [(aTid, bTid)];
    }

    /** The list of statements that record aggregations. The unknown names are made unique only
        in a copy. */
    method RecordAll(pairs: seq<(string, string)>)
      requires Valid()
      modifies this`aggregates, this`noTids
      ensures Valid()
      ensures noTids == old(noTids) + NotedAll(reg, pairs)
      ensures old(aggregates) <= aggregates
      ensures AreNamed(reg, aggregates[|old(aggregates)|..], RecordedAll(reg, pairs))
    {
      hide Noted, IsNamed, AreNamed, RecordedAll;
      NothingRecorded(reg);
      assert pairs[..0] == [] && aggregates[|aggregates|..] == [];
      for i := 0 to |pairs|
        invariant Valid() && noTids == old(noTids) + NotedAll(reg, pairs[..i])
        invariant old(aggregates) <= aggregates
        invariant AreNamed(reg, aggregates[|old(aggregates)|..], RecordedAll(reg, pairs[..i]))
      {
        ghost var before := aggregates;
        RecordAggregationInfo(pairs[i].0, pairs[i].1);
        assert pairs[..i + 1][..i] == pairs[..i];
        OneStatement(reg, old(aggregates), before, aggregates, pairs, i);
      }
      assert pairs[..|pairs|] == pairs;
    }

    method GetCurrentPath() returns (path: string)
      ensures path == JoinPath(currentPath)
    {
      path := "";
      for i := 0 to |currentPath|
        invariant path == JoinPath(currentPath[..i])
      {
        assert currentPath[..i + 1][..i] == currentPath[..i];
        path := path + "/" + currentPath[i];
      }
      assert currentPath[..|currentPath|] == currentPath;
    }

    method RecordOutput(tid: TypeId)
      modifies this`output
      ensures output == old(output) + [(tid, JoinPath(currentPath))]
      ensures Valid() <==> old(Valid())
    {
      var path := GetCurrentPath();
      output := output + [(tid, path)];
    }

    method HasAlreadyBeenProcessed(tid: TypeId) returns (found: bool)
      ensures found <==> tid in alreadyProcessed
    {
      found := false;
      for i := 0 to |alreadyProcessed|
        invariant tid !in alreadyProcessed[..i]
      {
        if alreadyProcessed[i] == tid {
          return true;
        }
      }
    }

    /** All recorded paths of `tid`. */
    method Get(tid: TypeId) returns (paths: seq<string>)
      ensures paths == PathsOf(output, tid)
    {
      paths := [];
      for i := 0 to |output|
        invariant paths == PathsOf(output[..i], tid)
      {
        assert output[..i + 1][..i] == output[..i];
        if output[i].0 == tid {
          paths := paths + [output[i].1];
        }
      }
      assert output[..|output|] == output;
    }

    /** One recursive call, between the pushes and the pops. */
    method Follow(tid: TypeId, name: string, target: TypeId)
      requires Valid() && tid < |reg.types| && target < |reg.types| && tid !in alreadyProcessed
      modifies this`output, this`currentPath, this`alreadyProcessed
      ensures Valid()
      ensures currentPath == old(currentPath) && alreadyProcessed == old(alreadyProcessed)
      ensures output == old(output)
        + Records(reg, aggregates, target, alreadyProcessed + [tid], currentPath + [name])
      decreases |Unvisited(reg, alreadyProcessed)|, 0
    {
      UnvisitedShrinks(reg, alreadyProcessed, tid);
      currentPath := currentPath + [name];
      alreadyProcessed := alreadyProcessed + [tid];
      DoGather(target);
      alreadyProcessed := alreadyProcessed[..|alreadyProcessed| - 1];
      currentPath := currentPath[..|currentPath| - 1];
    }

    /** The first loop of DoGather: pointers to objects, and object vectors. */
    method GatherAttributes(tid: TypeId)
      requires Valid() && tid < |reg.types| && tid !in alreadyProcessed
      modifies this`output, this`currentPath, this`alreadyProcessed
      ensures Valid()
      ensures currentPath == old(currentPath) && alreadyProcessed == old(alreadyProcessed)
      ensures Registered(reg, AttributeEdges(reg, reg.types[tid].attributes))
      ensures output == old(output) + EdgeRecords(reg, aggregates, AttributeEdges(reg, reg.types[tid].attributes),
                                                  alreadyProcessed + [tid], currentPath)
      decreases |Unvisited(reg, alreadyProcessed)|, 1
    {
      hide Records, EdgeRecords;
      ghost var stack := alreadyProcessed + [tid];
      NoEdgeRecords(reg, aggregates, stack, currentPath);
      var attributes := reg.types[tid].attributes;
      for i := 0 to |attributes|
        invariant Valid() && currentPath == old(currentPath) && alreadyProcessed == old(alreadyProcessed)
        invariant Registered(reg, AttributeEdges(reg, attributes[..i]))
        invariant output == old(output)
          + EdgeRecords(reg, aggregates, AttributeEdges(reg, attributes[..i]), stack, currentPath)
      {
        assert ValidAttribute(reg, attributes[i]);
        AttributeStep(reg, aggregates, attributes, i, stack, currentPath);
        match attributes[i] {
          case Pointer(name, pointee) =>
            if reg.objectId == pointee {
              continue;
            }
            Follow(tid, name, pointee);
          case Container(name, item) =>
            Follow(tid, name + "/[i]", item);
          case Other(_) =>
        }
      }
      assert attributes[..|attributes|] == attributes;
    }

    /** The second loop: the subclasses among the registered types. */
    method GatherChildren(tid: TypeId)
      requires Valid() && tid < |reg.types| && tid !in alreadyProcessed
      modifies this`output, this`currentPath, this`alreadyProcessed
      ensures Valid()
      ensures currentPath == old(currentPath) && alreadyProcessed == old(alreadyProcessed)
      ensures Registered(reg, ChildEdges(reg, tid, |reg.types|))
      ensures output == old(output) + EdgeRecords(reg, aggregates, ChildEdges(reg, tid, |reg.types|),
                                                  alreadyProcessed + [tid], currentPath)
      decreases |Unvisited(reg, alreadyProcessed)|, 1
    {
      hide Records, EdgeRecords;
      ghost var stack := alreadyProcessed + [tid];
      NoEdgeRecords(reg, aggregates, stack, currentPath);
      for child := 0 to |reg.types|
        invariant Valid() && currentPath == old(currentPath) && alreadyProcessed == old(alreadyProcessed)
        invariant Registered(reg, ChildEdges(reg, tid, child))
        invariant output == old(output) + EdgeRecords(reg, aggregates, ChildEdges(reg, tid, child), stack, currentPath)
      {
        ChildStep(reg, aggregates, tid, child, stack, currentPath);
        if (child, tid) in reg.childOf {
          Follow(tid, "$" + reg.types[child].name, child);
        }
      }
    }

    /** The third loop: the aggregations, from either end. */
    method GatherAggregates(tid: TypeId)
      requires Valid() && tid < |reg.types| && tid !in alreadyProcessed
      modifies this`output, this`currentPath, this`alreadyProcessed
      ensures Valid()
      ensures currentPath == old(currentPath) && alreadyProcessed == old(alreadyProcessed)
      ensures Registered(reg, AggregateEdges(reg, tid, aggregates))
      ensures output == old(output) + EdgeRecords(reg, aggregates, AggregateEdges(reg, tid, aggregates),
                                                  alreadyProcessed + [tid], currentPath)
      decreases |Unvisited(reg, alreadyProcessed)|, 1
    {
      hide Records, EdgeRecords;
      ghost var stack := alreadyProcessed + [tid];
      NoEdgeRecords(reg, aggregates, stack, currentPath);
      for i := 0 to |aggregates|
        invariant Valid() && currentPath == old(currentPath) && alreadyProcessed == old(alreadyProcessed)
        invariant Registered(reg, AggregateEdges(reg, tid, aggregates[..i]))
        invariant output == old(output)
          + EdgeRecords(reg, aggregates, AggregateEdges(reg, tid, aggregates[..i]), stack, currentPath)
      {
        var item := aggregates[i];
        AggregateStep(reg, aggregates, tid, i, stack, currentPath);
        if item.0 == tid || item.1 == tid {
          var other := 0;
          if item.0 == tid {
            other := item.1;
          }
          if item.1 == tid {
            other := item.0;
          }
          Follow(tid, "$" + reg.types[other].name, other);
        }
      }
      assert aggregates[..|aggregates|] == aggregates;
    }

    /** Records `tid` and everything reached from it, and leaves both stacks as they were. */
    method DoGather(tid: TypeId)
      requires Valid() && tid < |reg.types|
      modifies this`output, this`currentPath, this`alreadyProcessed
      ensures Valid()
      ensures currentPath == old(currentPath) && alreadyProcessed == old(alreadyProcessed)
      ensures output == old(output) + Records(reg, aggregates, tid, alreadyProcessed, currentPath)
      decreases |Unvisited(reg, alreadyProcessed)|, 2
    {
      var done := HasAlreadyBeenProcessed(tid);
      if done {
        return;
      }
      hide *;
      RecordOutput(tid);
      GatherAttributes(tid);
      GatherChildren(tid);
      GatherAggregates(tid);
      ghost var stack, path := alreadyProcessed + [tid], currentPath;
      RecordsByGroup(reg, aggregates, tid, alreadyProcessed, path);
      Regroup(old(output), [(tid, JoinPath(path))],
              EdgeRecords(reg, aggregates, AttributeEdges(reg, reg.types[tid].attributes), stack, path),
              EdgeRecords(reg, aggregates, ChildEdges(reg, tid, |reg.types|), stack, path),
              EdgeRecords(reg, aggregates, AggregateEdges(reg, tid, aggregates), stack, path));
    }

    /** Gather, called between searches: the records added are those of the simple paths from
        `tid`. Uniquefy works on a copy of the records, so it changes nothing here: the list stays
        free of repeats exactly if no simple path forks and no record was there before. */
    method Gather(tid: TypeId) returns (ghost walks: seq<Walk>)
      requires Valid() && AtRest() && tid < |reg.types|
      modifies this`output, this`currentPath, this`alreadyProcessed
      ensures Valid() && AtRest()
      ensures ListsSimplePaths(reg, aggregates, tid, walks) && AreWalks(reg, aggregates, tid, walks)
      ensures output == old(output) + RecordsOf(reg, aggregates, tid, [], walks)
      ensures RecordsOf(reg, aggregates, tid, [], walks) == Records(reg, aggregates, tid, [], [])
      ensures PlainNames(reg) && NamesTell(reg, aggregates) ==>
        (Distinct(output) <==> Distinct(old(output)) && !HasFork(reg, aggregates, tid)
                               && forall x :: x in old(output) ==> x !in Records(reg, aggregates, tid, [], []))
    {
      hide Records, RecordsOf, ListsSimplePaths, AreWalks, PlainNames, NamesTell, HasFork, Distinct;
      DoGather(tid);
      walks := SearchRecordsSimplePaths(reg, aggregates, tid);
      DistinctAppend(old(output), Records(reg, aggregates, tid, [], []));
      if PlainNames(reg) && NamesTell(reg, aggregates) { RecordsDistinctIff(reg, aggregates, tid, walks); }
    }

    /** The root objects of the configuration namespace, searched one after the other. The whole
        list of records, which nothing makes unique, is free of repeats exactly if no simple path
        forks and the paths from no two roots meet. */
    method GatherRoots(roots: seq<TypeId>)
      requires Valid() && AtRest() && AreRoots(reg, roots)
      modifies this`output, this`currentPath, this`alreadyProcessed
      ensures Valid() && AtRest()
      ensures output == old(output) + RootRecords(reg, aggregates, roots)
      ensures old(output) == [] && PlainNames(reg) && NamesTell(reg, aggregates) ==>
        (Distinct(output) <==> NoRepeats(reg, aggregates, roots))
    {
      hide Records, RecordsOf, ListsSimplePaths, AreWalks;
      hide PlainNames, NamesTell, HasFork, RootRecords, NoRepeats, Distinct;
      NoRoots(reg, aggregates);
      assert roots[..0] == [];
      for i := 0 to |roots|
        invariant Valid() && AtRest()
        invariant output == old(output) + RootRecords(reg, aggregates, roots[..i])
      {
        RootRecordsNext(reg, aggregates, roots, i);
        ghost var before := output;
        ghost var walks := Gather(roots[i]);
        assert output == before + Records(reg, aggregates, roots[i], [], []);
      }
      assert roots[..|roots|] == roots;
      assert old(output) == [] ==> output == RootRecords(reg, aggregates, roots);
      if PlainNames(reg) && NamesTell(reg, aggregates) { RootsDistinctIff(reg, aggregates, roots); }
    }
  }

  /** Get(tid) after the searches from all roots: the paths returned are exactly the joined names
      along the simple paths from any of the roots to `tid`. */
  lemma PathsOfRoots(reg: Registry, aggs: Aggregates, roots: seq<TypeId>, tid: TypeId, p: string)
    requires TypeGraph.Valid(reg, aggs) && AreRoots(reg, roots)
    ensures p in PathsOf(RootRecords(reg, aggs, roots), tid) <==>
            exists i, w :: 0 <= i < |roots| && IsSimplePath(reg, aggs, roots[i], w)
                           && RecordOf(reg, aggs, roots[i], [], w) == (tid, p)
  {
    hide Records, RecordOf, IsWalk, RootRecords, PathsOf;
    PathsOfIff(RootRecords(reg, aggs, roots), tid, p);
    RootRecordsIn(reg, aggs, roots, (tid, p));
    forall i | 0 <= i < |roots|
      ensures (tid, p) in Records(reg, aggs, roots[i], [], []) <==>
              exists w :: IsSimplePath(reg, aggs, roots[i], w) && RecordOf(reg, aggs, roots[i], [], w) == (tid, p)
    {
      var walks := SearchRecordsSimplePaths(reg, aggs, roots[i]);
      PathsOfSearch(reg, aggs, roots[i], tid, p, walks);
      PathsOfIff(RecordsOf(reg, aggs, roots[i], [], walks), tid, p);
    }
  }

  // ----- unknown names

  predicate Known(reg: Registry, name: string) {
    exists t :: 0 <= t < |reg.types| && IsNamed(reg, t, name)
  }

  /** What one statement adds to the list of unknown names. */
  function Noted(reg: Registry, a: string, b: string): seq<string> {
    if !Known(reg, a) then [a] else if !Known(reg, b) then [b] else []
  }

  function NotedAll(reg: Registry, pairs: seq<(string, string)>): seq<string> {
    if pairs == [] then []
    else
      var i := |pairs| - 1;
      NotedAll(reg, pairs[..i]) + Noted(reg, pairs[i].0, pairs[i].1)
  }

  /** The statements that record their pair. */
  function RecordedAll(reg: Registry, pairs: seq<(string, string)>): seq<(string, string)> {
    if pairs == [] then []
    else
      var i := |pairs| - 1;
      RecordedAll(reg, pairs[..i]) + (if Noted(reg, pairs[i].0, pairs[i].1) == [] then [pairs[i]] else [])
  }

  /** One recorded aggregation for each of the pairs, in order, of types with these names. */
  ghost predicate AreNamed(reg: Registry, aggs: Aggregates, pairs: seq<(string, string)>) {
    && |aggs| == |pairs|
    && forall k :: 0 <= k < |aggs| ==> IsNamed(reg, aggs[k].0, pairs[k].0) && IsNamed(reg, aggs[k].1, pairs[k].1)
  }

  lemma NothingRecorded(reg: Registry)
    ensures AreNamed(reg, [], RecordedAll(reg, []))
  {
  }

  lemma OneStatement(reg: Registry, start: Aggregates, before: Aggregates, after: Aggregates,
                     pairs: seq<(string, string)>, i: nat)
    requires i < |pairs| && start <= before
    requires AreNamed(reg, before[|start|..], RecordedAll(reg, pairs[..i]))
    requires Noted(reg, pairs[i].0, pairs[i].1) != [] ==> after == before
    requires Noted(reg, pairs[i].0, pairs[i].1) == [] ==>
      exists t, u :: IsNamed(reg, t, pairs[i].0) && IsNamed(reg, u, pairs[i].1) && after == before + [(t, u)]
    ensures start <= after && AreNamed(reg, after[|start|..], RecordedAll(reg, pairs[..i + 1]))
  {
    hide Noted, IsNamed;
    assert pairs[..i + 1][..i] == pairs[..i];
    if Noted(reg, pairs[i].0, pairs[i].1) == [] {
      var t, u :| IsNamed(reg, t, pairs[i].0) && IsNamed(reg, u, pairs[i].1) && after == before + [(t, u)];
      assert after[|start|..] == before[|start|..] + [(t, u)];
    }
  }

  ghost predicate Notes(reg: Registry, pairs: seq<(string, string)>, p: nat, x: string)
    requires p < |pairs|
  {
    Noted(reg, pairs[p].0, pairs[p].1) == [x]
  }

  lemma {:induction false} NotedIn(reg: Registry, pairs: seq<(string, string)>, x: string)
    ensures x in NotedAll(reg, pairs) <==> exists p :: 0 <= p < |pairs| && Notes(reg, pairs, p, x)
  {
    hide Noted;
    if pairs == [] {
    } else {
      var i, front := |pairs| - 1, pairs[..|pairs| - 1];
      NotedIn(reg, front, x);
      NotedOne(reg, pairs[i].0, pairs[i].1);
      if x in NotedAll(reg, front) {
        var p :| 0 <= p < i && Notes(reg, front, p, x);
        assert Notes(reg, pairs, p, x);
      } else if x in Noted(reg, pairs[i].0, pairs[i].1) {
        assert Notes(reg, pairs, i, x);
      }
      if p :| 0 <= p < |pairs| && Notes(reg, pairs, p, x) {
        if p < i { assert Notes(reg, front, p, x); }
      }
    }
  }

  lemma NotedOne(reg: Registry, a: string, b: string)
    ensures |Noted(reg, a, b)| <= 1
  {
  }

  /** The list of unknown names holds a repeat exactly if two statements noted the same name. */
  lemma {:induction false} NotedTwiceIff(reg: Registry, pairs: seq<(string, string)>)
    ensures !Distinct(NotedAll(reg, pairs)) <==>
            exists p, q, x :: 0 <= p < q < |pairs| && Notes(reg, pairs, p, x) && Notes(reg, pairs, q, x)
  {
    hide Noted;
    if pairs == [] {
    } else {
      var i, front := |pairs| - 1, pairs[..|pairs| - 1];
      var names, last := NotedAll(reg, front), Noted(reg, pairs[i].0, pairs[i].1);
      NotedTwiceIff(reg, front);
      NotedOne(reg, pairs[i].0, pairs[i].1);
      assert forall p, x :: 0 <= p < i ==> Notes(reg, front, p, x) == Notes(reg, pairs, p, x);
      if last == [] {
        assert NotedAll(reg, pairs) == names;
      } else {
        var x := last[0];
        NotedIn(reg, front, x);
        AppendDistinct(names, x);
        assert last == [x] && Notes(reg, pairs, i, x);
        assert forall y :: Notes(reg, pairs, i, y) ==> y == x;
      }
    }
  }

  /** A known name, and an unknown one recorded twice with it. */
  lemma UnknownTwice()
    ensures var reg, unknown := Registry([TypeInfo("ns3::Node", [])], {}, 1), "ns3::Icmpv4L4Protocol";
      NotedAll(reg, [("ns3::Node", unknown), ("ns3::Node", unknown)]) == [unknown, unknown]
  {
    var reg := Registry([TypeInfo("ns3::Node", [])], {}, 1);
    var known, unknown := "ns3::Node", "ns3::Icmpv4L4Protocol";
    assert IsNamed(reg, 0, known) && |known| != |unknown|;
    var one, two := [(known, unknown)], [(known, unknown), (known, unknown)];
    assert Noted(reg, known, unknown) == [unknown];
    assert one[..0] == [] && two[..1] == one;
    assert NotedAll(reg, one) == [unknown];
  }

  lemma AppendDistinct(names: seq<string>, x: string)
    ensures Distinct(names + [x]) <==> Distinct(names) && x !in names
  {
    var all := names + [x];
    assert all[|names|] == x && forall i :: 0 <= i < |names| ==> all[i] == names[i];
  }

  /** Get(tid) after one Gather(root): the paths returned are exactly the joined names along
      the simple paths from the root to `tid`. */
  lemma PathsOfSearch(reg: Registry, aggs: Aggregates, root: TypeId, tid: TypeId, p: string, walks: seq<Walk>)
    requires TypeGraph.Valid(reg, aggs) && root < |reg.types|
    requires ListsSimplePaths(reg, aggs, root, walks) && AreWalks(reg, aggs, root, walks)
    ensures p in PathsOf(RecordsOf(reg, aggs, root, [], walks), tid) <==>
            exists w :: IsSimplePath(reg, aggs, root, w) && RecordOf(reg, aggs, root, [], w) == (tid, p)
  {
    hide PathsOf, IsSimplePath, RecordOf, IsWalk;
    var records := RecordsOf(reg, aggs, root, [], walks);
    PathsOfIff(records, tid, p);
    if (tid, p) in records {
      var k :| 0 <= k < |records| && records[k] == (tid, p);
      assert walks[k] in walks;
    }
    if w :| IsSimplePath(reg, aggs, root, w) && RecordOf(reg, aggs, root, [], w) == (tid, p) {
      assert w in walks;
      var k :| 0 <= k < |walks| && walks[k] == w;
      assert records[k] == (tid, p);
    }
  }

  lemma {:induction false} PathsOfIff(records: seq<Record>, tid: TypeId, p: string)
    ensures p in PathsOf(records, tid) <==> (tid, p) in records
  {
    if records == [] {
    } else {
      var i := |records| - 1;
      PathsOfIff(records[..i], tid, p);
      assert (tid, p) in records <==> (tid, p) in records[..i] || (tid, p) == records[i];
    }
  }
}
