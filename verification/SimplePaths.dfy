/** The depth-first search enumerates the simple paths of the type graph: each exactly once, and
    in lexicographic order of the edges chosen.
 */
module SimplePaths {
  import opened Sequences
  import opened TypeGraph

  /** A walk is the sequence of the positions of the edges it takes, each among the edges of
      the type reached so far. */
  type Walk = seq<nat>

  ghost predicate IsWalk(reg: Registry, aggs: Aggregates, tid: TypeId, w: Walk)
    requires Valid(reg, aggs) && tid < |reg.types|
    decreases |w|
  {
    w == [] ||
    (EdgesRegistered(reg, aggs, tid);
     w[0] < |Edges(reg, aggs, tid)| && IsWalk(reg, aggs, Edges(reg, aggs, tid)[w[0]].target, w[1..]))
  }

  /** The types a walk visits, from its start to its end. */
  ghost function Visits(reg: Registry, aggs: Aggregates, tid: TypeId, w: Walk): seq<TypeId>
    requires Valid(reg, aggs) && tid < |reg.types| && IsWalk(reg, aggs, tid, w)
    decreases |w|
  {
    EdgesRegistered(reg, aggs, tid);
    [tid] + if w == [] then [] else Visits(reg, aggs, Edges(reg, aggs, tid)[w[0]].target, w[1..])
  }

  ghost function Names(reg: Registry, aggs: Aggregates, tid: TypeId, w: Walk): seq<string>
    requires Valid(reg, aggs) && tid < |reg.types| && IsWalk(reg, aggs, tid, w)
    decreases |w|
  {
    EdgesRegistered(reg, aggs, tid);
    if w == [] then []
    else [Edges(reg, aggs, tid)[w[0]].name] + Names(reg, aggs, Edges(reg, aggs, tid)[w[0]].target, w[1..])
  }

  ghost predicate Avoids<T>(s: seq<T>, t: seq<T>) {
    forall i :: 0 <= i < |s| ==> s[i] !in t
  }

  /** A walk that visits no type twice. */
  ghost predicate IsSimplePath(reg: Registry, aggs: Aggregates, root: TypeId, w: Walk)
    requires Valid(reg, aggs) && root < |reg.types|
  {
    IsWalk(reg, aggs, root, w) && Distinct(Visits(reg, aggs, root, w))
  }

  // ----- the enumeration behind the search

  function Prefix(i: nat, walks: seq<Walk>): seq<Walk> {
    seq(|walks|, k requires 0 <= k < |walks| => [i] + walks[k])
  }

  ghost function Enumerate(reg: Registry, aggs: Aggregates, tid: TypeId, stack: seq<TypeId>): seq<Walk>
    requires Valid(reg, aggs) && tid < |reg.types|
    decreases |Unvisited(reg, stack)|, 0
  {
    if tid in stack then []
    else
      EdgesRegistered(reg, aggs, tid);
      UnvisitedShrinks(reg, stack, tid);
      [[]] + EnumerateEdges(reg, aggs, Edges(reg, aggs, tid), stack + [tid])
  }

  ghost function EnumerateEdges(reg: Registry, aggs: Aggregates, edges: seq<Edge>, stack: seq<TypeId>): seq<Walk>
    requires Valid(reg, aggs) && Registered(reg, edges)
    decreases |Unvisited(reg, stack)|, 1 + |edges|
  {
    if edges == [] then []
    else
      var i := |edges| - 1;
      EnumerateEdges(reg, aggs, edges[..i], stack) + Prefix(i, Enumerate(reg, aggs, edges[i].target, stack))
  }

  // ----- exactly the simple paths

  /** The enumeration with a given stack holds exactly the simple paths that avoid the stack. */
  lemma {:induction false} EnumerateIff(reg: Registry, aggs: Aggregates, tid: TypeId, stack: seq<TypeId>, w: Walk)
    requires Valid(reg, aggs) && tid < |reg.types|
    ensures w in Enumerate(reg, aggs, tid, stack) <==>
            IsSimplePath(reg, aggs, tid, w) && Avoids(Visits(reg, aggs, tid, w), stack)
    decreases |Unvisited(reg, stack)|, 0
  {
    EdgesRegistered(reg, aggs, tid);
    var edges := Edges(reg, aggs, tid);
    if tid !in stack {
      UnvisitedShrinks(reg, stack, tid);
      EnumerateEdgesIff(reg, aggs, edges, stack + [tid], w);
      if w != [] && w[0] < |edges| && IsWalk(reg, aggs, edges[w[0]].target, w[1..]) {
        VisitsSimple(tid, Visits(reg, aggs, edges[w[0]].target, w[1..]), stack);
      }
    } else if IsWalk(reg, aggs, tid, w) {
      assert Visits(reg, aggs, tid, w)[0] == tid;
    }
  }

  lemma VisitsSimple(tid: TypeId, rest: seq<TypeId>, stack: seq<TypeId>)
    requires tid !in stack
    ensures Distinct([tid] + rest) && Avoids([tid] + rest, stack) <==> Distinct(rest) && Avoids(rest, stack + [tid])
  {
    var all := [tid] + rest;
    assert all[1..] == rest;
    if Distinct(all) && Avoids(all, stack) {
      forall i | 0 <= i < |rest| ensures rest[i] !in stack + [tid] { assert rest[i] == all[i + 1]; }
      forall i, j | 0 <= i < j < |rest| ensures rest[i] != rest[j] { assert all[i + 1] != all[j + 1]; }
    }
  }

  lemma {:induction false} EnumerateEdgesIff(
    reg: Registry, aggs: Aggregates, edges: seq<Edge>, stack: seq<TypeId>, w: Walk)
    requires Valid(reg, aggs) && Registered(reg, edges)
    ensures w in EnumerateEdges(reg, aggs, edges, stack) <==>
            && w != [] && w[0] < |edges|
            && IsSimplePath(reg, aggs, edges[w[0]].target, w[1..])
            && Avoids(Visits(reg, aggs, edges[w[0]].target, w[1..]), stack)
    decreases |Unvisited(reg, stack)|, 1 + |edges|
  {
    if edges == [] {
    } else {
      var i := |edges| - 1;
      EnumerateEdgesIff(reg, aggs, edges[..i], stack, w);
      var walks := Enumerate(reg, aggs, edges[i].target, stack);
      PrefixIn(i, walks, w);
      if w != [] && w[0] == i {
        EnumerateIff(reg, aggs, edges[i].target, stack, w[1..]);
      }
    }
  }

  lemma PrefixIn(i: nat, walks: seq<Walk>, w: Walk)
    ensures w in Prefix(i, walks) <==> w != [] && w[0] == i && w[1..] in walks
  {
    if w in Prefix(i, walks) {
      var k :| 0 <= k < |walks| && w == Prefix(i, walks)[k];
      assert w[1..] == walks[k];
    }
    if w != [] && w[0] == i && w[1..] in walks {
      var k :| 0 <= k < |walks| && walks[k] == w[1..];
      assert w == [i] + walks[k] == Prefix(i, walks)[k];
    }
  }

  // ----- in lexicographic order, hence each once

  predicate LexLess(a: Walk, b: Walk)
    decreases |a|
  {
    b != [] && (a == [] || a[0] < b[0] || (a[0] == b[0] && LexLess(a[1..], b[1..])))
  }

  ghost predicate LexSorted(walks: seq<Walk>) {
    forall i, j :: 0 <= i < j < |walks| ==> LexLess(walks[i], walks[j])
  }

  lemma {:induction false} LexIrreflexive(a: Walk)
    ensures !LexLess(a, a)
    decreases |a|
  {
    if a == [] {
    } else {
      LexIrreflexive(a[1..]);
    }
  }

  lemma {:induction false} EnumerateSorted(reg: Registry, aggs: Aggregates, tid: TypeId, stack: seq<TypeId>)
    requires Valid(reg, aggs) && tid < |reg.types|
    ensures LexSorted(Enumerate(reg, aggs, tid, stack))
    decreases |Unvisited(reg, stack)|, 0
  {
    if tid !in stack {
      EdgesRegistered(reg, aggs, tid);
      UnvisitedShrinks(reg, stack, tid);
      var rest := EnumerateEdges(reg, aggs, Edges(reg, aggs, tid), stack + [tid]);
      EnumerateEdgesSorted(reg, aggs, Edges(reg, aggs, tid), stack + [tid]);
    }
  }

  lemma {:induction false} EnumerateEdgesSorted(reg: Registry, aggs: Aggregates, edges: seq<Edge>, stack: seq<TypeId>)
    requires Valid(reg, aggs) && Registered(reg, edges)
    ensures var walks := EnumerateEdges(reg, aggs, edges, stack);
      LexSorted(walks) && forall k :: 0 <= k < |walks| ==> walks[k] != [] && walks[k][0] < |edges|
    decreases |Unvisited(reg, stack)|, 1 + |edges|
  {
    if edges == [] {
    } else {
      var i := |edges| - 1;
      EnumerateEdgesSorted(reg, aggs, edges[..i], stack);
      EnumerateSorted(reg, aggs, edges[i].target, stack);
      var walks := Enumerate(reg, aggs, edges[i].target, stack);
      forall j, k | 0 <= j < k < |walks| ensures LexLess(Prefix(i, walks)[j], Prefix(i, walks)[k]) {
        assert Prefix(i, walks)[j][1..] == walks[j] && Prefix(i, walks)[k][1..] == walks[k];
      }
    }
  }

  // ----- the records of the search are those of the enumeration

  /** The record of a walk from `tid`, reached over `path`: where it ends, and the whole path. */
  ghost function RecordOf(reg: Registry, aggs: Aggregates, tid: TypeId, path: seq<string>, w: Walk): Record
    requires Valid(reg, aggs) && tid < |reg.types| && IsWalk(reg, aggs, tid, w)
  {
    var visits := Visits(reg, aggs, tid, w);
    (visits[|visits| - 1], JoinPath(path + Names(reg, aggs, tid, w)))
  }

  ghost predicate AreWalks(reg: Registry, aggs: Aggregates, tid: TypeId, walks: seq<Walk>)
    requires Valid(reg, aggs) && tid < |reg.types|
  {
    forall k :: 0 <= k < |walks| ==> IsWalk(reg, aggs, tid, walks[k])
  }

  ghost function RecordsOf(
    reg: Registry, aggs: Aggregates, tid: TypeId, path: seq<string>, walks: seq<Walk>): seq<Record>
    requires Valid(reg, aggs) && tid < |reg.types| && AreWalks(reg, aggs, tid, walks)
  {
    seq(|walks|, k requires 0 <= k < |walks| => RecordOf(reg, aggs, tid, path, walks[k]))
  }

  lemma {:induction false} SearchEnumerates(
    reg: Registry, aggs: Aggregates, tid: TypeId, stack: seq<TypeId>, path: seq<string>)
    requires Valid(reg, aggs) && tid < |reg.types|
    ensures AreWalks(reg, aggs, tid, Enumerate(reg, aggs, tid, stack))
    ensures Records(reg, aggs, tid, stack, path)
         == RecordsOf(reg, aggs, tid, path, Enumerate(reg, aggs, tid, stack))
    decreases |Unvisited(reg, stack)|, 0
  {
    if tid !in stack {
      EdgesRegistered(reg, aggs, tid);
      UnvisitedShrinks(reg, stack, tid);
      var edges := Edges(reg, aggs, tid);
      SearchEnumeratesEdges(reg, aggs, tid, edges, stack + [tid], path);
      assert edges[..|edges|] == edges;
      assert path + [] == path;
    }
  }

  lemma {:induction false} SearchEnumeratesEdges(reg: Registry, aggs: Aggregates, tid: TypeId, edges: seq<Edge>,
                                                 stack: seq<TypeId>, path: seq<string>)
    requires Valid(reg, aggs) && tid < |reg.types| && edges <= Edges(reg, aggs, tid) && Registered(reg, edges)
    ensures AreWalks(reg, aggs, tid, EnumerateEdges(reg, aggs, edges, stack))
    ensures EdgeRecords(reg, aggs, edges, stack, path)
         == RecordsOf(reg, aggs, tid, path, EnumerateEdges(reg, aggs, edges, stack))
    decreases |Unvisited(reg, stack)|, 1 + |edges|
  {
    hide Edges, RecordOf, IsWalk, Visits, Names, Records, Enumerate;
    if edges == [] {
    } else {
      var i := |edges| - 1;
      var e := edges[i];
      SearchEnumeratesEdges(reg, aggs, tid, edges[..i], stack, path);
      SearchEnumerates(reg, aggs, e.target, stack, path + [e.name]);
      var walks := Enumerate(reg, aggs, e.target, stack);
      assert e == Edges(reg, aggs, tid)[i];
      forall k | 0 <= k < |walks|
        ensures IsWalk(reg, aggs, tid, Prefix(i, walks)[k])
        ensures RecordOf(reg, aggs, tid, path, Prefix(i, walks)[k])
             == RecordOf(reg, aggs, e.target, path + [e.name], walks[k])
      {
        StepRecord(reg, aggs, tid, path, i, walks[k]);
      }
    }
  }

  /** One edge more in front of a walk. */
  lemma StepRecord(reg: Registry, aggs: Aggregates, tid: TypeId, path: seq<string>, i: nat, w: Walk)
    requires Valid(reg, aggs) && tid < |reg.types| && i < |Edges(reg, aggs, tid)|
    requires Edges(reg, aggs, tid)[i].target < |reg.types|
    requires IsWalk(reg, aggs, Edges(reg, aggs, tid)[i].target, w)
    ensures IsWalk(reg, aggs, tid, [i] + w)
    ensures var e := Edges(reg, aggs, tid)[i];
      RecordOf(reg, aggs, tid, path, [i] + w) == RecordOf(reg, aggs, e.target, path + [e.name], w)
  {
    hide Edges, JoinPath;
    var e := Edges(reg, aggs, tid)[i];
    assert ([i] + w)[1..] == w;
    assert path + ([e.name] + Names(reg, aggs, e.target, w)) == path + [e.name] + Names(reg, aggs, e.target, w);
  }

  // ----- the theorem

  /** `walks` is the list of all simple paths from `root`, each once, in lexicographic order. */
  ghost predicate ListsSimplePaths(reg: Registry, aggs: Aggregates, root: TypeId, walks: seq<Walk>)
    requires Valid(reg, aggs) && root < |reg.types|
  {
    && (forall w :: w in walks <==> IsSimplePath(reg, aggs, root, w))
    && LexSorted(walks)
    && Distinct(walks)
  }

  /** What the search records from an empty stack: one record per simple path from the root,
      holding the end of the path and the names of its edges, in preorder. */
  lemma SearchRecordsSimplePaths(reg: Registry, aggs: Aggregates, root: TypeId) returns (walks: seq<Walk>)
    requires Valid(reg, aggs) && root < |reg.types|
    ensures ListsSimplePaths(reg, aggs, root, walks) && AreWalks(reg, aggs, root, walks)
    ensures Records(reg, aggs, root, [], []) == RecordsOf(reg, aggs, root, [], walks)
  {
    walks := Enumerate(reg, aggs, root, []);
    SearchEnumerates(reg, aggs, root, [], []);
    EnumerateSorted(reg, aggs, root, []);
    forall w ensures w in walks <==> IsSimplePath(reg, aggs, root, w) {
      EnumerateIff(reg, aggs, root, [], w);
    }
    forall i, j | 0 <= i < j < |walks| ensures walks[i] != walks[j] {
      LexIrreflexive(walks[i]);
    }
  }

  lemma {:induction false} LexAsymmetric(a: Walk, b: Walk)
    ensures !(LexLess(a, b) && LexLess(b, a))
    decreases |a|
  {
    if a != [] && b != [] { LexAsymmetric(a[1..], b[1..]); }
  }

  /** There is only one such list, so the records above are determined completely. */
  lemma {:induction false} SortedListUnique(a: seq<Walk>, b: seq<Walk>)
    requires LexSorted(a) && LexSorted(b) && forall w :: w in a <==> w in b
    ensures a == b
  {
    if b != [] { assert b[0] in b; }
    if a == [] {
    } else {
      assert a[0] in b && b[0] in a;
      var k :| 0 <= k < |b| && b[k] == a[0];
      var m :| 0 <= m < |a| && a[m] == b[0];
      LexAsymmetric(a[0], b[0]);
      forall w ensures w in a[1..] <==> w in b[1..] {
        TailMember(a, w);
        TailMember(b, w);
      }
      SortedListUnique(a[1..], b[1..]);
    }
  }

  lemma TailMember(a: seq<Walk>, w: Walk)
    requires LexSorted(a) && a != []
    ensures w in a[1..] <==> w in a && w != a[0]
  {
    LexIrreflexive(a[0]);
    if w in a && w != a[0] {
      var i :| 0 <= i < |a| && a[i] == w;
      assert a[1..][i - 1] == w;
    }
  }
}
