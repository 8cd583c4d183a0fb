/** The labelled graph of types that utils/print-introspected-doxygen.cc walks, its simple
    paths, and the depth-first enumeration of them.
 */
module TypeGraph {

  /** Types are numbered in the order in which they are registered. */
  type TypeId = nat

  /** What the checker of an attribute says about its values. */
  datatype Attribute =
    | Pointer(name: string, pointee: TypeId)
    | Container(name: string, item: TypeId)
    | Other(name: string)

  datatype TypeInfo = TypeInfo(name: string, attributes: seq<Attribute>)

  /** The registered types, the pairs (t, u) with t.IsChildOf(u), and the id of ns3::Object. */
  datatype Registry = Registry(types: seq<TypeInfo>, childOf: set<(TypeId, TypeId)>, objectId: TypeId)

  /** The recorded aggregations, in the order in which they were recorded. */
  type Aggregates = seq<(TypeId, TypeId)>

  datatype Edge = Edge(name: string, target: TypeId)

  /** Every type an attribute checker or an aggregation mentions is registered. */
  ghost predicate Valid(reg: Registry, aggs: Aggregates) {
    && (forall t, i :: 0 <= t < |reg.types| && 0 <= i < |reg.types[t].attributes| ==>
          ValidAttribute(reg, reg.types[t].attributes[i]))
    && (forall i :: 0 <= i < |aggs| ==> aggs[i].0 < |reg.types| && aggs[i].1 < |reg.types|)
  }

  predicate ValidAttribute(reg: Registry, a: Attribute) {
    match a
    case Pointer(_, pointee) => pointee < |reg.types|
    case Container(_, item) => item < |reg.types|
    case Other(_) => true
  }

  // ----- the edges of a type, in the order in which they are followed

  /** A pointer to a bare Object is not followed. */
  function AttributeEdge(reg: Registry, a: Attribute): seq<Edge> {
    match a
    case Pointer(name, pointee) => if pointee == reg.objectId then [] else [Edge(name, pointee)]
    case Container(name, item) => [Edge(name + "/[i]", item)]
    case Other(_) => []
  }

  function ChildEdge(reg: Registry, tid: TypeId, child: TypeId): seq<Edge>
    requires child < |reg.types|
  {
    if (child, tid) in reg.childOf then [Edge("$" + reg.types[child].name, child)] else []
  }

  /** An aggregation is followed from either end. */
  function AggregateEdge(reg: Registry, tid: TypeId, agg: (TypeId, TypeId)): seq<Edge>
    requires agg.0 < |reg.types| && agg.1 < |reg.types|
  {
    if agg.1 == tid then [Edge("$" + reg.types[agg.0].name, agg.0)]
    else if agg.0 == tid then [Edge("$" + reg.types[agg.1].name, agg.1)]
    else []
  }

  function AttributeEdges(reg: Registry, attributes: seq<Attribute>): seq<Edge> {
    if attributes == [] then []
    else
      var i := |attributes| - 1;
      AttributeEdges(reg, attributes[..i]) + AttributeEdge(reg, attributes[i])
  }

  /** The edges to the children among the first `n` registered types. */
  function ChildEdges(reg: Registry, tid: TypeId, n: nat): seq<Edge>
    requires n <= |reg.types|
  {
    if n == 0 then [] else ChildEdges(reg, tid, n - 1) + ChildEdge(reg, tid, n - 1)
  }

  function AggregateEdges(reg: Registry, tid: TypeId, aggs: Aggregates): seq<Edge>
    requires forall i :: 0 <= i < |aggs| ==> aggs[i].0 < |reg.types| && aggs[i].1 < |reg.types|
  {
    if aggs == [] then []
    else
      var i := |aggs| - 1;
      AggregateEdges(reg, tid, aggs[..i]) + AggregateEdge(reg, tid, aggs[i])
  }

  function Edges(reg: Registry, aggs: Aggregates, tid: TypeId): seq<Edge>
    requires Valid(reg, aggs) && tid < |reg.types|
  {
    AttributeEdges(reg, reg.types[tid].attributes) + ChildEdges(reg, tid, |reg.types|) + AggregateEdges(reg, tid, aggs)
  }

  ghost predicate Registered(reg: Registry, edges: seq<Edge>) {
    forall i :: 0 <= i < |edges| ==> edges[i].target < |reg.types|
  }

  lemma {:induction false} AttributeEdgesRegistered(reg: Registry, attributes: seq<Attribute>)
    requires forall i :: 0 <= i < |attributes| ==> ValidAttribute(reg, attributes[i])
    ensures Registered(reg, AttributeEdges(reg, attributes))
  {
    if attributes == [] {
    } else {
      AttributeEdgesRegistered(reg, attributes[..|attributes| - 1]);
    }
  }

  lemma {:induction false} ChildEdgesRegistered(reg: Registry, tid: TypeId, n: nat)
    requires n <= |reg.types|
    ensures Registered(reg, ChildEdges(reg, tid, n))
  {
    if n == 0 {
    } else {
      ChildEdgesRegistered(reg, tid, n - 1);
    }
  }

  lemma {:induction false} AggregateEdgesRegistered(reg: Registry, tid: TypeId, aggs: Aggregates)
    requires forall i :: 0 <= i < |aggs| ==> aggs[i].0 < |reg.types| && aggs[i].1 < |reg.types|
    ensures Registered(reg, AggregateEdges(reg, tid, aggs))
  {
    if aggs == [] {
    } else {
      AggregateEdgesRegistered(reg, tid, aggs[..|aggs| - 1]);
    }
  }

  lemma EdgesRegistered(reg: Registry, aggs: Aggregates, tid: TypeId)
    requires Valid(reg, aggs) && tid < |reg.types|
    ensures Registered(reg, Edges(reg, aggs, tid))
  {
    AttributeEdgesRegistered(reg, reg.types[tid].attributes);
    ChildEdgesRegistered(reg, tid, |reg.types|);
    AggregateEdgesRegistered(reg, tid, aggs);
  }

  // ----- what the depth-first search records

  /** A recorded type with its configuration path. */
  type Record = (TypeId, string)

  /** The path as it is written down: every element behind a slash. */
  function JoinPath(path: seq<string>): string {
    if path == [] then "" else JoinPath(path[..|path| - 1]) + "/" + path[|path| - 1]
  }

  /** Every element stands behind a slash of its own, in order. */
  lemma {:induction false} JoinConcat(p: seq<string>, q: seq<string>)
    ensures JoinPath([]) == "" && forall e :: JoinPath([e]) == "/" + e
    ensures JoinPath(p + q) == JoinPath(p) + JoinPath(q)
  {
    forall e ensures JoinPath([e]) == "/" + e {
      assert JoinPath([e]) == JoinPath([e][..0]) + "/" + e;
    }
    if q == [] {
      assert p + q == p;
    } else {
      var last := |q| - 1;
      JoinConcat(p, q[..last]);
      assert (p + q)[..|p + q| - 1] == p + q[..last];
    }
  }

  /** The registered types that are not on the stack: what bounds the depth of the search. */
  function Unvisited(reg: Registry, stack: seq<TypeId>): set<TypeId> {
    set t | 0 <= t < |reg.types| && t !in stack
  }

  lemma UnvisitedShrinks(reg: Registry, stack: seq<TypeId>, tid: TypeId)
    requires tid < |reg.types| && tid !in stack
    ensures Unvisited(reg, stack + [tid]) == Unvisited(reg, stack) - {tid}
    ensures |Unvisited(reg, stack + [tid])| < |Unvisited(reg, stack)|
  {
  }

  /** The records made by DoGather(tid) with the given stack and path. */
  ghost function Records(
    reg: Registry, aggs: Aggregates, tid: TypeId, stack: seq<TypeId>, path: seq<string>): seq<Record>
    requires Valid(reg, aggs) && tid < |reg.types|
    decreases |Unvisited(reg, stack)|, 0
  {
    if tid in stack then []
    else
      EdgesRegistered(reg, aggs, tid);
      UnvisitedShrinks(reg, stack, tid);
      [(tid, JoinPath(path))] + EdgeRecords(reg, aggs, Edges(reg, aggs, tid), stack + [tid], path)
  }

  /** The records made by following `edges` in turn, each from the given stack and path. */
  ghost function EdgeRecords(
    reg: Registry, aggs: Aggregates, edges: seq<Edge>, stack: seq<TypeId>, path: seq<string>): seq<Record>
    requires Valid(reg, aggs) && Registered(reg, edges)
    decreases |Unvisited(reg, stack)|, 1 + |edges|
  {
    if edges == [] then []
    else
      var i := |edges| - 1;
      EdgeRecords(reg, aggs, edges[..i], stack, path)
      + Records(reg, aggs, edges[i].target, stack, path + [edges[i].name])
  }

  lemma EdgeRecordsLast(reg: Registry, aggs: Aggregates, edges: seq<Edge>, stack: seq<TypeId>, path: seq<string>)
    requires Valid(reg, aggs) && Registered(reg, edges) && edges != []
    ensures var i := |edges| - 1;
      EdgeRecords(reg, aggs, edges, stack, path)
      == EdgeRecords(reg, aggs, edges[..i], stack, path)
         + Records(reg, aggs, edges[i].target, stack, path + [edges[i].name])
  {
  }

  lemma {:induction false} EdgeRecordsConcat(reg: Registry, aggs: Aggregates, a: seq<Edge>, b: seq<Edge>,
                                            stack: seq<TypeId>, path: seq<string>)
    requires Valid(reg, aggs) && Registered(reg, a) && Registered(reg, b)
    ensures EdgeRecords(reg, aggs, a + b, stack, path)
         == EdgeRecords(reg, aggs, a, stack, path) + EdgeRecords(reg, aggs, b, stack, path)
  {
    hide Records, EdgeRecords;
    if b == [] {
      assert a + b == a;
      NoEdgeRecords(reg, aggs, stack, path);
    } else {
      var i := |b| - 1;
      assert (a + b)[..|a| + i] == a + b[..i];
      EdgeRecordsConcat(reg, aggs, a, b[..i], stack, path);
      EdgeRecordsLast(reg, aggs, a + b, stack, path);
      EdgeRecordsLast(reg, aggs, b, stack, path);
    }
  }

  lemma NoEdgeRecords(reg: Registry, aggs: Aggregates, stack: seq<TypeId>, path: seq<string>)
    requires Valid(reg, aggs)
    ensures EdgeRecords(reg, aggs, [], stack, path) == []
  {
  }

  /** What following at most one more edge adds to the records. */
  ghost function Added(
    reg: Registry, aggs: Aggregates, more: seq<Edge>, stack: seq<TypeId>, path: seq<string>): seq<Record>
    requires Valid(reg, aggs) && Registered(reg, more) && |more| <= 1
  {
    if more == [] then [] else Records(reg, aggs, more[0].target, stack, path + [more[0].name])
  }

  lemma EdgeRecordsSnoc(reg: Registry, aggs: Aggregates, edges: seq<Edge>, more: seq<Edge>,
                        stack: seq<TypeId>, path: seq<string>)
    requires Valid(reg, aggs) && Registered(reg, edges) && Registered(reg, more) && |more| <= 1
    ensures Registered(reg, edges + more)
    ensures EdgeRecords(reg, aggs, edges + more, stack, path)
         == EdgeRecords(reg, aggs, edges, stack, path) + Added(reg, aggs, more, stack, path)
  {
    hide Records, EdgeRecords;
    EdgeRecordsConcat(reg, aggs, edges, more, stack, path);
    if more != [] {
      EdgeRecordsLast(reg, aggs, more, stack, path);
      assert more[..0] == [];
    }
    NoEdgeRecords(reg, aggs, stack, path);
  }

  lemma AttributeStep(reg: Registry, aggs: Aggregates, attributes: seq<Attribute>, i: nat,
                      stack: seq<TypeId>, path: seq<string>)
    requires Valid(reg, aggs) && i < |attributes| && ValidAttribute(reg, attributes[i])
    requires Registered(reg, AttributeEdges(reg, attributes[..i]))
    ensures Registered(reg, AttributeEdges(reg, attributes[..i + 1]))
    ensures Registered(reg, AttributeEdge(reg, attributes[i]))
    ensures EdgeRecords(reg, aggs, AttributeEdges(reg, attributes[..i + 1]), stack, path)
         == EdgeRecords(reg, aggs, AttributeEdges(reg, attributes[..i]), stack, path)
            + Added(reg, aggs, AttributeEdge(reg, attributes[i]), stack, path)
  {
    hide Records, EdgeRecords;
    assert attributes[..i + 1][..i] == attributes[..i];
    EdgeRecordsSnoc(reg, aggs, AttributeEdges(reg, attributes[..i]), AttributeEdge(reg, attributes[i]), stack, path);
  }

  lemma ChildStep(reg: Registry, aggs: Aggregates, tid: TypeId, child: TypeId, stack: seq<TypeId>, path: seq<string>)
    requires Valid(reg, aggs) && child < |reg.types|
    requires Registered(reg, ChildEdges(reg, tid, child))
    ensures Registered(reg, ChildEdges(reg, tid, child + 1)) && Registered(reg, ChildEdge(reg, tid, child))
    ensures EdgeRecords(reg, aggs, ChildEdges(reg, tid, child + 1), stack, path)
         == EdgeRecords(reg, aggs, ChildEdges(reg, tid, child), stack, path)
            + Added(reg, aggs, ChildEdge(reg, tid, child), stack, path)
  {
    hide Records, EdgeRecords;
    EdgeRecordsSnoc(reg, aggs, ChildEdges(reg, tid, child), ChildEdge(reg, tid, child), stack, path);
  }

  lemma AggregateStep(reg: Registry, aggs: Aggregates, tid: TypeId, i: nat, stack: seq<TypeId>, path: seq<string>)
    requires Valid(reg, aggs) && i < |aggs|
    requires Registered(reg, AggregateEdges(reg, tid, aggs[..i]))
    ensures Registered(reg, AggregateEdges(reg, tid, aggs[..i + 1]))
    ensures Registered(reg, AggregateEdge(reg, tid, aggs[i]))
    ensures EdgeRecords(reg, aggs, AggregateEdges(reg, tid, aggs[..i + 1]), stack, path)
         == EdgeRecords(reg, aggs, AggregateEdges(reg, tid, aggs[..i]), stack, path)
            + Added(reg, aggs, AggregateEdge(reg, tid, aggs[i]), stack, path)
  {
    hide Records, EdgeRecords;
    assert aggs[..i + 1][..i] == aggs[..i];
    EdgeRecordsSnoc(reg, aggs, AggregateEdges(reg, tid, aggs[..i]), AggregateEdge(reg, tid, aggs[i]), stack, path);
  }

  /** The records of the three groups of edges, one after the other. */
  lemma RecordsByGroup(reg: Registry, aggs: Aggregates, tid: TypeId, stack: seq<TypeId>, path: seq<string>)
    requires Valid(reg, aggs) && tid < |reg.types| && tid !in stack
    requires Registered(reg, AttributeEdges(reg, reg.types[tid].attributes))
    requires Registered(reg, ChildEdges(reg, tid, |reg.types|))
    requires Registered(reg, AggregateEdges(reg, tid, aggs))
    ensures Records(reg, aggs, tid, stack, path)
         == [(tid, JoinPath(path))]
            + EdgeRecords(reg, aggs, AttributeEdges(reg, reg.types[tid].attributes), stack + [tid], path)
            + EdgeRecords(reg, aggs, ChildEdges(reg, tid, |reg.types|), stack + [tid], path)
            + EdgeRecords(reg, aggs, AggregateEdges(reg, tid, aggs), stack + [tid], path)
  {
    hide EdgeRecords, AttributeEdges, ChildEdges, AggregateEdges;
    var a, c := AttributeEdges(reg, reg.types[tid].attributes), ChildEdges(reg, tid, |reg.types|);
    EdgeRecordsConcat(reg, aggs, a, c, stack + [tid], path);
    EdgeRecordsConcat(reg, aggs, a + c, AggregateEdges(reg, tid, aggs), stack + [tid], path);
  }
}
