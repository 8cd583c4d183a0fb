/** Which edges the search of utils/print-introspected-doxygen.cc follows from a type, and in which
    order, said without the functions that collect them.
 */
module FollowedEdges {
  import opened TypeGraph

  /** What an edge comes from: an attribute of the type, a registered type, or an aggregation. */
  datatype Origin = FromAttribute(index: nat) | FromType(tid: TypeId) | FromAggregation(index: nat)

  /** All attributes come before all types, and these before all aggregations. */
  predicate Earlier(a: Origin, b: Origin) {
    match (a, b)
    case (FromAttribute(i), FromAttribute(j)) => i < j
    case (FromType(t), FromType(u)) => t < u
    case (FromAggregation(i), FromAggregation(j)) => i < j
    case (FromAttribute(_), _) => true
    case (FromType(_), FromAggregation(_)) => true
    case (_, _) => false
  }

  /** `e` is the edge that `from` gives rise to: a pointer to anything but a bare Object, the items
      of a container, a registered subclass, or the other end of an aggregation. */
  ghost predicate LeadsTo(reg: Registry, aggs: Aggregates, tid: TypeId, from: Origin, e: Edge)
    requires tid < |reg.types|
  {
    match from
    case FromAttribute(i) =>
      && i < |reg.types[tid].attributes|
      && var a := reg.types[tid].attributes[i];
         || (a == Pointer(e.name, e.target) && e.target != reg.objectId)
         || (a.Container? && a.item == e.target && e.name == a.name + "/[i]")
    case FromType(t) =>
      t < |reg.types| && e.target == t && (t, tid) in reg.childOf && e.name == "$" + reg.types[t].name
    case FromAggregation(i) =>
      && i < |aggs| && (aggs[i] == (tid, e.target) || aggs[i] == (e.target, tid))
      && e.target < |reg.types| && e.name == "$" + reg.types[e.target].name
  }

  /** `edges` are the edges of `origins`, one each, in ascending order of these. */
  ghost predicate Ordered(reg: Registry, aggs: Aggregates, tid: TypeId, edges: seq<Edge>, origins: seq<Origin>)
    requires tid < |reg.types|
  {
    && |origins| == |edges|
    && (forall k :: 0 <= k < |edges| ==> LeadsTo(reg, aggs, tid, origins[k], edges[k]))
    && (forall k, l :: 0 <= k < l < |edges| ==> Earlier(origins[k], origins[l]))
  }

  /** No origin leads to two edges. */
  lemma OneEdge(reg: Registry, aggs: Aggregates, tid: TypeId, from: Origin, e: Edge, f: Edge)
    requires tid < |reg.types| && LeadsTo(reg, aggs, tid, from, e) && LeadsTo(reg, aggs, tid, from, f)
    ensures e == f
  {
  }

  /** The edges of a type, in order: there is one for every attribute, registered type and
      aggregation that leads anywhere, and no other. */
  lemma EdgesAre(reg: Registry, aggs: Aggregates, tid: TypeId) returns (origins: seq<Origin>)
    requires Valid(reg, aggs) && tid < |reg.types|
    ensures Ordered(reg, aggs, tid, Edges(reg, aggs, tid), origins)
    ensures forall from, e :: LeadsTo(reg, aggs, tid, from, e) ==> from in origins
    ensures forall e :: e in Edges(reg, aggs, tid) <==> exists from :: LeadsTo(reg, aggs, tid, from, e)
  {
    var attributes := reg.types[tid].attributes;
    assert attributes[..|attributes|] == attributes && aggs[..|aggs|] == aggs;
    var a := AttributeOrigins(reg, aggs, tid, |attributes|);
    var b := ChildOrigins(reg, aggs, tid, |reg.types|);
    var c := AggregateOrigins(reg, aggs, tid, |aggs|);
    hide LeadsTo, AttributeEdges, ChildEdges, AggregateEdges;
    origins := a + b + c;
    var first, second := AttributeEdges(reg, attributes), ChildEdges(reg, tid, |reg.types|);
    OrderedConcat(reg, aggs, tid, first, a, second, b);
    OrderedConcat(reg, aggs, tid, first + second, a + b, AggregateEdges(reg, tid, aggs), c);
    hide Ordered;
    forall from, e | LeadsTo(reg, aggs, tid, from, e) ensures from in origins {
      InRange(reg, aggs, tid, from, e);
      match from {
        case FromAttribute(i) => assert from == Nth(Attributes, i);
        case FromType(t) => assert from == Nth(Types, t);
        case FromAggregation(i) => assert from == Nth(Aggregations, i);
      }
    }
    EdgesOfOrigins(reg, aggs, tid, Edges(reg, aggs, tid), origins);
  }

  lemma OrderedConcat(reg: Registry, aggs: Aggregates, tid: TypeId, a: seq<Edge>, from: seq<Origin>,
                      b: seq<Edge>, more: seq<Origin>)
    requires tid < |reg.types| && Ordered(reg, aggs, tid, a, from) && Ordered(reg, aggs, tid, b, more)
    requires forall k, l :: 0 <= k < |from| && 0 <= l < |more| ==> Earlier(from[k], more[l])
    ensures Ordered(reg, aggs, tid, a + b, from + more)
  {
    hide LeadsTo, Earlier;
  }

  lemma EdgesOfOrigins(reg: Registry, aggs: Aggregates, tid: TypeId, edges: seq<Edge>, origins: seq<Origin>)
    requires tid < |reg.types| && Ordered(reg, aggs, tid, edges, origins)
    requires forall from, e :: LeadsTo(reg, aggs, tid, from, e) ==> from in origins
    ensures forall e :: e in edges <==> exists from :: LeadsTo(reg, aggs, tid, from, e)
  {
    hide LeadsTo, Earlier;
    forall from, e | LeadsTo(reg, aggs, tid, from, e) ensures e in edges {
      var k :| 0 <= k < |origins| && origins[k] == from;
      OneEdge(reg, aggs, tid, from, e, edges[k]);
    }
    forall e | e in edges ensures exists from :: LeadsTo(reg, aggs, tid, from, e) {
      var k :| 0 <= k < |edges| && edges[k] == e;
      assert LeadsTo(reg, aggs, tid, origins[k], e);
    }
  }

  lemma InRange(reg: Registry, aggs: Aggregates, tid: TypeId, from: Origin, e: Edge)
    requires tid < |reg.types| && LeadsTo(reg, aggs, tid, from, e)
    ensures match from
      case FromAttribute(i) => i < |reg.types[tid].attributes|
      case FromType(t) => t < |reg.types|
      case FromAggregation(i) => i < |aggs|
  {
  }

  // ----- the three groups

  datatype Group = Attributes | Types | Aggregations

  function Nth(g: Group, i: nat): Origin {
    match g
    case Attributes => FromAttribute(i)
    case Types => FromType(i)
    case Aggregations => FromAggregation(i)
  }

  ghost predicate Nowhere(reg: Registry, aggs: Aggregates, tid: TypeId, from: Origin)
    requires tid < |reg.types|
  {
    forall e :: !LeadsTo(reg, aggs, tid, from, e)
  }

  /** `origins` are the first `n` of a group without those that lead nowhere. */
  ghost predicate Collects(reg: Registry, aggs: Aggregates, tid: TypeId, g: Group, n: nat, origins: seq<Origin>)
    requires tid < |reg.types|
  {
    && (forall k :: 0 <= k < |origins| ==> exists i :: 0 <= i < n && origins[k] == Nth(g, i))
    && (forall i :: 0 <= i < n ==> Nth(g, i) in origins || Nowhere(reg, aggs, tid, Nth(g, i)))
  }

  /** What the next of a group adds. */
  function More(g: Group, n: nat, edge: seq<Edge>): seq<Origin> {
    if edge == [] then [] else [Nth(g, n)]
  }

  lemma OneMore(reg: Registry, aggs: Aggregates, tid: TypeId, g: Group, n: nat,
                edges: seq<Edge>, origins: seq<Origin>, edge: seq<Edge>)
    requires tid < |reg.types| && Ordered(reg, aggs, tid, edges, origins) && |edge| <= 1
    requires Collects(reg, aggs, tid, g, n, origins)
    requires if edge == [] then Nowhere(reg, aggs, tid, Nth(g, n)) else LeadsTo(reg, aggs, tid, Nth(g, n), edge[0])
    ensures Ordered(reg, aggs, tid, edges + edge, origins + More(g, n, edge))
    ensures Collects(reg, aggs, tid, g, n + 1, origins + More(g, n, edge))
  {
    hide LeadsTo, Nowhere;
    OrderedConcat(reg, aggs, tid, edges, origins, edge, More(g, n, edge));
  }

  lemma {:induction false} AttributeOrigins(reg: Registry, aggs: Aggregates, tid: TypeId, n: nat)
    returns (origins: seq<Origin>)
    requires tid < |reg.types| && n <= |reg.types[tid].attributes|
    ensures Ordered(reg, aggs, tid, AttributeEdges(reg, reg.types[tid].attributes[..n]), origins)
    ensures Collects(reg, aggs, tid, Attributes, n, origins)
  {
    if n == 0 {
      origins := [];
    } else {
      var attributes := reg.types[tid].attributes;
      var edge := AttributeEdge(reg, attributes[n - 1]);
      assert attributes[..n][..n - 1] == attributes[..n - 1];
      origins := AttributeOrigins(reg, aggs, tid, n - 1);
      OneMore(reg, aggs, tid, Attributes, n - 1, AttributeEdges(reg, attributes[..n - 1]), origins, edge);
      hide Collects, Ordered;
      origins := origins + More(Attributes, n - 1, edge);
    }
  }

  lemma {:induction false} ChildOrigins(reg: Registry, aggs: Aggregates, tid: TypeId, n: nat)
    returns (origins: seq<Origin>)
    requires tid < |reg.types| && n <= |reg.types|
    ensures Ordered(reg, aggs, tid, ChildEdges(reg, tid, n), origins)
    ensures Collects(reg, aggs, tid, Types, n, origins)
  {
    if n == 0 {
      origins := [];
    } else {
      var edge := ChildEdge(reg, tid, n - 1);
      origins := ChildOrigins(reg, aggs, tid, n - 1);
      OneMore(reg, aggs, tid, Types, n - 1, ChildEdges(reg, tid, n - 1), origins, edge);
      hide Collects, Ordered;
      origins := origins + More(Types, n - 1, edge);
    }
  }

  lemma {:induction false} AggregateOrigins(reg: Registry, aggs: Aggregates, tid: TypeId, n: nat)
    returns (origins: seq<Origin>)
    requires Valid(reg, aggs) && tid < |reg.types| && n <= |aggs|
    ensures Ordered(reg, aggs, tid, AggregateEdges(reg, tid, aggs[..n]), origins)
    ensures Collects(reg, aggs, tid, Aggregations, n, origins)
  {
    if n == 0 {
      origins := [];
    } else {
      var edge := AggregateEdge(reg, tid, aggs[n - 1]);
      assert aggs[..n][..n - 1] == aggs[..n - 1];
      origins := AggregateOrigins(reg, aggs, tid, n - 1);
      OneMore(reg, aggs, tid, Aggregations, n - 1, AggregateEdges(reg, tid, aggs[..n - 1]), origins, edge);
      hide Collects, Ordered;
      origins := origins + More(Aggregations, n - 1, edge);
    }
  }
}
