/** When the records of one search are all different. The stored list is never made unique, so a
    record repeats exactly where a simple path can be continued over two equal edges.
 */
module UniqueRecords {
  import opened Sequences
  import opened TypeGraph
  import opened SimplePaths

  // ----- along a walk

  ghost function EndOf(reg: Registry, aggs: Aggregates, tid: TypeId, w: Walk): (end: TypeId)
    requires Valid(reg, aggs) && tid < |reg.types| && IsWalk(reg, aggs, tid, w)
    ensures end < |reg.types|
    decreases |w|
  {
    EdgesRegistered(reg, aggs, tid);
    if w == [] then tid else EndOf(reg, aggs, Edges(reg, aggs, tid)[w[0]].target, w[1..])
  }

  lemma {:induction false} EndIsLast(reg: Registry, aggs: Aggregates, tid: TypeId, w: Walk)
    requires Valid(reg, aggs) && tid < |reg.types| && IsWalk(reg, aggs, tid, w)
    ensures var visits := Visits(reg, aggs, tid, w);
      |visits| == |w| + 1 && visits[|w|] == EndOf(reg, aggs, tid, w)
    ensures |Names(reg, aggs, tid, w)| == |w|
    decreases |w|
  {
    hide Edges;
    EdgesRegistered(reg, aggs, tid);
    if w == [] {
    } else {
      EndIsLast(reg, aggs, Edges(reg, aggs, tid)[w[0]].target, w[1..]);
    }
  }

  /** Walks are taken apart at any point. */
  lemma {:induction false} WalkSplit(reg: Registry, aggs: Aggregates, tid: TypeId, u: Walk, v: Walk)
    requires Valid(reg, aggs) && tid < |reg.types|
    ensures IsWalk(reg, aggs, tid, u + v) <==>
            IsWalk(reg, aggs, tid, u) && IsWalk(reg, aggs, EndOf(reg, aggs, tid, u), v)
    ensures IsWalk(reg, aggs, tid, u + v) ==> var end := EndOf(reg, aggs, tid, u);
      && EndOf(reg, aggs, tid, u + v) == EndOf(reg, aggs, end, v)
      && Visits(reg, aggs, tid, u + v) == Visits(reg, aggs, tid, u) + Visits(reg, aggs, end, v)[1..]
      && Names(reg, aggs, tid, u + v) == Names(reg, aggs, tid, u) + Names(reg, aggs, end, v)
    decreases |u|
  {
    hide Edges, IsWalk, Visits, Names, EndOf;
    EdgesRegistered(reg, aggs, tid);
    if u == [] {
      NoStep(reg, aggs, tid, v);
      assert u + v == v;
    } else {
      var all := u + v;
      assert all[1..] == u[1..] + v && all[0] == u[0];
      FirstStep(reg, aggs, tid, all);
      FirstStep(reg, aggs, tid, u);
      if u[0] < |Edges(reg, aggs, tid)| {
        WalkSplit(reg, aggs, Edges(reg, aggs, tid)[u[0]].target, u[1..], v);
      }
    }
  }

  lemma NoStep(reg: Registry, aggs: Aggregates, tid: TypeId, v: Walk)
    requires Valid(reg, aggs) && tid < |reg.types|
    ensures IsWalk(reg, aggs, tid, []) && EndOf(reg, aggs, tid, []) == tid
    ensures Visits(reg, aggs, tid, []) == [tid] && Names(reg, aggs, tid, []) == []
    ensures IsWalk(reg, aggs, tid, v) ==> var visits := Visits(reg, aggs, tid, v);
      visits != [] && visits == [tid] + visits[1..]
  {
    hide Edges;
  }

  lemma FirstStep(reg: Registry, aggs: Aggregates, tid: TypeId, w: Walk)
    requires Valid(reg, aggs) && tid < |reg.types| && w != [] && Registered(reg, Edges(reg, aggs, tid))
    ensures IsWalk(reg, aggs, tid, w) <==>
            w[0] < |Edges(reg, aggs, tid)| && IsWalk(reg, aggs, Edges(reg, aggs, tid)[w[0]].target, w[1..])
    ensures IsWalk(reg, aggs, tid, w) ==> var e := Edges(reg, aggs, tid)[w[0]];
      && EndOf(reg, aggs, tid, w) == EndOf(reg, aggs, e.target, w[1..])
      && Visits(reg, aggs, tid, w) == [tid] + Visits(reg, aggs, e.target, w[1..])
      && Names(reg, aggs, tid, w) == [e.name] + Names(reg, aggs, e.target, w[1..])
  {
    hide Edges;
  }

  /** A walk of one edge. */
  lemma OneEdge(reg: Registry, aggs: Aggregates, tid: TypeId, i: nat)
    requires Valid(reg, aggs) && tid < |reg.types|
    ensures IsWalk(reg, aggs, tid, [i]) <==> i < |Edges(reg, aggs, tid)|
    ensures i < |Edges(reg, aggs, tid)| ==>
      Visits(reg, aggs, tid, [i]) == [tid, Edges(reg, aggs, tid)[i].target]
      && Names(reg, aggs, tid, [i]) == [Edges(reg, aggs, tid)[i].name]
  {
    hide Edges;
    EdgesRegistered(reg, aggs, tid);
    assert [i][1..] == [];
  }

  // ----- equal records

  /** Behind the simple path `w`, the edges `i` and `j` are the same, and lead on. */
  ghost predicate Forks(reg: Registry, aggs: Aggregates, root: TypeId, w: Walk, i: nat, j: nat)
    requires Valid(reg, aggs) && root < |reg.types|
  {
    && IsSimplePath(reg, aggs, root, w)
    && var edges := Edges(reg, aggs, EndOf(reg, aggs, root, w));
       i < j < |edges| && edges[i] == edges[j] && edges[i].target !in Visits(reg, aggs, root, w)
  }

  ghost predicate HasFork(reg: Registry, aggs: Aggregates, root: TypeId)
    requires Valid(reg, aggs) && root < |reg.types|
  {
    exists w, i, j :: Forks(reg, aggs, root, w, i, j)
  }

  /** The name of an edge determines where it leads, for the edges of one type. */
  ghost predicate NamesTell(reg: Registry, aggs: Aggregates)
    requires Valid(reg, aggs)
  {
    forall t, i, j :: 0 <= t < |reg.types| && 0 <= i < |Edges(reg, aggs, t)| && 0 <= j < |Edges(reg, aggs, t)|
      && Edges(reg, aggs, t)[i].name == Edges(reg, aggs, t)[j].name
      ==> Edges(reg, aggs, t)[i] == Edges(reg, aggs, t)[j]
  }

  // ----- names that tell

  /** Types have different names; the followed attributes of a type make elements of different
      names, and none of these starts like that of a subclass. */
  ghost predicate OwnNames(reg: Registry) {
    && (forall t, u :: 0 <= t < u < |reg.types| ==> reg.types[t].name != reg.types[u].name)
    && forall t :: 0 <= t < |reg.types| ==> OwnAttributes(reg, reg.types[t].attributes)
  }

  ghost predicate OwnAttributes(reg: Registry, attributes: seq<Attribute>) {
    && (forall i, e :: 0 <= i < |attributes| && e in AttributeEdge(reg, attributes[i]) ==> !("$" <= e.name))
    && forall i, j, e, f :: 0 <= i < |attributes| && 0 <= j < |attributes|
         && e in AttributeEdge(reg, attributes[i]) && f in AttributeEdge(reg, attributes[j]) && e.name == f.name
         ==> i == j
  }

  ghost predicate IsTypeEdge(reg: Registry, e: Edge) {
    e.target < |reg.types| && e.name == "$" + reg.types[e.target].name
  }

  lemma {:induction false} AttributeEdgeIn(reg: Registry, attributes: seq<Attribute>, e: Edge) returns (i: nat)
    requires e in AttributeEdges(reg, attributes)
    ensures i < |attributes| && e in AttributeEdge(reg, attributes[i])
  {
    var last := |attributes| - 1;
    if e in AttributeEdge(reg, attributes[last]) { return last; }
    i := AttributeEdgeIn(reg, attributes[..last], e);
  }

  lemma {:induction false} ChildEdgeIn(reg: Registry, tid: TypeId, n: nat, e: Edge)
    requires n <= |reg.types| && e in ChildEdges(reg, tid, n)
    ensures IsTypeEdge(reg, e)
  {
    if e in ChildEdges(reg, tid, n - 1) { ChildEdgeIn(reg, tid, n - 1, e); }
  }

  lemma {:induction false} AggregateEdgeIn(reg: Registry, tid: TypeId, aggs: Aggregates, e: Edge)
    requires forall i :: 0 <= i < |aggs| ==> aggs[i].0 < |reg.types| && aggs[i].1 < |reg.types|
    requires e in AggregateEdges(reg, tid, aggs)
    ensures IsTypeEdge(reg, e)
  {
    if e in AggregateEdges(reg, tid, aggs[..|aggs| - 1]) { AggregateEdgeIn(reg, tid, aggs[..|aggs| - 1], e); }
  }

  /** Such names determine where an edge leads. */
  lemma OwnNamesTell(reg: Registry, aggs: Aggregates)
    requires Valid(reg, aggs) && OwnNames(reg)
    ensures NamesTell(reg, aggs)
  {
    hide Edges;
    forall t, i, j | 0 <= t < |reg.types| && 0 <= i < |Edges(reg, aggs, t)| && 0 <= j < |Edges(reg, aggs, t)|
      && Edges(reg, aggs, t)[i].name == Edges(reg, aggs, t)[j].name
      ensures Edges(reg, aggs, t)[i] == Edges(reg, aggs, t)[j]
    {
      SameName(reg, aggs, t, Edges(reg, aggs, t)[i], Edges(reg, aggs, t)[j]);
    }
  }

  lemma SameName(reg: Registry, aggs: Aggregates, t: TypeId, e: Edge, f: Edge)
    requires Valid(reg, aggs) && OwnNames(reg) && t < |reg.types|
    requires e in Edges(reg, aggs, t) && f in Edges(reg, aggs, t) && e.name == f.name
    ensures e == f
  {
    var attributes := reg.types[t].attributes;
    EdgeKind(reg, aggs, t, e);
    EdgeKind(reg, aggs, t, f);
    assert OwnAttributes(reg, attributes);
    hide Edges, AttributeEdges, OwnAttributes, IsTypeEdge;
    if e in AttributeEdges(reg, attributes) {
      AttributeName(reg, attributes, e);
      if f in AttributeEdges(reg, attributes) { SameAttribute(reg, attributes, e, f); }
    } else if f in AttributeEdges(reg, attributes) {
      AttributeName(reg, attributes, f);
    } else {
      SameType(reg, e, f);
    }
  }

  lemma AttributeName(reg: Registry, attributes: seq<Attribute>, e: Edge)
    requires OwnAttributes(reg, attributes) && e in AttributeEdges(reg, attributes)
    ensures !("$" <= e.name)
  {
    var i := AttributeEdgeIn(reg, attributes, e);
    hide AttributeEdges, AttributeEdge;
  }

  lemma SameAttribute(reg: Registry, attributes: seq<Attribute>, e: Edge, f: Edge)
    requires OwnAttributes(reg, attributes)
    requires e in AttributeEdges(reg, attributes) && f in AttributeEdges(reg, attributes) && e.name == f.name
    ensures e == f
  {
    var i := AttributeEdgeIn(reg, attributes, e);
    var j := AttributeEdgeIn(reg, attributes, f);
    hide AttributeEdges;
    assert i == j;
  }

  lemma SameType(reg: Registry, e: Edge, f: Edge)
    requires OwnNames(reg) && IsTypeEdge(reg, e) && IsTypeEdge(reg, f) && e.name == f.name
    ensures e == f
  {
    hide OwnAttributes;
    assert e.name[1..] == reg.types[e.target].name && f.name[1..] == reg.types[f.target].name;
  }

  lemma EdgeKind(reg: Registry, aggs: Aggregates, t: TypeId, e: Edge)
    requires Valid(reg, aggs) && t < |reg.types| && e in Edges(reg, aggs, t)
    ensures e in AttributeEdges(reg, reg.types[t].attributes) || (IsTypeEdge(reg, e) && "$" <= e.name)
  {
    if e in ChildEdges(reg, t, |reg.types|) { ChildEdgeIn(reg, t, |reg.types|, e); }
    if e in AggregateEdges(reg, t, aggs) { AggregateEdgeIn(reg, t, aggs, e); }
  }

  lemma ForkedPath(reg: Registry, aggs: Aggregates, root: TypeId, w: Walk, i: nat)
    requires Valid(reg, aggs) && root < |reg.types| && IsSimplePath(reg, aggs, root, w)
    requires var edges := Edges(reg, aggs, EndOf(reg, aggs, root, w));
      i < |edges| && edges[i].target !in Visits(reg, aggs, root, w)
    ensures IsSimplePath(reg, aggs, root, w + [i])
    ensures var edge := Edges(reg, aggs, EndOf(reg, aggs, root, w))[i];
      RecordOf(reg, aggs, root, [], w + [i])
      == (edge.target, JoinPath([] + (Names(reg, aggs, root, w) + [edge.name])))
  {
    hide Edges, JoinPath;
    var end := EndOf(reg, aggs, root, w);
    WalkSplit(reg, aggs, root, w, [i]);
    OneEdge(reg, aggs, end, i);
    assert Visits(reg, aggs, root, w + [i]) == Visits(reg, aggs, root, w) + [Edges(reg, aggs, end)[i].target];
  }

  /** Two different simple paths with the same names part at equal edges. */
  lemma SameNamesFork(reg: Registry, aggs: Aggregates, root: TypeId, a: Walk, b: Walk)
    requires Valid(reg, aggs) && root < |reg.types| && NamesTell(reg, aggs)
    requires IsSimplePath(reg, aggs, root, a) && IsSimplePath(reg, aggs, root, b) && a != b
    requires Names(reg, aggs, root, a) == Names(reg, aggs, root, b)
    ensures HasFork(reg, aggs, root)
  {
    hide Edges;
    EndIsLast(reg, aggs, root, a);
    EndIsLast(reg, aggs, root, b);
    var k := FirstDifference(a, b);
    var u, i, j := a[..k], a[k], b[k];
    PathEdge(reg, aggs, root, a, k);
    assert b[..k] == u;
    PathEdge(reg, aggs, root, b, k);
    var end := EndOf(reg, aggs, root, u);
    assert Edges(reg, aggs, end)[i] == Edges(reg, aggs, end)[j];
    assert Forks(reg, aggs, root, u, if i < j then i else j, if i < j then j else i);
  }

  lemma {:induction false} FirstDifference(a: Walk, b: Walk) returns (k: nat)
    requires |a| == |b| && a != b
    ensures k < |a| && a[k] != b[k] && a[..k] == b[..k]
  {
    if a[0] != b[0] { return 0; }
    k := FirstDifference(a[1..], b[1..]);
    assert a[..k + 1] == [a[0]] + a[1..][..k] && b[..k + 1] == [b[0]] + b[1..][..k];
    k := k + 1;
  }

  /** The edge at position `k` of a simple path: its name, and that it leads on. */
  lemma PathEdge(reg: Registry, aggs: Aggregates, root: TypeId, w: Walk, k: nat)
    requires Valid(reg, aggs) && root < |reg.types| && IsSimplePath(reg, aggs, root, w) && k < |w|
    ensures IsSimplePath(reg, aggs, root, w[..k])
    ensures var edges := Edges(reg, aggs, EndOf(reg, aggs, root, w[..k]));
      && w[k] < |edges| && edges[w[k]].target !in Visits(reg, aggs, root, w[..k])
      && |Names(reg, aggs, root, w)| == |w| && Names(reg, aggs, root, w)[k] == edges[w[k]].name
  {
    hide Edges, IsWalk, Visits, Names, EndOf;
    var u, v := w[..k], w[k..];
    assert w == u + v && v == [w[k]] + w[k + 1..];
    WalkSplit(reg, aggs, root, u, v);
    var end := EndOf(reg, aggs, root, u);
    WalkSplit(reg, aggs, end, [w[k]], w[k + 1..]);
    OneEdge(reg, aggs, end, w[k]);
    EndIsLast(reg, aggs, root, u);
    EndIsLast(reg, aggs, root, w);
    var target, behind := Edges(reg, aggs, end)[w[k]].target, EndOf(reg, aggs, end, [w[k]]);
    EndIsLast(reg, aggs, behind, w[k + 1..]);
    SimplePrefix(Visits(reg, aggs, root, u), [end, target], Visits(reg, aggs, behind, w[k + 1..])[1..]);
    assert Visits(reg, aggs, root, w)
        == Visits(reg, aggs, root, u) + ([end, target] + Visits(reg, aggs, behind, w[k + 1..])[1..])[1..];
  }

  lemma SimplePrefix(front: seq<TypeId>, two: seq<TypeId>, rest: seq<TypeId>)
    requires |two| == 2 && Distinct(front + (two + rest)[1..])
    ensures Distinct(front) && two[1] !in front
  {
    var all := front + (two + rest)[1..];
    assert all[|front|] == two[1];
    assert forall i :: 0 <= i < |front| ==> all[i] == front[i];
  }

  // ----- paths written down

  predicate NoSlash(s: string) { '/' !in s }

  /** An element of a path: a name without a slash, or such a name with "/[i]" behind it. */
  ghost predicate IsElement(s: string) {
    (NoSlash(s) && s != "[i]") || IsItems(s)
  }

  predicate IsItems(s: string) {
    |s| >= 4 && s[|s| - 4..] == "/[i]" && NoSlash(s[..|s| - 4])
  }

  ghost predicate AreElements(path: seq<string>) {
    forall k :: 0 <= k < |path| ==> IsElement(path[k])
  }

  lemma NoLaterSlash(p: string, a: string)
    requires NoSlash(a)
    ensures forall k :: |p| < k < |p + "/" + a| ==> (p + "/" + a)[k] != '/'
  {
    assert forall k :: |p| < k < |p + "/" + a| ==> (p + "/" + a)[k] == a[k - |p| - 1];
  }

  lemma LastSlash(p: string, a: string, q: string, b: string)
    requires p + "/" + a == q + "/" + b && NoSlash(a) && NoSlash(b)
    ensures p == q && a == b
  {
    var s, t := p + "/" + a, q + "/" + b;
    assert s[|p|] == '/' && t[|q|] == '/';
    NoLaterSlash(p, a);
    NoLaterSlash(q, b);
    assert |p| == |q|;
    assert s[..|p|] == p && t[..|q|] == q && s[|p| + 1..] == a && t[|q| + 1..] == b;
  }

  /** What is written down determines the path. */
  lemma {:induction false} JoinInjective(p: seq<string>, q: seq<string>)
    requires AreElements(p) && AreElements(q) && JoinPath(p) == JoinPath(q)
    ensures p == q
    decreases |p|
  {
    hide JoinPath, IsElement;
    JoinLast(p);
    JoinLast(q);
    if p != [] && q != [] {
      var a, b := p[|p| - 1], q[|q| - 1];
      LastElement(JoinPath(p[..|p| - 1]), a, JoinPath(q[..|q| - 1]), b);
      JoinInjective(p[..|p| - 1], q[..|q| - 1]);
      assert p == p[..|p| - 1] + [a] && q == q[..|q| - 1] + [b];
    }
  }

  lemma JoinLast(p: seq<string>)
    ensures p == [] ==> JoinPath(p) == ""
    ensures p != [] ==> JoinPath(p) == JoinPath(p[..|p| - 1]) + "/" + p[|p| - 1] && JoinPath(p) != ""
  {
  }

  lemma LastElement(s: string, a: string, t: string, b: string)
    requires IsElement(a) && IsElement(b) && s + "/" + a == t + "/" + b
    ensures s == t && a == b
  {
    if NoSlash(a) && NoSlash(b) {
      LastSlash(s, a, t, b);
    } else if NoSlash(a) {
      Items(t, b);
      LastSlash(s, a, t + "/" + b[..|b| - 4], "[i]");
      assert false;
    } else if NoSlash(b) {
      Items(s, a);
      LastSlash(s + "/" + a[..|a| - 4], "[i]", t, b);
      assert false;
    } else {
      Items(s, a);
      Items(t, b);
      LastSlash(s + "/" + a[..|a| - 4], "[i]", t + "/" + b[..|b| - 4], "[i]");
      LastSlash(s, a[..|a| - 4], t, b[..|b| - 4]);
      assert a == a[..|a| - 4] + "/[i]" && b == b[..|b| - 4] + "/[i]";
    }
  }

  lemma Items(s: string, a: string)
    requires IsItems(a)
    ensures s + "/" + a == s + "/" + a[..|a| - 4] + "/" + "[i]"
  {
    assert a == a[..|a| - 4] + "/[i]" && "/[i]" == "/" + "[i]";
  }

  /** No name of a type or of an attribute that is followed holds a slash, and no pointer is
      called "[i]". */
  ghost predicate PlainNames(reg: Registry) {
    forall t :: 0 <= t < |reg.types| ==>
      && NoSlash(reg.types[t].name)
      && forall i :: 0 <= i < |reg.types[t].attributes| ==>
           match reg.types[t].attributes[i]
           case Pointer(name, _) => NoSlash(name) && name != "[i]"
           case Container(name, _) => NoSlash(name)
           case Other(_) => true
  }

  ghost predicate ElementNames(edges: seq<Edge>) {
    forall k :: 0 <= k < |edges| ==> IsElement(edges[k].name)
  }

  lemma {:induction false} AttributeNames(reg: Registry, attributes: seq<Attribute>)
    requires forall i :: 0 <= i < |attributes| ==>
      match attributes[i]
      case Pointer(name, _) => NoSlash(name) && name != "[i]"
      case Container(name, _) => NoSlash(name)
      case Other(_) => true
    ensures ElementNames(AttributeEdges(reg, attributes))
  {
    if attributes == [] {
    } else {
      AttributeNames(reg, attributes[..|attributes| - 1]);
      var a := attributes[|attributes| - 1];
      if a.Container? { assert (a.name + "/[i]")[|a.name|..] == "/[i]" && (a.name + "/[i]")[..|a.name|] == a.name; }
    }
  }

  lemma ChildName(name: string)
    requires NoSlash(name)
    ensures IsElement("$" + name)
  {
    assert ("$" + name)[0] == '$' && "[i]"[0] == '[';
  }

  lemma NamesConcat(a: seq<Edge>, b: seq<Edge>)
    requires ElementNames(a) && ElementNames(b)
    ensures ElementNames(a + b)
  {
    hide IsElement;
  }

  lemma {:induction false} ChildNames(reg: Registry, tid: TypeId, n: nat)
    requires n <= |reg.types| && PlainNames(reg)
    ensures ElementNames(ChildEdges(reg, tid, n))
  {
    if n == 0 {
    } else {
      ChildNames(reg, tid, n - 1);
      assert NoSlash(reg.types[n - 1].name);
      hide PlainNames;
      ChildName(reg.types[n - 1].name);
      hide IsElement;
      NamesConcat(ChildEdges(reg, tid, n - 1), ChildEdge(reg, tid, n - 1));
    }
  }

  lemma {:induction false} AggregateNames(reg: Registry, tid: TypeId, aggs: Aggregates)
    requires forall i :: 0 <= i < |aggs| ==> aggs[i].0 < |reg.types| && aggs[i].1 < |reg.types|
    requires PlainNames(reg)
    ensures ElementNames(AggregateEdges(reg, tid, aggs))
  {
    if aggs == [] {
    } else {
      var last := |aggs| - 1;
      AggregateNames(reg, tid, aggs[..last]);
      assert NoSlash(reg.types[aggs[last].0].name) && NoSlash(reg.types[aggs[last].1].name);
      hide PlainNames;
      ChildName(reg.types[aggs[last].0].name);
      ChildName(reg.types[aggs[last].1].name);
      hide IsElement;
      NamesConcat(AggregateEdges(reg, tid, aggs[..last]), AggregateEdge(reg, tid, aggs[last]));
    }
  }

  lemma EdgeNames(reg: Registry, aggs: Aggregates, tid: TypeId)
    requires Valid(reg, aggs) && tid < |reg.types| && PlainNames(reg)
    ensures ElementNames(Edges(reg, aggs, tid))
  {
    AttributeNames(reg, reg.types[tid].attributes);
    ChildNames(reg, tid, |reg.types|);
    AggregateNames(reg, tid, aggs);
  }

  lemma {:induction false} PathElements(reg: Registry, aggs: Aggregates, tid: TypeId, w: Walk)
    requires Valid(reg, aggs) && tid < |reg.types| && IsWalk(reg, aggs, tid, w) && PlainNames(reg)
    ensures AreElements(Names(reg, aggs, tid, w))
    decreases |w|
  {
    hide Edges, IsElement;
    EdgesRegistered(reg, aggs, tid);
    EdgeNames(reg, aggs, tid);
    if w == [] {
    } else {
      PathElements(reg, aggs, Edges(reg, aggs, tid)[w[0]].target, w[1..]);
    }
  }

  // ----- the theorem

  /** The records of one search are all different exactly if no simple path from the root can be
      continued, to a type not yet on it, over two equal edges. */
  lemma RecordsDistinctIff(reg: Registry, aggs: Aggregates, root: TypeId, walks: seq<Walk>)
    requires Valid(reg, aggs) && root < |reg.types|
    requires ListsSimplePaths(reg, aggs, root, walks) && AreWalks(reg, aggs, root, walks)
    requires PlainNames(reg) && NamesTell(reg, aggs)
    ensures Distinct(RecordsOf(reg, aggs, root, [], walks)) <==> !HasFork(reg, aggs, root)
  {
    if HasFork(reg, aggs, root) {
      var w, i, j :| Forks(reg, aggs, root, w, i, j);
      ForkRepeats(reg, aggs, root, walks, w, i, j);
    } else {
      hide RecordOf, NamesTell, PlainNames, HasFork, IsSimplePath;
      var records := RecordsOf(reg, aggs, root, [], walks);
      forall p, q | 0 <= p < q < |records| ensures records[p] != records[q] {
        assert walks[p] in walks && walks[q] in walks;
        if records[p] == records[q] { EqualRecordsFork(reg, aggs, root, walks[p], walks[q]); }
      }
    }
  }

  lemma ForkRepeats(reg: Registry, aggs: Aggregates, root: TypeId, walks: seq<Walk>, w: Walk, i: nat, j: nat)
    requires Valid(reg, aggs) && root < |reg.types|
    requires ListsSimplePaths(reg, aggs, root, walks) && AreWalks(reg, aggs, root, walks)
    requires Forks(reg, aggs, root, w, i, j)
    ensures !Distinct(RecordsOf(reg, aggs, root, [], walks))
  {
    hide Edges, RecordOf, Visits;
    ForkedPath(reg, aggs, root, w, i);
    ForkedPath(reg, aggs, root, w, j);
    assert w + [i] in walks && w + [j] in walks;
    var p :| 0 <= p < |walks| && walks[p] == w + [i];
    var q :| 0 <= q < |walks| && walks[q] == w + [j];
    assert (w + [i])[|w|] != (w + [j])[|w|];
    var records := RecordsOf(reg, aggs, root, [], walks);
    assert records[p] == records[q] && p != q;
  }

  lemma EqualRecordsFork(reg: Registry, aggs: Aggregates, root: TypeId, a: Walk, b: Walk)
    requires Valid(reg, aggs) && root < |reg.types| && PlainNames(reg) && NamesTell(reg, aggs)
    requires IsSimplePath(reg, aggs, root, a) && IsSimplePath(reg, aggs, root, b) && a != b
    requires RecordOf(reg, aggs, root, [], a) == RecordOf(reg, aggs, root, [], b)
    ensures HasFork(reg, aggs, root)
  {
    var p, q := Names(reg, aggs, root, a), Names(reg, aggs, root, b);
    assert [] + p == p && [] + q == q;
    PathElements(reg, aggs, root, a);
    PathElements(reg, aggs, root, b);
    JoinInjective(p, q);
    SameNamesFork(reg, aggs, root, a, b);
  }

  // ----- an aggregation recorded twice

  lemma {:induction false} AggregatePrefix(reg: Registry, tid: TypeId, aggs: Aggregates, m: nat, n: nat)
    requires forall i :: 0 <= i < |aggs| ==> aggs[i].0 < |reg.types| && aggs[i].1 < |reg.types|
    requires m <= n <= |aggs|
    ensures AggregateEdges(reg, tid, aggs[..m]) <= AggregateEdges(reg, tid, aggs[..n])
    decreases n - m
  {
    if m < n {
      AggregatePrefix(reg, tid, aggs, m, n - 1);
      assert aggs[..n][..n - 1] == aggs[..n - 1];
    }
  }

  /** Where the edge of aggregation `p` stands among the edges of its first type. */
  function AggregatePosition(reg: Registry, aggs: Aggregates, tid: TypeId, p: nat): nat
    requires Valid(reg, aggs) && tid < |reg.types| && p <= |aggs|
  {
    |AttributeEdges(reg, reg.types[tid].attributes)| + |ChildEdges(reg, tid, |reg.types|)|
    + |AggregateEdges(reg, tid, aggs[..p])|
  }

  lemma AggregateAt(reg: Registry, aggs: Aggregates, p: nat)
    requires Valid(reg, aggs) && p < |aggs| && aggs[p].0 != aggs[p].1
    ensures var tid, i := aggs[p].0, AggregatePosition(reg, aggs, aggs[p].0, p);
      && i < |Edges(reg, aggs, tid)| && i < AggregatePosition(reg, aggs, tid, p + 1)
      && Edges(reg, aggs, tid)[i] == Edge("$" + reg.types[aggs[p].1].name, aggs[p].1)
  {
    var tid := aggs[p].0;
    AggregatePrefix(reg, tid, aggs, p + 1, |aggs|);
    assert aggs[..|aggs|] == aggs && aggs[..p + 1][..p] == aggs[..p];
    hide AttributeEdges, ChildEdges;
    var front := AggregateEdges(reg, tid, aggs[..p]);
    assert AggregateEdges(reg, tid, aggs[..p + 1]) == front + [Edge("$" + reg.types[aggs[p].1].name, aggs[p].1)];
    hide AggregateEdges;
    assert AggregateEdges(reg, tid, aggs)[|front|] == Edge("$" + reg.types[aggs[p].1].name, aggs[p].1);
  }

  /** An aggregation of two types that was recorded twice repeats a record, whatever else there
      is in the graph: the program records Node and Icmpv4L4Protocol twice. */
  lemma RecordedTwice(reg: Registry, aggs: Aggregates, p: nat, q: nat, walks: seq<Walk>)
    requires Valid(reg, aggs) && p < q < |aggs| && aggs[p] == aggs[q] && aggs[p].0 != aggs[p].1
    requires ListsSimplePaths(reg, aggs, aggs[p].0, walks) && AreWalks(reg, aggs, aggs[p].0, walks)
    ensures HasFork(reg, aggs, aggs[p].0)
    ensures !Distinct(RecordsOf(reg, aggs, aggs[p].0, [], walks))
  {
    var tid := aggs[p].0;
    var i, j := AggregatePosition(reg, aggs, tid, p), AggregatePosition(reg, aggs, tid, q);
    AggregateAt(reg, aggs, p);
    AggregateAt(reg, aggs, q);
    AggregatePrefix(reg, tid, aggs, p + 1, q);
    hide Edges;
    assert Visits(reg, aggs, tid, []) == [tid];
    assert Forks(reg, aggs, tid, [], i, j);
    ForkRepeats(reg, aggs, tid, walks, [], i, j);
  }

  const TWO_TYPES: Registry :=
    Registry([TypeInfo("ns3::Node", []), TypeInfo("ns3::Icmpv4L4Protocol", [])], {}, 2)

  lemma TwoTypesPositions()
    ensures var aggs: Aggregates := [(0, 1), (0, 1)];
      && Valid(TWO_TYPES, aggs)
      && AggregatePosition(TWO_TYPES, aggs, 0, 0) == 0 && AggregatePosition(TWO_TYPES, aggs, 0, 1) == 1
  {
    var reg, aggs: Aggregates := TWO_TYPES, [(0, 1), (0, 1)];
    assert ChildEdges(reg, 0, 0) == [] && ChildEdges(reg, 0, 1) == [] && ChildEdges(reg, 0, 2) == [];
    assert aggs[..1] == [(0, 1)] && aggs[..1][..0] == [] && aggs[..0] == [];
  }

  /** The smallest such input: two simple paths, one record. */
  lemma SmallestRepeat()
    ensures var reg, aggs: Aggregates := TWO_TYPES, [(0, 1), (0, 1)];
      && Valid(reg, aggs) && IsSimplePath(reg, aggs, 0, [0]) && IsSimplePath(reg, aggs, 0, [1])
      && RecordOf(reg, aggs, 0, [], [0]) == RecordOf(reg, aggs, 0, [], [1])
  {
    var reg, aggs: Aggregates := TWO_TYPES, [(0, 1), (0, 1)];
    TwoTypesPositions();
    AggregateAt(reg, aggs, 0);
    AggregateAt(reg, aggs, 1);
    hide Edges, JoinPath, AggregatePosition, AggregateEdges, ChildEdges;
    assert Visits(reg, aggs, 0, []) == [0];
    ForkedPath(reg, aggs, 0, [], 0);
    ForkedPath(reg, aggs, 0, [], 1);
    var none: Walk := [];
    assert none + [0] == [0] && none + [1] == [1];
  }
}
