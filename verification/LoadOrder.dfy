/** The order in which bindings/python/ns__init__.py loads the ns-3 libraries: layer after
    layer, each library in the first round in which all its dependencies are loaded.
 */
module LoadOrder {
  import opened Sequences

  /** For each library the libraries it is linked to. */
  type Graph = map<string, seq<string>>

  // ----- the specification of one round

  predicate CanBeLoaded(deps: Graph, lib: string, current: seq<string>)
    requires lib in deps
  {
    forall i :: 0 <= i < |deps[lib]| ==> deps[lib][i] in current
  }

  /** The pending libraries all of whose dependencies are loaded, in the order of `pending`. */
  function Ready(deps: Graph, pending: seq<string>, current: seq<string>): seq<string>
    requires forall i :: 0 <= i < |pending| ==> pending[i] in deps
  {
    if pending == [] then []
    else
      var last := |pending| - 1;
      Ready(deps, pending[..last], current)
      + (if CanBeLoaded(deps, pending[last], current) then [pending[last]] else [])
  }

  method ModulesThatCanBeLoaded(deps: Graph, pending: seq<string>, current: seq<string>)
    returns (modules: seq<string>)
    requires forall i :: 0 <= i < |pending| ==> pending[i] in deps
    ensures modules == Ready(deps, pending, current)
  {
    modules := [];
    for i := 0 to |pending|
      invariant modules == Ready(deps, pending[..i], current)
    {
      var canBeLoaded := true;
      for j := 0 to |deps[pending[i]]|
        invariant canBeLoaded
        invariant forall k :: 0 <= k < j ==> deps[pending[i]][k] in current
      {
        if deps[pending[i]][j] !in current {
          canBeLoaded := false;
          break;
        }
      }
      assert pending[..i + 1][..i] == pending[..i];
      if !canBeLoaded {
        continue;
      }
      modules := modules + [pending[i]];
    }
    assert pending[..|pending|] == pending;
  }

  // ----- removing from a list

  /** `s` without the elements of `gone`, in the same order. */
  function Without(s: seq<string>, gone: seq<string>): (rest: seq<string>) {
    if s == [] then []
    else if s[0] in gone then Without(s[1..], gone)
    else [s[0]] + Without(s[1..], gone)
  }

  /** list.remove: drops the first occurrence. */
  method Remove(s: seq<string>, x: string) returns (rest: seq<string>)
    requires x in s && Distinct(s)
    ensures rest == Without(s, [x])
  {
    var i := 0;
    while s[i] != x
      invariant 0 <= i < |s|
      invariant x !in s[..i]
      invariant x in s[i..]
      decreases |s| - i
    {
      i := i + 1;
    }
    rest := s[..i] + s[i + 1..];
    RemoveFirst(s, i);
  }

  lemma {:induction false} RemoveFirst(s: seq<string>, i: nat)
    requires i < |s| && Distinct(s)
    ensures Without(s, [s[i]]) == s[..i] + s[i + 1..]
  {
    if i == 0 {
      WithoutNone(s[1..], [s[0]]);
    } else {
      RemoveFirst(s[1..], i - 1);
      assert s[1..][..i - 1] == s[1..i];
      assert s[..i] == [s[0]] + s[1..i];
    }
  }

  lemma {:induction false} WithoutNone(s: seq<string>, gone: seq<string>)
    requires forall i :: 0 <= i < |s| ==> s[i] !in gone
    ensures Without(s, gone) == s
  {
    if s == [] {
    } else {
      WithoutNone(s[1..], gone);
    }
  }

  lemma {:induction false} WithoutMember(s: seq<string>, gone: seq<string>, x: string)
    ensures x in Without(s, gone) <==> x in s && x !in gone
  {
    if s == [] {
    } else {
      WithoutMember(s[1..], gone, x);
    }
  }

  lemma {:induction false} WithoutDistinct(s: seq<string>, gone: seq<string>)
    requires Distinct(s)
    ensures Distinct(Without(s, gone)) && |Without(s, gone)| <= |s|
  {
    if s == [] {
    } else {
      WithoutDistinct(s[1..], gone);
      WithoutMember(s[1..], gone, s[0]);
    }
  }

  lemma {:induction false} WithoutTwice(s: seq<string>, gone: seq<string>, x: string)
    ensures Without(Without(s, gone), [x]) == Without(s, gone + [x])
  {
    if s == [] {
    } else {
      WithoutTwice(s[1..], gone, x);
    }
  }

  lemma RemoveNext(s: seq<string>, gone: seq<string>, i: nat)
    requires Distinct(s) && Distinct(gone) && i < |gone| && gone[i] in s
    ensures var rest := Without(s, gone[..i]);
      Distinct(rest) && gone[i] in rest && Without(rest, [gone[i]]) == Without(s, gone[..i + 1])
  {
    WithoutMember(s, gone[..i], gone[i]);
    WithoutDistinct(s, gone[..i]);
    WithoutTwice(s, gone[..i], gone[i]);
    assert gone[..i + 1] == gone[..i] + [gone[i]];
  }

  lemma {:induction false} ReadyMember(deps: Graph, pending: seq<string>, current: seq<string>, x: string)
    requires forall i :: 0 <= i < |pending| ==> pending[i] in deps
    ensures x in Ready(deps, pending, current) <==> x in pending && CanBeLoaded(deps, x, current)
  {
    if pending == [] {
    } else {
      var last := |pending| - 1;
      ReadyMember(deps, pending[..last], current, x);
      assert x in pending <==> x in pending[..last] || x == pending[last];
    }
  }

  lemma {:induction false} ReadyDistinct(deps: Graph, pending: seq<string>, current: seq<string>)
    requires forall i :: 0 <= i < |pending| ==> pending[i] in deps
    requires Distinct(pending)
    ensures Distinct(Ready(deps, pending, current))
  {
    if pending == [] {
    } else {
      var last := |pending| - 1;
      ReadyDistinct(deps, pending[..last], current);
      ReadyMember(deps, pending[..last], current, pending[last]);
    }
  }

  // ----- the layered plan

  datatype Outcome = Ordered(layers: seq<seq<string>>) | RecursionError

  lemma StillKnown(deps: Graph, pending: seq<string>, gone: seq<string>)
    requires forall i :: 0 <= i < |pending| ==> pending[i] in deps
    ensures forall i :: 0 <= i < |Without(pending, gone)| ==> Without(pending, gone)[i] in deps
  {
  }

  /** The layers found from a given state with `frames` levels of recursion left. */
  function Plan(deps: Graph, pending: seq<string>, current: seq<string>, frames: nat): Outcome
    requires forall i :: 0 <= i < |pending| ==> pending[i] in deps
    decreases frames
  {
    if frames == 0 then RecursionError
    else if pending == [] then Ordered([])
    else
      var ready := Ready(deps, pending, current);
      StillKnown(deps, pending, ready);
      match Plan(deps, Without(pending, ready), current + ready, frames - 1)
      case Ordered(layers) => Ordered([ready] + layers)
      case RecursionError => RecursionError
  }

  /** The dictionary `steps` once `layers` have been stored under consecutive numbers. */
  function AddLayers(steps: map<nat, seq<string>>, stepNumber: nat, layers: seq<seq<string>>): map<nat, seq<string>>
    decreases |layers|
  {
    if layers == [] then steps
    else AddLayers(steps[stepNumber := layers[0]], stepNumber + 1, layers[1..])
  }

  lemma {:induction false} AddLayersAt(steps: map<nat, seq<string>>, stepNumber: nat, layers: seq<seq<string>>, k: nat)
    ensures k in AddLayers(steps, stepNumber, layers) <==> k in steps || stepNumber <= k < stepNumber + |layers|
    ensures k in AddLayers(steps, stepNumber, layers) ==>
      AddLayers(steps, stepNumber, layers)[k]
      == if stepNumber <= k < stepNumber + |layers| then layers[k - stepNumber] else steps[k]
    decreases |layers|
  {
    if layers == [] {
    } else {
      AddLayersAt(steps[stepNumber := layers[0]], stepNumber + 1, layers[1..], k);
    }
  }

  /** The worklists of dependency_order, updated in place by the recursion. */
  class Worklists {
    var pending: seq<string>
    var current: seq<string>
    var steps: map<nat, seq<string>>

    constructor (libraries: seq<string>)
      ensures pending == libraries && current == [] && steps == map[]
    {
      pending, current, steps := libraries, [], map[];
    }

    /** `frames` is what is left of the interpreter's recursion limit: without it, a round in
        which nothing is ready would repeat for ever. */
    method DependencyOrder(deps: Graph, stepNumber: nat, frames: nat) returns (ok: bool)
      requires Distinct(pending) && forall i :: 0 <= i < |pending| ==> pending[i] in deps
      requires forall k :: k in steps ==> k < stepNumber
      modifies this
      ensures var plan := Plan(deps, old(pending), old(current), frames);
        && (ok <==> plan.Ordered?)
        && (ok ==> pending == [] && steps == AddLayers(old(steps), stepNumber, plan.layers))
      decreases frames
    {
      hide Ready, Without, CanBeLoaded;
      if frames == 0 {
        return false;
      }
      if |pending| == 0 {
        return true;
      }
      if stepNumber !in steps {
        steps := steps[stepNumber := []];
      }
      var modules := ModulesThatCanBeLoaded(deps, pending, current);
      ReadyDistinct(deps, pending, current);
      forall i | 0 <= i < |modules| ensures modules[i] in pending {
        ReadyMember(deps, pending, current, modules[i]);
      }
      LoadLayer(modules, stepNumber);
      WithoutDistinct(old(pending), modules);
      StillKnown(deps, old(pending), modules);
      assert [] + modules == modules && steps[stepNumber] == modules;
      assert steps == old(steps)[stepNumber := modules];
      ghost var rest := Plan(deps, pending, current, frames - 1);
      ok := DependencyOrder(deps, stepNumber + 1, frames - 1);
      if ok {
        assert ([modules] + rest.layers)[1..] == rest.layers;
      }
    }

    /** The loop of one round: moves the ready modules from the pending to the loaded ones. */
    method LoadLayer(modules: seq<string>, stepNumber: nat)
      requires Distinct(pending) && Distinct(modules)
      requires forall i :: 0 <= i < |modules| ==> modules[i] in pending
      requires stepNumber in steps
      modifies this
      ensures pending == Without(old(pending), modules)
      ensures current == old(current) + modules
      ensures steps == old(steps)[stepNumber := old(steps[stepNumber]) + modules]
    {
      hide Without;
      ghost var before := pending;
      WithoutNone(pending, []);
      assert modules[..0] == [];
      for i := 0 to |modules|
        invariant pending == Without(before, modules[..i])
        invariant current == old(current) + modules[..i]
        invariant stepNumber in steps && steps[stepNumber] == old(steps[stepNumber]) + modules[..i]
        invariant steps.Keys == old(steps.Keys)
        invariant forall k :: k in steps && k != stepNumber ==> steps[k] == old(steps)[k]
      {
        RemoveNext(before, modules, i);
        assert modules[..i + 1] == modules[..i] + [modules[i]];
        steps := steps[stepNumber := steps[stepNumber] + [modules[i]]];
        pending := Remove(pending, modules[i]);
        current := current + [modules[i]];
      }
      assert modules[..|modules|] == modules;
    }
  }
}
