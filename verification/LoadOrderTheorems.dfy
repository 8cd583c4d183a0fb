/** What the load order is: layer k holds the libraries whose longest dependency chain has
    length k, every library comes after its dependencies, and the recursion ends exactly when
    the dependencies are closed and acyclic and no chain is too long for the interpreter.
 */
module LoadOrderTheorems {
  import opened LoadOrder
  import opened Sequences

  // ----- dependency chains

  /** Each element of a chain depends on the next; all but the last are known libraries. */
  ghost predicate IsChain(deps: Graph, chain: seq<string>) {
    && chain != []
    && forall i :: 0 <= i < |chain| - 1 ==> chain[i] in deps && chain[i + 1] in deps[chain[i]]
  }

  /** `lib` starts a chain of `length` dependencies. */
  ghost predicate HasChain(deps: Graph, lib: string, length: nat) {
    exists chain :: IsChain(deps, chain) && |chain| == length + 1 && chain[0] == lib
  }

  /** Some chain from `lib` ends in a name that is not a known library. */
  ghost predicate Dangles(deps: Graph, lib: string) {
    exists chain :: IsChain(deps, chain) && chain[0] == lib && chain[|chain| - 1] !in deps
  }

  /** No library starts a chain of `length` dependencies. */
  ghost predicate NoChain(deps: Graph, length: nat) {
    forall lib :: lib in deps ==> !HasChain(deps, lib, length)
  }

  ghost predicate Closed(deps: Graph) {
    forall lib, d :: lib in deps && d in deps[lib] ==> d in deps
  }

  ghost predicate Cyclic(deps: Graph) {
    exists chain :: IsChain(deps, chain) && |chain| > 1 && chain[0] == chain[|chain| - 1]
  }

  // ----- what is loaded after k rounds

  /** The libraries loaded after `k` rounds. */
  ghost function LoadedBy(deps: Graph, k: nat): set<string> {
    if k == 0 then {} else set lib | lib in deps && forall d :: d in deps[lib] ==> d in LoadedBy(deps, k - 1)
  }

  lemma {:induction false} LoadedGrows(deps: Graph, k: nat)
    ensures LoadedBy(deps, k) <= LoadedBy(deps, k + 1) <= deps.Keys
  {
    if k == 0 {
    } else {
      LoadedGrows(deps, k - 1);
    }
  }

  lemma {:induction false} LoadedMonotone(deps: Graph, j: nat, k: nat)
    requires j <= k
    ensures LoadedBy(deps, j) <= LoadedBy(deps, k)
    decreases k - j
  {
    if j < k {
      LoadedGrows(deps, j);
      LoadedMonotone(deps, j + 1, k);
    }
  }

  /** A library is loaded within `k` rounds exactly when it starts no chain of `k`
      dependencies and none that leaves the known libraries. */
  lemma {:induction false} LoadedIff(deps: Graph, lib: string, k: nat)
    ensures lib in LoadedBy(deps, k) <==> lib in deps && !HasChain(deps, lib, k) && !Dangles(deps, lib)
    decreases k
  {
    if k == 0 {
      assert IsChain(deps, [lib]);
    } else if lib in deps {
      forall d | d in deps[lib]
        ensures d in LoadedBy(deps, k - 1) <==> d in deps && !HasChain(deps, d, k - 1) && !Dangles(deps, d)
      {
        LoadedIff(deps, d, k - 1);
      }
      ChainsExtend(deps, lib, k);
    }
  }

  /** Chains from a library go through one of its dependencies. */
  lemma ChainsExtend(deps: Graph, lib: string, k: nat)
    requires k > 0 && lib in deps
    ensures HasChain(deps, lib, k) <==> exists d :: d in deps[lib] && HasChain(deps, d, k - 1)
    ensures Dangles(deps, lib) <==> exists d :: d in deps[lib] && (d !in deps || Dangles(deps, d))
  {
    if HasChain(deps, lib, k) {
      var chain :| IsChain(deps, chain) && |chain| == k + 1 && chain[0] == lib;
      ChainTail(deps, chain);
      assert HasChain(deps, chain[1], k - 1);
    }
    if d :| d in deps[lib] && HasChain(deps, d, k - 1) {
      var chain :| IsChain(deps, chain) && |chain| == k && chain[0] == d;
      ChainCons(deps, lib, chain);
    }
    if Dangles(deps, lib) {
      var chain :| IsChain(deps, chain) && chain[0] == lib && chain[|chain| - 1] !in deps;
      ChainTail(deps, chain);
      assert chain[1..][|chain| - 2] == chain[|chain| - 1];
      assert Dangles(deps, chain[1]);
    }
    if d :| d in deps[lib] && (d !in deps || Dangles(deps, d)) {
      if d !in deps {
        assert IsChain(deps, [lib, d]);
      } else {
        var chain :| IsChain(deps, chain) && chain[0] == d && chain[|chain| - 1] !in deps;
        ChainCons(deps, lib, chain);
        assert ([lib] + chain)[|chain|] == chain[|chain| - 1];
      }
    }
  }

  lemma ChainTail(deps: Graph, chain: seq<string>)
    requires IsChain(deps, chain) && |chain| > 1
    ensures IsChain(deps, chain[1..]) && chain[0] in deps && chain[1] in deps[chain[0]]
  {
  }

  lemma ChainCons(deps: Graph, lib: string, chain: seq<string>)
    requires IsChain(deps, chain) && lib in deps && chain[0] in deps[lib]
    ensures IsChain(deps, [lib] + chain)
  {
  }

  // ----- the rounds of the plan

  /** The elements of `s` that belong to `keep`, in order. */
  function Keep(s: seq<string>, keep: set<string>): seq<string> {
    if s == [] then [] else (if s[0] in keep then [s[0]] else []) + Keep(s[1..], keep)
  }

  lemma {:induction false} KeepMember(s: seq<string>, keep: set<string>, x: string)
    ensures x in Keep(s, keep) <==> x in s && x in keep
  {
    if s == [] {
    } else {
      KeepMember(s[1..], keep, x);
    }
  }

  lemma {:induction false} KeepDistinct(s: seq<string>, keep: set<string>)
    requires Distinct(s)
    ensures Distinct(Keep(s, keep))
  {
    if s == [] {
    } else {
      KeepDistinct(s[1..], keep);
      KeepMember(s[1..], keep, s[0]);
    }
  }

  lemma KeepHead(s: seq<string>, keep: set<string>)
    requires s != []
    ensures Keep(s, keep) == (if s[0] in keep then [s[0]] else []) + Keep(s[1..], keep)
  {
  }

  lemma KeepNone(keep: set<string>)
    ensures Keep([], keep) == []
  {
  }

  lemma {:induction false} KeepLast(s: seq<string>, keep: set<string>)
    requires s != []
    ensures Keep(s, keep) == Keep(s[..|s| - 1], keep) + (if s[|s| - 1] in keep then [s[|s| - 1]] else [])
  {
    hide Keep;
    var front := s[..|s| - 1];
    KeepHead(s, keep);
    KeepNone(keep);
    if |s| > 1 {
      KeepLast(s[1..], keep);
      KeepHead(front, keep);
      assert s[1..][..|s| - 2] == front[1..] && front[0] == s[0] && s[1..][|s| - 2] == s[|s| - 1];
    }
  }

  lemma {:induction false} KeepAgree(s: seq<string>, a: set<string>, b: set<string>)
    requires forall x :: x in s ==> (x in a <==> x in b)
    ensures Keep(s, a) == Keep(s, b)
  {
    if s == [] {
    } else {
      KeepAgree(s[1..], a, b);
    }
  }

  lemma {:induction false} KeepTwice(s: seq<string>, a: set<string>, b: set<string>)
    ensures Keep(Keep(s, a), b) == Keep(s, a * b)
  {
    if s == [] {
    } else {
      KeepTwice(s[1..], a, b);
      if s[0] in a {
        assert Keep(s, a)[1..] == Keep(s[1..], a);
      } else {
        assert Keep(s, a) == Keep(s[1..], a);
      }
    }
  }

  lemma {:induction false} WithoutKeeps(s: seq<string>, gone: seq<string>, keep: set<string>)
    requires forall x :: x in s ==> (x in keep <==> x !in gone)
    ensures Without(s, gone) == Keep(s, keep)
  {
    if s == [] {
    } else {
      WithoutKeeps(s[1..], gone, keep);
    }
  }

  lemma {:induction false} ReadyKeeps(deps: Graph, pending: seq<string>, current: seq<string>, keep: set<string>)
    requires forall i :: 0 <= i < |pending| ==> pending[i] in deps
    requires forall x :: x in pending ==> (x in keep <==> CanBeLoaded(deps, x, current))
    ensures Ready(deps, pending, current) == Keep(pending, keep)
  {
    if pending == [] {
    } else {
      ReadyKeeps(deps, pending[..|pending| - 1], current, keep);
      KeepLast(pending, keep);
    }
  }

  /** `libs` lists the known libraries, each once. */
  ghost predicate Lists(libs: seq<string>, deps: Graph) {
    && Distinct(libs)
    && (forall i :: 0 <= i < |libs| ==> libs[i] in deps)
    && (forall lib :: lib in deps ==> lib in libs)
  }

  /** The worklists before round `k`. */
  ghost predicate BeforeRound(deps: Graph, libs: seq<string>, k: nat, pending: seq<string>, current: seq<string>) {
    && Lists(libs, deps)
    && pending == Keep(libs, deps.Keys - LoadedBy(deps, k))
    && (forall x :: x in current <==> x in LoadedBy(deps, k))
  }

  /** The libraries loaded in round `k`, in the order in which they were listed. */
  ghost function Layer(deps: Graph, libs: seq<string>, k: nat): seq<string> {
    Keep(libs, LoadedBy(deps, k + 1) - LoadedBy(deps, k))
  }

  lemma PendingIn(deps: Graph, libs: seq<string>, k: nat, pending: seq<string>, current: seq<string>, x: string)
    requires BeforeRound(deps, libs, k, pending, current)
    ensures x in pending <==> x in deps && x !in LoadedBy(deps, k)
  {
    KeepMember(libs, deps.Keys - LoadedBy(deps, k), x);
  }

  lemma RoundReady(deps: Graph, libs: seq<string>, k: nat, pending: seq<string>, current: seq<string>)
    requires BeforeRound(deps, libs, k, pending, current)
    ensures forall i :: 0 <= i < |pending| ==> pending[i] in deps
    ensures Ready(deps, pending, current) == Layer(deps, libs, k)
  {
    var before, after := LoadedBy(deps, k), LoadedBy(deps, k + 1);
    forall i | 0 <= i < |pending| ensures pending[i] in deps {
      PendingIn(deps, libs, k, pending, current, pending[i]);
    }
    forall x | x in pending ensures x in after <==> CanBeLoaded(deps, x, current) {
      PendingIn(deps, libs, k, pending, current, x);
      LoadableIff(deps, k, current, x);
    }
    ReadyKeeps(deps, pending, current, after);
    KeepTwice(libs, deps.Keys - before, after);
    LoadedGrows(deps, k + 1);
    assert (deps.Keys - before) * after == after - before;
  }

  lemma LoadableIff(deps: Graph, k: nat, current: seq<string>, x: string)
    requires x in deps
    requires forall d :: d in current <==> d in LoadedBy(deps, k)
    ensures CanBeLoaded(deps, x, current) <==> x in LoadedBy(deps, k + 1)
  {
    if x in LoadedBy(deps, k + 1) {
      forall i | 0 <= i < |deps[x]| ensures deps[x][i] in current {
        assert deps[x][i] in deps[x];
      }
    }
  }

  lemma Round(deps: Graph, libs: seq<string>, k: nat, pending: seq<string>, current: seq<string>)
    requires BeforeRound(deps, libs, k, pending, current)
    ensures BeforeRound(deps, libs, k + 1, Without(pending, Layer(deps, libs, k)), current + Layer(deps, libs, k))
  {
    var before, after := LoadedBy(deps, k), LoadedBy(deps, k + 1);
    var layer := Layer(deps, libs, k);
    LoadedGrows(deps, k);
    forall x ensures x in layer <==> x in after && x !in before {
      KeepMember(libs, after - before, x);
    }
    forall x | x in pending ensures x in deps.Keys - after <==> x !in layer {
      PendingIn(deps, libs, k, pending, current, x);
    }
    WithoutKeeps(pending, layer, deps.Keys - after);
    KeepTwice(libs, deps.Keys - before, deps.Keys - after);
    assert (deps.Keys - before) * (deps.Keys - after) == deps.Keys - after;
  }

  lemma RoundKnown(deps: Graph, libs: seq<string>, k: nat, pending: seq<string>, current: seq<string>)
    requires BeforeRound(deps, libs, k, pending, current)
    ensures var next, loaded := Without(pending, Layer(deps, libs, k)), current + Layer(deps, libs, k);
      BeforeRound(deps, libs, k + 1, next, loaded) && forall i :: 0 <= i < |next| ==> next[i] in deps
  {
    Round(deps, libs, k, pending, current);
    RoundReady(deps, libs, k + 1, Without(pending, Layer(deps, libs, k)), current + Layer(deps, libs, k));
  }

  /** The plan from round `k` on succeeds exactly when the rounds left are enough. */
  lemma {:induction false} PlanSucceeds(deps: Graph, libs: seq<string>, k: nat, pending: seq<string>,
                                        current: seq<string>, frames: nat)
    requires BeforeRound(deps, libs, k, pending, current)
    requires forall i :: 0 <= i < |pending| ==> pending[i] in deps
    ensures Plan(deps, pending, current, frames).Ordered? <==>
            frames > 0 && LoadedBy(deps, k + frames - 1) == deps.Keys
    decreases frames
  {
    hide LoadedBy, BeforeRound, Layer, Ready, Without;
    if frames == 0 {
    } else {
      NothingPending(deps, libs, k, pending, current);
      if pending == [] {
        LoadedMonotone(deps, k, k + frames - 1);
        LoadedGrows(deps, k + frames - 1);
      } else {
        RoundReady(deps, libs, k, pending, current);
        RoundKnown(deps, libs, k, pending, current);
        var layer := Layer(deps, libs, k);
        PlanSucceeds(deps, libs, k + 1, Without(pending, layer), current + layer, frames - 1);
      }
    }
  }

  lemma NothingPending(deps: Graph, libs: seq<string>, k: nat, pending: seq<string>, current: seq<string>)
    requires BeforeRound(deps, libs, k, pending, current)
    ensures pending == [] <==> LoadedBy(deps, k) == deps.Keys
  {
    LoadedGrows(deps, k);
    if pending == [] {
      forall x | x in deps ensures x in LoadedBy(deps, k) {
        PendingIn(deps, libs, k, pending, current, x);
      }
    } else {
      PendingIn(deps, libs, k, pending, current, pending[0]);
    }
  }

  ghost function Layers(deps: Graph, libs: seq<string>, k: nat, n: nat): seq<seq<string>>
    decreases n
  {
    if n == 0 then [] else [Layer(deps, libs, k)] + Layers(deps, libs, k + 1, n - 1)
  }

  lemma {:induction false} LayersAt(deps: Graph, libs: seq<string>, k: nat, n: nat, i: nat)
    requires i < n
    ensures |Layers(deps, libs, k, n)| == n && Layers(deps, libs, k, n)[i] == Layer(deps, libs, k + i)
    decreases n
  {
    if n > 1 { LayersAt(deps, libs, k + 1, n - 1, if i == 0 then 0 else i - 1); }
  }

  /** The layers of a successful plan are those of the rounds from `k` on, up to the first
      round at whose start everything is loaded. */
  lemma {:induction false} PlanLayers(deps: Graph, libs: seq<string>, k: nat, pending: seq<string>,
                                      current: seq<string>, frames: nat)
    requires BeforeRound(deps, libs, k, pending, current)
    requires forall i :: 0 <= i < |pending| ==> pending[i] in deps
    requires Plan(deps, pending, current, frames).Ordered?
    ensures var layers := Plan(deps, pending, current, frames).layers;
      && LoadedBy(deps, k + |layers|) == deps.Keys
      && (layers != [] ==> LoadedBy(deps, k + |layers| - 1) != deps.Keys)
      && layers == Layers(deps, libs, k, |layers|)
    decreases frames
  {
    hide LoadedBy, BeforeRound, Layer, Ready, Without;
    NothingPending(deps, libs, k, pending, current);
    if pending == [] {
    } else {
      RoundReady(deps, libs, k, pending, current);
      RoundKnown(deps, libs, k, pending, current);
      var layer := Layer(deps, libs, k);
      PlanLayers(deps, libs, k + 1, Without(pending, layer), current + layer, frames - 1);
    }
  }

  lemma LayerIn(deps: Graph, libs: seq<string>, k: nat, x: string)
    requires Lists(libs, deps)
    ensures x in Layer(deps, libs, k) <==> x in LoadedBy(deps, k + 1) && x !in LoadedBy(deps, k)
  {
    LoadedGrows(deps, k + 1);
    KeepMember(libs, LoadedBy(deps, k + 1) - LoadedBy(deps, k), x);
  }

  // ----- the theorems

  lemma StartOfPlan(deps: Graph, libs: seq<string>)
    requires Lists(libs, deps)
    ensures BeforeRound(deps, libs, 0, libs, [])
  {
    WithoutNone(libs, []);
    WithoutKeeps(libs, [], deps.Keys - LoadedBy(deps, 0));
  }

  /** Layer k holds exactly the libraries whose longest dependency chain has length k. */
  lemma LayerIsLongestChain(deps: Graph, libs: seq<string>, frames: nat, k: nat, lib: string)
    requires Lists(libs, deps)
    requires Plan(deps, libs, [], frames).Ordered?
    requires k < |Plan(deps, libs, [], frames).layers|
    ensures lib in Plan(deps, libs, [], frames).layers[k] <==>
            lib in deps && HasChain(deps, lib, k) && !HasChain(deps, lib, k + 1)
  {
    hide LoadedBy, BeforeRound, Plan, HasChain, Dangles, Closed, NoChain, Layers, Layer;
    StartOfPlan(deps, libs);
    PlanLayers(deps, libs, 0, libs, [], frames);
    var n := |Plan(deps, libs, [], frames).layers|;
    AllLoadedIff(deps, n);
    LayersAt(deps, libs, 0, n, k);
    LayerIn(deps, libs, k, lib);
    LoadedIff(deps, lib, k);
    LoadedIff(deps, lib, k + 1);
    LoadedGrows(deps, k);
    ClosedIff(deps);
  }

  /** The number of layers is one more than the length of the longest chain of all. */
  lemma LayerCount(deps: Graph, libs: seq<string>, frames: nat)
    requires Lists(libs, deps)
    requires Plan(deps, libs, [], frames).Ordered?
    ensures var n := |Plan(deps, libs, [], frames).layers|;
      NoChain(deps, n) && (n > 0 ==> !NoChain(deps, n - 1))
  {
    hide LoadedBy, BeforeRound, Plan, IsChain, Layers;
    StartOfPlan(deps, libs);
    PlanLayers(deps, libs, 0, libs, [], frames);
    var n := |Plan(deps, libs, [], frames).layers|;
    AllLoadedIff(deps, n);
    if n > 0 { AllLoadedIff(deps, n - 1); }
  }

  /** Everything is loaded within `k` rounds exactly when every dependency is a known library
      and no library starts a chain of `k` dependencies. */
  lemma AllLoadedIff(deps: Graph, k: nat)
    ensures LoadedBy(deps, k) == deps.Keys <==>
            Closed(deps) && NoChain(deps, k)
  {
    LoadedGrows(deps, k);
    ClosedIff(deps);
    if LoadedBy(deps, k) == deps.Keys {
      forall lib | lib in deps ensures !HasChain(deps, lib, k) && !Dangles(deps, lib) {
        LoadedIff(deps, lib, k);
      }
    } else {
      var lib :| lib in deps && lib !in LoadedBy(deps, k);
      LoadedIff(deps, lib, k);
    }
  }

  lemma WholePlanSucceeds(deps: Graph, libs: seq<string>, frames: nat)
    requires Lists(libs, deps)
    ensures Plan(deps, libs, [], frames).Ordered? <==> frames > 0 && LoadedBy(deps, frames - 1) == deps.Keys
  {
    hide LoadedBy, BeforeRound, Plan, IsChain;
    StartOfPlan(deps, libs);
    PlanSucceeds(deps, libs, 0, libs, [], frames);
    assert frames > 0 ==> 0 + frames - 1 == frames - 1;
  }

  /** The recursion returns exactly when every dependency is a known library and no chain is
      as long as the recursion may go deep. */
  lemma SucceedsIff(deps: Graph, libs: seq<string>, frames: nat)
    requires Lists(libs, deps)
    ensures Plan(deps, libs, [], frames).Ordered? <==>
            frames > 0 && Closed(deps) && NoChain(deps, frames - 1)
  {
    hide Plan, LoadedBy, Closed, NoChain;
    WholePlanSucceeds(deps, libs, frames);
    if frames > 0 { AllLoadedIff(deps, frames - 1); }
  }

  lemma ClosedIff(deps: Graph)
    ensures Closed(deps) <==> forall lib :: lib in deps ==> !Dangles(deps, lib)
  {
    if Closed(deps) {
      forall lib | lib in deps ensures !Dangles(deps, lib) {
        if chain :| IsChain(deps, chain) && chain[0] == lib && chain[|chain| - 1] !in deps {
          ChainStaysInside(deps, chain, |chain| - 1);
        }
      }
    } else {
      var lib, d :| lib in deps && d in deps[lib] && d !in deps;
      assert IsChain(deps, [lib, d]);
      assert Dangles(deps, lib);
    }
  }

  lemma {:induction false} ChainStaysInside(deps: Graph, chain: seq<string>, i: nat)
    requires Closed(deps) && IsChain(deps, chain) && chain[0] in deps && i < |chain|
    ensures chain[i] in deps
  {
    if i == 0 {
    } else {
      ChainStaysInside(deps, chain, i - 1);
      assert chain[i - 1] in deps && chain[i - 1 + 1] in deps[chain[i - 1]];
    }
  }

  /** Some recursion limit suffices exactly for closed and acyclic dependencies; one more than
      the number of libraries always does for those. */
  lemma OrderedIffAcyclic(deps: Graph, libs: seq<string>)
    requires Lists(libs, deps)
    ensures (exists frames: nat :: Plan(deps, libs, [], frames).Ordered?) <==> Closed(deps) && !Cyclic(deps)
    ensures Closed(deps) && !Cyclic(deps) ==> Plan(deps, libs, [], |libs| + 1).Ordered?
  {
    if Closed(deps) && !Cyclic(deps) {
      AcyclicChainsAreShort(deps, libs);
      SucceedsIff(deps, libs, |libs| + 1);
    }
    if frames: nat :| Plan(deps, libs, [], frames).Ordered? {
      SucceedsIff(deps, libs, frames);
      if Cyclic(deps) {
        var chain :| IsChain(deps, chain) && |chain| > 1 && chain[0] == chain[|chain| - 1];
        assert chain[0] in deps;
        CycleChains(deps, chain, 0, frames - 1);
      }
    }
  }

  /** Two libraries that depend on each other: the recursion runs into its limit, whatever that
      is. */
  lemma PairNeverOrdered(a: string, b: string, frames: nat)
    requires a != b
    ensures Plan(map[a := [b], b := [a]], [a, b], [], frames) == RecursionError
  {
    var deps: Graph := map[a := [b], b := [a]];
    assert IsChain(deps, [a, b, a]) && Cyclic(deps) by {
      assert [a, b, a][0] == [a, b, a][2];
    }
    assert Lists([a, b], deps);
    OrderedIffAcyclic(deps, [a, b]);
    hide Plan, IsChain, Cyclic;
  }

  /** And so does a library that depends on an unknown name. */
  lemma UnknownNeverOrdered(a: string, unknown: string, frames: nat)
    requires a != unknown
    ensures Plan(map[a := [unknown]], [a], [], frames) == RecursionError
  {
    var deps: Graph := map[a := [unknown]];
    assert unknown in deps[a] && unknown !in deps;
    assert Lists([a], deps);
    OrderedIffAcyclic(deps, [a]);
    hide Plan;
  }

  lemma AcyclicChainsAreShort(deps: Graph, libs: seq<string>)
    requires Lists(libs, deps) && Closed(deps) && !Cyclic(deps)
    ensures NoChain(deps, |libs|)
  {
    forall lib | lib in deps ensures !HasChain(deps, lib, |libs|) {
      if HasChain(deps, lib, |libs|) { LongChainCycles(deps, libs, lib); }
    }
  }

  lemma LongChainCycles(deps: Graph, libs: seq<string>, lib: string)
    requires Lists(libs, deps) && Closed(deps) && lib in deps && HasChain(deps, lib, |libs|)
    ensures Cyclic(deps)
  {
    var chain :| IsChain(deps, chain) && |chain| == |libs| + 1 && chain[0] == lib;
    forall i | 0 <= i < |chain| ensures chain[i] in libs {
      ChainStaysInside(deps, chain, i);
    }
    if Distinct(chain) {
      DistinctBound(chain, libs);
    }
    var i, j :| 0 <= i < j < |chain| && chain[i] == chain[j];
    PartOfChain(deps, chain, i, j);
  }

  lemma PartOfChain(deps: Graph, chain: seq<string>, i: nat, j: nat)
    requires IsChain(deps, chain) && i < j < |chain| && chain[i] == chain[j]
    ensures Cyclic(deps)
  {
    hide IsChain;
    Link(deps, chain, i, j);
    ClosedCycle(deps, chain[i..j + 1]);
  }

  lemma ClosedCycle(deps: Graph, cycle: seq<string>)
    requires IsChain(deps, cycle) && |cycle| > 1 && cycle[0] == cycle[|cycle| - 1]
    ensures Cyclic(deps)
  {
    hide IsChain;
  }

  lemma {:induction false} Link(deps: Graph, chain: seq<string>, i: nat, j: nat)
    requires IsChain(deps, chain) && i <= j < |chain|
    ensures IsChain(deps, chain[i..j + 1])
    decreases j - i
  {
    if i == j {
      assert |chain[i..j + 1]| == 1;
    } else {
      Link(deps, chain, i + 1, j);
      assert chain[i] in deps && chain[i + 1] in deps[chain[i]];
      hide IsChain;
      ChainCons(deps, chain[i], chain[i + 1..j + 1]);
      assert [chain[i]] + chain[i + 1..j + 1] == chain[i..j + 1];
    }
  }

  /** Distinct elements of a list are no more than the list is long. */
  lemma {:induction false} DistinctBound(s: seq<string>, t: seq<string>)
    requires Distinct(s) && forall i :: 0 <= i < |s| ==> s[i] in t
    ensures |s| <= |t|
  {
    if s == [] {
    } else {
      var k :| 0 <= k < |t| && t[k] == s[0];
      var rest := t[..k] + t[k + 1..];
      forall i | 0 <= i < |s[1..]| ensures s[1..][i] in rest {
        var m :| 0 <= m < |t| && t[m] == s[i + 1];
        assert m != k;
        assert t[m] == rest[if m < k then m else m - 1];
      }
      DistinctBound(s[1..], rest);
    }
  }

  /** From a library on a cycle there are chains of every length. */
  lemma {:induction false} CycleChains(deps: Graph, cycle: seq<string>, i: nat, length: nat)
    requires IsChain(deps, cycle) && |cycle| > 1 && cycle[0] == cycle[|cycle| - 1] && i < |cycle| - 1
    ensures HasChain(deps, cycle[i], length)
    decreases length
  {
    if length == 0 {
      assert IsChain(deps, [cycle[i]]);
    } else {
      var next := if i + 1 == |cycle| - 1 then 0 else i + 1;
      CycleChains(deps, cycle, next, length - 1);
      var chain :| IsChain(deps, chain) && |chain| == length && chain[0] == cycle[next];
      assert cycle[i] in deps && cycle[i + 1] in deps[cycle[i]];
      ChainCons(deps, cycle[i], chain);
    }
  }

  /** If in some round libraries are pending and none is ready, there is a cycle or a
      dependency on an unknown library, and no recursion limit would have helped. */
  lemma StuckRound(deps: Graph, libs: seq<string>, k: nat, pending: seq<string>, current: seq<string>)
    requires BeforeRound(deps, libs, k, pending, current)
    requires forall i :: 0 <= i < |pending| ==> pending[i] in deps
    requires pending != [] && Ready(deps, pending, current) == []
    ensures Cyclic(deps) || !Closed(deps)
  {
    RoundReady(deps, libs, k, pending, current);
    LoadedGrows(deps, k);
    forall x | x in LoadedBy(deps, k + 1) ensures x in LoadedBy(deps, k) {
      KeepMember(libs, LoadedBy(deps, k + 1) - LoadedBy(deps, k), x);
    }
    NothingPending(deps, libs, k, pending, current);
    if Closed(deps) && !Cyclic(deps) {
      AcyclicChainsAreShort(deps, libs);
      AllLoadedIff(deps, |libs|);
      Stalled(deps, k, |libs|);
    }
  }

  /** Once a round adds nothing, no later one does. */
  lemma {:induction false} Stalled(deps: Graph, k: nat, j: nat)
    requires LoadedBy(deps, k) == LoadedBy(deps, k + 1)
    ensures LoadedBy(deps, j) <= LoadedBy(deps, k)
  {
    if j <= k {
      LoadedMonotone(deps, j, k);
    } else if j > k + 1 {
      Stalled(deps, k, j - 1);
      LoadedBySubset(deps, j - 1, k);
    }
  }

  lemma LoadedBySubset(deps: Graph, j: nat, k: nat)
    requires LoadedBy(deps, j) <= LoadedBy(deps, k)
    ensures LoadedBy(deps, j + 1) <= LoadedBy(deps, k + 1)
  {
  }

  // ----- the flattened list

  function Flatten(layers: seq<seq<string>>): seq<string> {
    if layers == [] then [] else layers[0] + Flatten(layers[1..])
  }

  /** The flattened rounds k to k + n hold what these rounds load. */
  lemma {:induction false} FlattenIn(deps: Graph, libs: seq<string>, k: nat, n: nat, x: string)
    requires Lists(libs, deps)
    ensures x in Flatten(Layers(deps, libs, k, n)) <==> x in LoadedBy(deps, k + n) && x !in LoadedBy(deps, k)
    decreases n
  {
    if n == 0 {
    } else {
      LayerIn(deps, libs, k, x);
      FlattenIn(deps, libs, k + 1, n - 1, x);
      LoadedGrows(deps, k);
      LoadedMonotone(deps, k + 1, k + n);
    }
  }

  /** Each library once. */
  lemma {:induction false} FlattenDistinct(deps: Graph, libs: seq<string>, k: nat, n: nat)
    requires Lists(libs, deps)
    ensures Distinct(Flatten(Layers(deps, libs, k, n)))
    decreases n
  {
    if n == 0 {
    } else {
      var layer, rest := Layer(deps, libs, k), Flatten(Layers(deps, libs, k + 1, n - 1));
      FlattenDistinct(deps, libs, k + 1, n - 1);
      KeepDistinct(libs, LoadedBy(deps, k + 1) - LoadedBy(deps, k));
      forall i | 0 <= i < |layer| ensures layer[i] !in rest {
        LayerIn(deps, libs, k, layer[i]);
        FlattenIn(deps, libs, k + 1, n - 1, layer[i]);
      }
      DistinctConcat(layer, rest);
    }
  }

  lemma DistinctConcat(a: seq<string>, b: seq<string>)
    requires Distinct(a) && Distinct(b) && forall i :: 0 <= i < |a| ==> a[i] !in b
    ensures Distinct(a + b)
  {
  }

  /** Each library after its dependencies. */
  lemma {:induction false} FlattenOrdered(deps: Graph, libs: seq<string>, k: nat, n: nat, i: nat, d: string)
    requires Lists(libs, deps)
    requires i < |Flatten(Layers(deps, libs, k, n))|
    requires var lib := Flatten(Layers(deps, libs, k, n))[i]; lib in deps && d in deps[lib]
    ensures d in LoadedBy(deps, k) || d in Flatten(Layers(deps, libs, k, n))[..i]
    decreases n
  {
    if n == 0 {
    } else {
      var layer, rest := Layer(deps, libs, k), Flatten(Layers(deps, libs, k + 1, n - 1));
      assert Flatten(Layers(deps, libs, k, n)) == layer + rest;
      if i < |layer| {
        LayerIn(deps, libs, k, layer[i]);
      } else {
        FlattenOrdered(deps, libs, k + 1, n - 1, i - |layer|, d);
        LayerIn(deps, libs, k, d);
        assert (layer + rest)[..i] == layer + rest[..i - |layer|];
      }
    }
  }

  /** The flattened plan is a permutation of the libraries in dependency order. */
  lemma FlattenPlan(deps: Graph, libs: seq<string>, frames: nat)
    requires Lists(libs, deps)
    requires Plan(deps, libs, [], frames).Ordered?
    ensures var flat := Flatten(Plan(deps, libs, [], frames).layers);
      && Lists(flat, deps)
      && forall i, d :: 0 <= i < |flat| && d in deps[flat[i]] ==> d in flat[..i]
  {
    hide LoadedBy, BeforeRound, Plan, Layers;
    StartOfPlan(deps, libs);
    PlanLayers(deps, libs, 0, libs, [], frames);
    var layers := Plan(deps, libs, [], frames).layers;
    var n, flat := |layers|, Flatten(layers);
    FlattenDistinct(deps, libs, 0, n);
    forall x ensures x in flat <==> x in deps {
      FlattenIn(deps, libs, 0, n, x);
    }
    forall i, d | 0 <= i < |flat| && d in deps[flat[i]] ensures d in flat[..i] {
      FlattenOrdered(deps, libs, 0, n, i, d);
    }
  }

  /** Joins the layers stored in the dictionary, in the order in which they were stored. */
  method JoinSteps(steps: map<nat, seq<string>>, ghost layers: seq<seq<string>>) returns (sorted: seq<string>)
    requires steps == AddLayers(map[], 0, layers)
    ensures sorted == Flatten(layers)
  {
    sorted := [];
    var k := 0;
    AddLayersAt(map[], 0, layers, 0);
    while k in steps
      invariant 0 <= k <= |layers|
      invariant k in steps <==> k < |layers|
      invariant sorted + Flatten(layers[k..]) == Flatten(layers)
      decreases |layers| - k
    {
      AddLayersAt(map[], 0, layers, k);
      AddLayersAt(map[], 0, layers, k + 1);
      assert layers[k..][1..] == layers[k + 1..];
      sorted := sorted + steps[k];
      k := k + 1;
    }
  }

  /** sort_to_dependencies on given dependencies: it succeeds exactly when they are closed and
      no chain is too long; the result is a permutation of the libraries in which every
      library comes after all its dependencies. */
  method SortToDependencies(deps: Graph, libs: seq<string>, frames: nat) returns (ok: bool, sorted: seq<string>)
    requires Lists(libs, deps)
    ensures ok <==> frames > 0 && Closed(deps) && NoChain(deps, frames - 1)
    ensures ok ==> Lists(sorted, deps)
    ensures ok ==> forall i, d :: 0 <= i < |sorted| && d in deps[sorted[i]] ==> d in sorted[..i]
  {
    SucceedsIff(deps, libs, frames);
    var lists := new Worklists(libs);
    ok := lists.DependencyOrder(deps, 0, frames);
    sorted := [];
    if ok {
      sorted := JoinSteps(lists.steps, Plan(deps, libs, [], frames).layers);
      FlattenPlan(deps, libs, frames);
    }
  }
}
