/** The layered load order of bindings/python/ns__init__.py: in every step all modules whose
    dependencies are already loaded are loaded together. */
module DependencyOrder {
  import opened Common

  datatype Module = Module(name: string)

  type Dependencies = map<Module, seq<Module>>

  // ---------- Dependency maps ----------

  ghost predicate Listing(deps: Dependencies, keys: seq<Module>) {
    Distinct(keys) && forall m :: m in keys <==> m in deps
  }

  /** Every dependency is itself a module of the map. */
  ghost predicate Closed(deps: Dependencies) {
    forall m | m in deps :: forall d | d in deps[m] :: d in deps
  }

  /** Each module depends on the one behind it. */
  ghost predicate IsWalk(deps: Dependencies, p: seq<Module>) {
    (forall m | m in p :: m in deps) && forall i | 0 <= i < |p| - 1 :: p[i + 1] in deps[p[i]]
  }

  ghost predicate IsCycle(deps: Dependencies, p: seq<Module>) {
    |p| > 1 && IsWalk(deps, p) && p[0] == p[|p| - 1]
  }

  ghost predicate Acyclic(deps: Dependencies) {
    forall p :: !IsCycle(deps, p)
  }

  /** A dependency chain of length n starts at m. */
  ghost predicate HasChain(deps: Dependencies, m: Module, n: nat)
    decreases n
  {
    n == 0 || (m in deps && exists d :: d in deps[m] && HasChain(deps, d, n - 1))
  }

  /** The longest dependency chain from m has length n. */
  ghost predicate Depth(deps: Dependencies, m: Module, n: nat) {
    HasChain(deps, m, n) && !HasChain(deps, m, n + 1)
  }

  // ---------- The order as a function ----------

  predicate CanBeLoaded(deps: Dependencies, m: Module, current: seq<Module>) {
    m in deps && forall d | d in deps[m] :: d in current
  }

  function Loadable(deps: Dependencies, pending: seq<Module>, current: seq<Module>): seq<Module> {
    if pending == [] then []
    else
      var front, last := pending[..|pending| - 1], pending[|pending| - 1];
      if CanBeLoaded(deps, last, current) then Loadable(deps, front, current) + [last]
      else Loadable(deps, front, current)
  }

  function Without(pending: seq<Module>, gone: seq<Module>): seq<Module> {
    if pending == [] then []
    else
      var front, last := pending[..|pending| - 1], pending[|pending| - 1];
      if last in gone then Without(front, gone) else Without(front, gone) + [last]
  }

  /** The steps, or nothing when a step loads no module although some are pending. */
  function Order(deps: Dependencies, pending: seq<Module>, current: seq<Module>): Option<seq<seq<Module>>>
    decreases |pending|
  {
    if pending == [] then Some([])
    else
      var step := Loadable(deps, pending, current);
      if step == [] then None
      else
        LoadableMembers(deps, pending, current);
        WithoutMembers(pending, step);
        WithoutIsShorter(pending, step, step[0]);
        match Order(deps, Without(pending, step), current + step)
        case None => None
        case Some(rest) => Some([step] + rest)
  }

  function Flatten(steps: seq<seq<Module>>): seq<Module> {
    if steps == [] then [] else steps[0] + Flatten(steps[1..])
  }

  // ---------- Filters ----------

  lemma {:induction false} LoadableMembers(deps: Dependencies, pending: seq<Module>, current: seq<Module>)
    ensures forall m :: m in Loadable(deps, pending, current) <==> m in pending && CanBeLoaded(deps, m, current)
    ensures Distinct(pending) ==> Distinct(Loadable(deps, pending, current))
  {
    if pending != [] {
      var front, last := pending[..|pending| - 1], pending[|pending| - 1];
      assert pending == front + [last];
      LoadableMembers(deps, front, current);
      if Distinct(pending) {
        assert last !in front;
        assert last !in Loadable(deps, front, current);
      }
    }
  }

  lemma {:induction false} WithoutMembers(pending: seq<Module>, gone: seq<Module>)
    ensures forall m :: m in Without(pending, gone) <==> m in pending && m !in gone
    ensures Distinct(pending) ==> Distinct(Without(pending, gone))
  {
    if pending != [] {
      var front, last := pending[..|pending| - 1], pending[|pending| - 1];
      assert pending == front + [last];
      WithoutMembers(front, gone);
      if Distinct(pending) {
        assert last !in front;
        assert last !in Without(front, gone);
      }
    }
  }

  lemma {:induction false} WithoutIsShorter(pending: seq<Module>, gone: seq<Module>, m: Module)
    ensures |Without(pending, gone)| <= |pending|
    ensures m in pending && m in gone ==> |Without(pending, gone)| < |pending|
  {
    if pending != [] {
      var front, last := pending[..|pending| - 1], pending[|pending| - 1];
      assert pending == front + [last];
      WithoutIsShorter(front, gone, m);
    }
  }

  lemma {:induction false} SplitByLoadable(deps: Dependencies, pending: seq<Module>, current: seq<Module>)
    requires Distinct(pending)
    ensures var step := Loadable(deps, pending, current);
      multiset(pending) == multiset(step) + multiset(Without(pending, step))
  {
    var step := Loadable(deps, pending, current);
    LoadableMembers(deps, pending, current);
    WithoutMembers(pending, step);
    var rest := Without(pending, step);
    forall m ensures multiset(pending)[m] == multiset(step)[m] + multiset(rest)[m] {
      DistinctMultiplicity(pending, m);
      DistinctMultiplicity(step, m);
      DistinctMultiplicity(rest, m);
    }
  }

  lemma {:induction false} DistinctMultiplicity(s: seq<Module>, m: Module)
    requires Distinct(s)
    ensures multiset(s)[m] == if m in s then 1 else 0
  {
    if s != [] {
      assert s == [s[0]] + s[1..];
      DistinctMultiplicity(s[1..], m);
    }
  }

  // ---------- Chains ----------

  lemma {:induction false} ChainShorter(deps: Dependencies, m: Module, n: nat)
    requires HasChain(deps, m, n + 1)
    ensures HasChain(deps, m, n)
    decreases n
  {
    if n > 0 {
      var d :| d in deps[m] && HasChain(deps, d, n);
      ChainShorter(deps, d, n - 1);
    }
  }

  lemma {:induction false} CycleHasChains(deps: Dependencies, p: seq<Module>, i: nat, n: nat)
    requires IsCycle(deps, p) && i < |p|
    ensures HasChain(deps, p[i], n)
    decreases n
  {
    if n > 0 {
      var k := if i < |p| - 1 then i else 0;
      CycleHasChains(deps, p, k + 1, n - 1);
      assert p[k + 1] in deps[p[k]] && p[i] == p[k];
    }
  }

  // ---------- A step that loads nothing ----------

  lemma {:induction false} ManyInFew(p: seq<Module>, s: set<Module>)
    requires Distinct(p) && forall m | m in p :: m in s
    ensures |p| <= |s|
  {
    if p != [] {
      var rest := p[1..];
      assert forall i | 0 <= i < |rest| :: rest[i] == p[i + 1];
      assert forall m | m in rest :: m in s - {p[0]};
      ManyInFew(rest, s - {p[0]});
    }
  }

  /** While nothing is missing, dependencies that are not loaded can be followed forever. */
  lemma {:induction false} FollowPending(deps: Dependencies, pending: seq<Module>, current: seq<Module>, n: nat)
    returns (p: seq<Module>)
    requires pending != [] && Loadable(deps, pending, current) == []
    requires forall m | m in pending :: m in deps && forall d | d in deps[m] :: d in pending || d in current
    ensures |p| == n + 1 && IsWalk(deps, p) && forall m | m in p :: m in pending
  {
    LoadableMembers(deps, pending, current);
    if n == 0 {
      p := [pending[0]];
    } else {
      p := FollowPending(deps, pending, current, n - 1);
      var last := p[n - 1];
      assert last in p;
      assert !CanBeLoaded(deps, last, current);
      var d :| d in deps[last] && d !in current;
      p := p + [d];
    }
  }

  /** Conversely to loading: a stuck step shows a dependency of a pending module that is
      neither loaded nor pending, or a cycle among the pending modules. */
  lemma StuckMeansMissingOrCycle(deps: Dependencies, pending: seq<Module>, current: seq<Module>)
    returns (cycle: seq<Module>)
    requires pending != [] && Loadable(deps, pending, current) == [] && forall m | m in pending :: m in deps
    ensures (exists m, d :: m in pending && d in deps[m] && d !in pending && d !in current)
         || (IsCycle(deps, cycle) && forall m | m in cycle :: m in pending)
  {
    cycle := [];
    if forall m, d | m in pending && d in deps[m] :: d in pending || d in current {
      var all := set m | m in pending;
      var p := FollowPending(deps, pending, current, |all|);
      if Distinct(p) { ManyInFew(p, all); }
      var i, j :| 0 <= i < j < |p| && p[i] == p[j];
      cycle := p[i..j + 1];
      assert forall m | m in cycle :: m in p;
    }
  }

  // ---------- What a successful order means ----------

  /** The state between two steps: k steps are done, and what is loaded, what is pending. */
  ghost predicate Between(deps: Dependencies, pending: seq<Module>, current: seq<Module>) {
    Distinct(pending)
    && (forall m :: m in deps <==> m in pending || m in current)
    && (forall m | m in pending :: m !in current)
    && (forall m | m in current :: forall d | d in deps[m] :: d in current)
  }

  /** k is the number of the step: chains shorter than it have been used up. */
  ghost predicate Deep(deps: Dependencies, pending: seq<Module>, current: seq<Module>, k: nat) {
    (forall m | m in pending :: HasChain(deps, m, k))
    && (forall m | m in current :: !HasChain(deps, m, k))
  }

  lemma StepKeepsBetween(deps: Dependencies, pending: seq<Module>, current: seq<Module>)
    requires Between(deps, pending, current)
    ensures var step := Loadable(deps, pending, current);
      Between(deps, Without(pending, step), current + step)
  {
    var step := Loadable(deps, pending, current);
    LoadableMembers(deps, pending, current);
    WithoutMembers(pending, step);
  }

  lemma StepKeepsDeep(deps: Dependencies, pending: seq<Module>, current: seq<Module>, k: nat)
    requires Between(deps, pending, current) && Deep(deps, pending, current, k) && Closed(deps)
    ensures var step := Loadable(deps, pending, current);
      Deep(deps, Without(pending, step), current + step, k + 1)
      && AtDepth(deps, step, k)
  {
    var step := Loadable(deps, pending, current);
    LoadableMembers(deps, pending, current);
    WithoutMembers(pending, step);
    forall m | m in Without(pending, step) ensures HasChain(deps, m, k + 1) {
      var d :| d in deps[m] && d !in current;
      assert d in pending;
    }
    forall m | m in current + step ensures !HasChain(deps, m, k + 1) {
      if m in current && HasChain(deps, m, k + 1) { ChainShorter(deps, m, k); }
    }
  }

  lemma {:induction false} OrderedIsClosed(deps: Dependencies, pending: seq<Module>, current: seq<Module>)
    requires Between(deps, pending, current) && Order(deps, pending, current).Some?
    ensures Closed(deps)
    decreases |pending|
  {
    if pending != [] {
      var step := Loadable(deps, pending, current);
      StepKeepsBetween(deps, pending, current);
      WithoutShrinks(deps, pending, current);
      OrderedIsClosed(deps, Without(pending, step), current + step);
    }
  }

  lemma WithoutShrinks(deps: Dependencies, pending: seq<Module>, current: seq<Module>)
    requires Loadable(deps, pending, current) != []
    ensures |Without(pending, Loadable(deps, pending, current))| < |pending|
  {
    var step := Loadable(deps, pending, current);
    LoadableMembers(deps, pending, current);
    assert step[0] in step;
    WithoutIsShorter(pending, step, step[0]);
  }

  ghost predicate AtDepth(deps: Dependencies, step: seq<Module>, n: nat) {
    forall m | m in step :: Depth(deps, m, n)
  }

  ghost predicate StepsAtDepths(deps: Dependencies, steps: seq<seq<Module>>, k: nat) {
    forall i | 0 <= i < |steps| :: AtDepth(deps, steps[i], k + i)
  }

  lemma FirstStep(deps: Dependencies, step: seq<Module>, later: seq<seq<Module>>, k: nat)
    requires AtDepth(deps, step, k) && StepsAtDepths(deps, later, k + 1)
    ensures StepsAtDepths(deps, [step] + later, k)
  {
    var steps := [step] + later;
    forall i | 0 <= i < |steps| ensures AtDepth(deps, steps[i], k + i) {
      if i > 0 { assert steps[i] == later[i - 1] && AtDepth(deps, later[i - 1], k + 1 + (i - 1)); }
    }
  }

  /** Each pending module is in the step that is its depth. */
  lemma {:induction false} StepsAreDepths(deps: Dependencies, pending: seq<Module>, current: seq<Module>, k: nat)
    requires Between(deps, pending, current) && Deep(deps, pending, current, k)
    requires Order(deps, pending, current).Some?
    ensures StepsAtDepths(deps, Order(deps, pending, current).value, k)
    decreases |pending|
  {
    if pending != [] {
      var step := Loadable(deps, pending, current);
      var rest := Without(pending, step);
      OrderedIsClosed(deps, pending, current);
      StepKeepsBetween(deps, pending, current);
      StepKeepsDeep(deps, pending, current, k);
      WithoutShrinks(deps, pending, current);
      StepsAreDepths(deps, rest, current + step, k + 1);
      FirstStep(deps, step, Order(deps, rest, current + step).value, k);
    }
  }

  /** The steps hold exactly the pending modules. */
  lemma {:induction false} StepsHoldThePending(deps: Dependencies, pending: seq<Module>, current: seq<Module>)
    requires Between(deps, pending, current) && Order(deps, pending, current).Some?
    ensures multiset(Flatten(Order(deps, pending, current).value)) == multiset(pending)
    decreases |pending|
  {
    if pending != [] {
      var step := Loadable(deps, pending, current);
      var rest := Without(pending, step);
      StepKeepsBetween(deps, pending, current);
      WithoutShrinks(deps, pending, current);
      StepsHoldThePending(deps, rest, current + step);
      SplitByLoadable(deps, pending, current);
      assert Order(deps, pending, current).value[1..] == Order(deps, rest, current + step).value;
    }
  }

  /** All dependencies of an item are among what was loaded before it. */
  ghost predicate DependenciesFirst(deps: Dependencies, loaded: seq<Module>, flat: seq<Module>) {
    forall i | 0 <= i < |flat| && flat[i] in deps ::
      forall d | d in deps[flat[i]] :: d in loaded + flat[..i]
  }

  lemma {:induction false} FlatOrder(deps: Dependencies, pending: seq<Module>, current: seq<Module>)
    requires Order(deps, pending, current).Some?
    ensures DependenciesFirst(deps, current, Flatten(Order(deps, pending, current).value))
    decreases |pending|
  {
    if pending != [] {
      var step := Loadable(deps, pending, current);
      var rest := Without(pending, step);
      WithoutShrinks(deps, pending, current);
      FlatOrder(deps, rest, current + step);
      LoadableMembers(deps, pending, current);
      var later := Flatten(Order(deps, rest, current + step).value);
      var steps := Order(deps, pending, current).value;
      assert steps[1..] == Order(deps, rest, current + step).value;
      var flat := step + later;
      forall i, d | 0 <= i < |flat| && flat[i] in deps && d in deps[flat[i]] ensures d in current + flat[..i] {
        if i < |step| {
          assert flat[i] in step;
        } else {
          assert flat[..i] == step + later[..i - |step|];
          assert d in (current + step) + later[..i - |step|];
        }
      }
    }
  }

  // ---------- Main results ----------

  lemma InitiallyBetween(deps: Dependencies, keys: seq<Module>)
    requires Listing(deps, keys)
    ensures Between(deps, keys, []) && Deep(deps, keys, [], 0)
  {
  }

  /** The order is found exactly for the maps that are closed and acyclic. */
  lemma OrderedExactlyIfClosedAndAcyclic(deps: Dependencies, keys: seq<Module>)
    requires Listing(deps, keys)
    ensures Order(deps, keys, []).Some? <==> Closed(deps) && Acyclic(deps)
  {
    InitiallyBetween(deps, keys);
    if Order(deps, keys, []).Some? {
      OrderedIsClosed(deps, keys, []);
      forall p ensures !IsCycle(deps, p) {
        if IsCycle(deps, p) {
          var k := StepOf(deps, keys, p[0]);
          CycleHasChains(deps, p, 0, k + 1);
        }
      }
    }
    if Closed(deps) && Acyclic(deps) {
      NeverStuck(deps, keys, []);
    }
  }

  /** On a closed acyclic map every step loads something, so the pending modules run out. */
  lemma {:induction false} NeverStuck(deps: Dependencies, pending: seq<Module>, current: seq<Module>)
    requires Between(deps, pending, current) && Closed(deps) && Acyclic(deps)
    ensures Order(deps, pending, current).Some?
    decreases |pending|
  {
    if pending != [] {
      var step := Loadable(deps, pending, current);
      if step == [] {
        var cycle := StuckMeansMissingOrCycle(deps, pending, current);
      } else {
        StepKeepsBetween(deps, pending, current);
        WithoutShrinks(deps, pending, current);
        NeverStuck(deps, Without(pending, step), current + step);
      }
    }
  }

  /** The step a module lands in is the length of its longest dependency chain, and only
      that one. */
  lemma ModuleLandsAtItsDepth(deps: Dependencies, keys: seq<Module>, k: nat, m: Module)
    requires Listing(deps, keys) && Order(deps, keys, []).Some?
    ensures var steps := Order(deps, keys, []).value;
      (k < |steps| && m in steps[k]) <==> (m in deps && Depth(deps, m, k))
  {
    InitiallyBetween(deps, keys);
    StepsAreDepths(deps, keys, [], 0);
    var steps := Order(deps, keys, []).value;
    if k < |steps| && m in steps[k] {
      assert AtDepth(deps, steps[k], 0 + k);
      FlattenMembers(steps, m);
      FlattenedKeys(deps, keys, m);
    }
    if m in deps && Depth(deps, m, k) {
      var i := StepOf(deps, keys, m);
      DepthIsUnique(deps, m, i, k);
    }
  }

  lemma FlattenedKeys(deps: Dependencies, keys: seq<Module>, m: Module)
    requires Listing(deps, keys) && Order(deps, keys, []).Some?
    ensures m in Flatten(Order(deps, keys, []).value) <==> m in deps
  {
    InitiallyBetween(deps, keys);
    StepsHoldThePending(deps, keys, []);
    var flat := Flatten(Order(deps, keys, []).value);
    assert m in flat <==> m in multiset(flat);
    assert m in keys <==> m in multiset(keys);
  }

  lemma StepOf(deps: Dependencies, keys: seq<Module>, m: Module) returns (k: nat)
    requires Listing(deps, keys) && Order(deps, keys, []).Some? && m in deps
    ensures k < |Order(deps, keys, []).value| && m in Order(deps, keys, []).value[k] && Depth(deps, m, k)
  {
    InitiallyBetween(deps, keys);
    StepsAreDepths(deps, keys, [], 0);
    FlattenedKeys(deps, keys, m);
    var steps := Order(deps, keys, []).value;
    FlattenMembers(steps, m);
    k :| 0 <= k < |steps| && m in steps[k];
    assert AtDepth(deps, steps[k], 0 + k);
  }

  lemma {:induction false} FlattenMembers(steps: seq<seq<Module>>, m: Module)
    ensures m in Flatten(steps) <==> exists k :: 0 <= k < |steps| && m in steps[k]
  {
    if steps != [] {
      FlattenMembers(steps[1..], m);
      if m in Flatten(steps[1..]) {
        var k :| 0 <= k < |steps[1..]| && m in steps[1..][k];
        assert m in steps[k + 1];
      }
      if k :| 0 <= k < |steps| && m in steps[k] {
        if k > 0 { assert m in steps[1..][k - 1]; }
      }
    }
  }

  lemma DepthIsUnique(deps: Dependencies, m: Module, i: nat, k: nat)
    requires Depth(deps, m, i) && Depth(deps, m, k)
    ensures i == k
  {
    if i < k { ChainTo(deps, m, k, i + 1); }
    if k < i { ChainTo(deps, m, i, k + 1); }
  }

  lemma {:induction false} ChainTo(deps: Dependencies, m: Module, n: nat, i: nat)
    requires i <= n && HasChain(deps, m, n)
    ensures HasChain(deps, m, i)
    decreases n
  {
    if i < n {
      ChainShorter(deps, m, n - 1);
      ChainTo(deps, m, n - 1, i);
    }
  }

  /** Everything is a module of the map, and its dependencies come strictly earlier. */
  ghost predicate Sorted(deps: Dependencies, flat: seq<Module>) {
    (forall i | 0 <= i < |flat| :: flat[i] in deps) && DependenciesFirst(deps, [], flat)
  }

  /** The flattened order is a permutation of the modules in which every dependency comes
      strictly earlier. */
  lemma SortedLibraries(deps: Dependencies, keys: seq<Module>)
    requires Listing(deps, keys) && Order(deps, keys, []).Some?
    ensures var flat := Flatten(Order(deps, keys, []).value);
      multiset(flat) == multiset(keys) && Sorted(deps, flat)
  {
    InitiallyBetween(deps, keys);
    StepsHoldThePending(deps, keys, []);
    FlatOrder(deps, keys, []);
    var flat := Flatten(Order(deps, keys, []).value);
    forall i | 0 <= i < |flat| ensures flat[i] in deps {
      FlattenedKeys(deps, keys, flat[i]);
    }
  }

  // ---------- The lists that the recursion changes ----------

  class Loader {
    const dependencies: Dependencies
    var pending: seq<Module>
    var current: seq<Module>
    var steps: seq<seq<Module>>

    constructor (dependencies: Dependencies, keys: seq<Module>)
      ensures this.dependencies == dependencies && pending == keys && current == [] && steps == []
    {
      this.dependencies := dependencies;
      pending, current, steps := keys, [], [];
    }

    method ModulesThatCanBeLoaded() returns (modules: seq<Module>)
      requires forall m | m in pending :: m in dependencies
      ensures modules == Loadable(dependencies, pending, current)
    {
      modules := [];
      for i := 0 to |pending|
        invariant modules == Loadable(dependencies, pending[..i], current)
      {
        assert pending[..i + 1][..i] == pending[..i];
        var canBeLoaded := true;
        for j := 0 to |dependencies[pending[i]]|
          invariant canBeLoaded && forall d | d in dependencies[pending[i]][..j] :: d in current
        {
          if dependencies[pending[i]][j] !in current {
            canBeLoaded := false;
            break;
          }
        }
        if !canBeLoaded {
          continue;
        }
        modules := modules + [pending[i]];
      }
      assert pending[..|pending|] == pending;
    }

    /** Removes the first occurrence. */
    method Remove(m: Module)
      requires Distinct(pending) && m in pending
      modifies this`pending
      ensures pending == Without(old(pending), [m])
    {
      var i := 0;
      while pending[i] != m
        invariant 0 <= i < |pending| && m !in pending[..i]
        decreases |pending| - i
      {
        i := i + 1;
      }
      WithoutOne(pending, i);
      pending := pending[..i] + pending[i + 1..];
    }

    /** The modules of one step are added to it and move from pending to current. */
    method LoadStep(modules: seq<Module>, stepNumber: nat)
      requires Distinct(pending) && Distinct(modules) && forall m | m in modules :: m in pending
      requires stepNumber + 1 == |steps| && steps[stepNumber] == []
      modifies this`pending, this`current, this`steps
      ensures pending == Without(old(pending), modules)
      ensures current == old(current) + modules
      ensures steps == old(steps)[stepNumber := modules]
    {
      WithoutNothing(pending);
      for i := 0 to |modules|
        invariant pending == Without(old(pending), modules[..i])
        invariant current == old(current) + modules[..i]
        invariant |steps| == stepNumber + 1 && steps[..stepNumber] == old(steps)[..stepNumber]
        invariant steps[stepNumber] == modules[..i]
      {
        steps := steps[stepNumber := steps[stepNumber] + [modules[i]]];
        OneMore(old(pending), modules, i);
        Remove(modules[i]);
        current := current + [modules[i]];
      }
      assert modules[..|modules|] == modules;
      assert steps == steps[..stepNumber] + [modules];
    }

    /** Loads step after step; `done` is false where the original would recurse for ever,
        which is in a step that finds nothing to load. */
    method DependencyOrder(stepNumber: nat) returns (done: bool)
      requires stepNumber == |steps| && Distinct(pending)
      requires forall m | m in pending :: m in dependencies
      modifies this`pending, this`current, this`steps
      ensures done <==> Order(dependencies, old(pending), old(current)).Some?
      ensures done ==> pending == [] && steps == old(steps) + Order(dependencies, old(pending), old(current)).value
      decreases |pending|
    {
      if |pending| == 0 {
        return true;
      }
      steps := steps + [[]];
      var modules := ModulesThatCanBeLoaded();
      if modules == [] {
        return false;
      }
      LoadableMembers(dependencies, pending, current);
      WithoutMembers(pending, modules);
      WithoutShrinks(dependencies, pending, current);
      assert Order(dependencies, pending, current).Some?
        <==> Order(dependencies, Without(pending, modules), current + modules).Some?;
      LoadStep(modules, stepNumber);
      done := DependencyOrder(stepNumber + 1);
    }
  }

  lemma OneMore(pending: seq<Module>, modules: seq<Module>, i: nat)
    requires Distinct(pending) && Distinct(modules) && i < |modules| && modules[i] in pending
    ensures modules[..i + 1] == modules[..i] + [modules[i]]
    ensures var left := Without(pending, modules[..i]);
      Distinct(left) && modules[i] in left && Without(left, [modules[i]]) == Without(pending, modules[..i + 1])
  {
    assert modules[..i + 1] == modules[..i] + [modules[i]];
    WithoutMembers(pending, modules[..i]);
    WithoutTwice(pending, modules[..i], modules[i]);
  }

  lemma {:induction false} WithoutNothing(pending: seq<Module>)
    ensures Without(pending, []) == pending
  {
    if pending != [] { WithoutNothing(pending[..|pending| - 1]); }
  }

  lemma {:induction false} WithoutOne(pending: seq<Module>, i: nat)
    requires Distinct(pending) && i < |pending|
    ensures Without(pending, [pending[i]]) == pending[..i] + pending[i + 1..]
  {
    var front := pending[..|pending| - 1];
    if i == |pending| - 1 {
      WithoutOthers(front, pending[i]);
    } else {
      WithoutOne(front, i);
      assert front[..i] + front[i + 1..] + [pending[|pending| - 1]] == pending[..i] + pending[i + 1..];
    }
  }

  lemma {:induction false} WithoutOthers(pending: seq<Module>, m: Module)
    requires m !in pending
    ensures Without(pending, [m]) == pending
  {
    if pending != [] { WithoutOthers(pending[..|pending| - 1], m); }
  }

  lemma {:induction false} WithoutTwice(pending: seq<Module>, gone: seq<Module>, m: Module)
    ensures Without(Without(pending, gone), [m]) == Without(pending, gone + [m])
  {
    if pending != [] {
      var front, last := pending[..|pending| - 1], pending[|pending| - 1];
      WithoutTwice(front, gone, m);
      assert last in gone + [m] <==> last in gone || last == m;
      if last !in gone {
        var kept := Without(pending, gone);
        assert kept[..|kept| - 1] == Without(front, gone) && kept[|kept| - 1] == last;
      }
    }
  }

  /** The whole sort: nothing stands for the endless recursion of the original. */
  method SortToDependencies(deps: Dependencies, keys: seq<Module>) returns (sorted: Option<seq<Module>>)
    requires Listing(deps, keys)
    ensures sorted.Some? <==> Closed(deps) && Acyclic(deps)
    ensures sorted.Some? ==> multiset(sorted.value) == multiset(keys) && Sorted(deps, sorted.value)
  {
    var loader := new Loader(deps, keys);
    var done := loader.DependencyOrder(0);
    OrderedExactlyIfClosedAndAcyclic(deps, keys);
    if !done {
      return None;
    }
    var libraries: seq<Module> := [];
    var steps := loader.steps;
    for i := 0 to |steps|
      invariant Flatten(steps) == libraries + Flatten(steps[i..])
    {
      assert steps[i..][1..] == steps[i + 1..];
      libraries := libraries + steps[i];
    }
    assert libraries == Flatten(steps);
    SortedLibraries(deps, keys);
    return Some(libraries);
  }
}
