/** Program.cs, the registry loop of `Main`, `GetAllDependencies` and the union of the target's closures. */
module Dependencies {
  import opened Text
  import opened Rules
  import Targets

  /** `loadedModules`: module name to module record. */
  type Registry = map<string, ModuleRules>

  /** A module that sets no platform flag takes the target's three flags; one that sets any keeps its own. */
  function AdoptPlatform(m: ModuleRules, target: Targets.TargetRules): (r: ModuleRules)
    ensures !m.IsPlatformWindows && !m.IsPlatformLinux && !m.IsPlatformMac ==>
      r == m.(IsPlatformWindows := target.IsPlatformWindows(),
               IsPlatformLinux := target.IsPlatformLinux(),
               IsPlatformMac := target.IsPlatformMac())
    ensures m.IsPlatformWindows || m.IsPlatformLinux || m.IsPlatformMac ==> r == m
    ensures r.IsPlatformWindows || r.IsPlatformLinux || r.IsPlatformMac
    ensures r.Name == m.Name
  {
    if !m.IsPlatformWindows && !m.IsPlatformLinux && !m.IsPlatformMac then
      m.(IsPlatformWindows := target.IsPlatformWindows(),
         IsPlatformLinux := target.IsPlatformLinux(),
         IsPlatformMac := target.IsPlatformMac())
    else m
  }

  /** The registry that registering `created` in order yields. */
  function RegistryOf(target: Targets.TargetRules, created: seq<ModuleRules>): Registry
    decreases |created|
  {
    if |created| == 0 then map[]
    else
      var m := AdoptPlatform(created[|created| - 1], target);
      RegistryOf(target, created[..|created| - 1])[m.Name := m]
  }

  /** No module after position k has the same name. */
  ghost predicate LastWithName(created: seq<ModuleRules>, k: int)
    requires 0 <= k < |created|
  {
    forall j :: k < j < |created| ==> created[j].Name != created[k].Name
  }

  /** The registry holds exactly the created modules' names. */
  lemma {:induction false} RegistryOfKeys(target: Targets.TargetRules, created: seq<ModuleRules>)
    ensures forall n :: n in RegistryOf(target, created) <==> exists k :: 0 <= k < |created| && created[k].Name == n
    decreases |created|
  {
    if |created| > 0 {
      var init := created[..|created| - 1];
      RegistryOfKeys(target, init);
      forall n | n in RegistryOf(target, created)
        ensures exists k :: 0 <= k < |created| && created[k].Name == n
      {
        var m := AdoptPlatform(created[|created| - 1], target);
        assert RegistryOf(target, created) == RegistryOf(target, init)[m.Name := m];
        if n != created[|created| - 1].Name {
          assert n in RegistryOf(target, init);
          var k :| 0 <= k < |init| && init[k].Name == n;
          assert created[k].Name == n;
        }
      }
    }
  }

  /** Under each name the registry holds the last module created with it, with the flags it adopted. */
  lemma {:induction false} RegistryOfLastWins(target: Targets.TargetRules, created: seq<ModuleRules>, k: nat)
    requires k < |created| && LastWithName(created, k)
    ensures created[k].Name in RegistryOf(target, created)
    ensures RegistryOf(target, created)[created[k].Name] == AdoptPlatform(created[k], target)
    decreases |created|
  {
    var last := |created| - 1;
    if k < last {
      var init := created[..last];
      assert created[last].Name != created[k].Name;
      assert LastWithName(init, k);
      RegistryOfLastWins(target, init, k);
    }
  }

  /** The registry loop of `Main`: each created module, after adopting the target's platform flags when it
      set none, is stored under its name, overwriting an earlier module of the same name. */
  method BuildRegistry(target: Targets.TargetRules, created: seq<ModuleRules>) returns (reg: Registry)
    ensures reg == RegistryOf(target, created)
    ensures forall n :: n in reg <==> exists k :: 0 <= k < |created| && created[k].Name == n
    ensures forall k :: 0 <= k < |created| && LastWithName(created, k) ==>
      reg[created[k].Name] == AdoptPlatform(created[k], target)
  {
    reg := map[];
    var i := 0;
    while i < |created|
      invariant 0 <= i <= |created|
      invariant reg == RegistryOf(target, created[..i])
    {
      var rules := AdoptPlatform(created[i], target);
      reg := reg[rules.Name := rules];
      i := i + 1;
      assert created[..i][..i - 1] == created[..i - 1];
    }
    assert created[..i] == created;
    RegistryOfKeys(target, created);
    forall k | 0 <= k < |created| && LastWithName(created, k)
      ensures reg[created[k].Name] == AdoptPlatform(created[k], target)
    {
      RegistryOfLastWins(target, created, k);
    }
  }

  // ---- the dependency graph ----

  /** The names a module depends on: its public, then its private dependencies. An unregistered name has none. */
  function Successors(reg: Registry, n: string): seq<string> {
    if n in reg then reg[n].PublicDependencyModuleNames() + reg[n].PrivateDependencyModuleNames() else []
  }

  /** Every name the walk can meet: the registered names and every name they depend on. */
  function Universe(reg: Registry): set<string> {
    reg.Keys + set n, d | n in reg && d in Successors(reg, n) :: d
  }

  lemma InUniverse(reg: Registry, n: string, d: string)
    requires n in reg && d in Successors(reg, n)
    ensures d in Universe(reg)
  {
    assert d in (set n, d | n in reg && d in Successors(reg, n) :: d);
  }

  ghost predicate IsPath(reg: Registry, p: seq<string>) {
    |p| > 0 && forall i :: 0 <= i < |p| - 1 ==> p[i + 1] in Successors(reg, p[i])
  }

  /** `b` is reached from `a` over zero or more public or private dependency edges. */
  ghost predicate Reachable(reg: Registry, a: string, b: string) {
    exists p :: IsPath(reg, p) && p[0] == a && p[|p| - 1] == b
  }

  /** A set that contains the successors of each of its members contains everything reachable from them. */
  ghost predicate Closed(reg: Registry, s: set<string>) {
    forall x, d :: x in s && d in Successors(reg, x) ==> d in s
  }

  lemma ReachableSelf(reg: Registry, a: string)
    ensures Reachable(reg, a, a)
  {
    assert IsPath(reg, [a]);
  }

  lemma ReachableStep(reg: Registry, a: string, b: string, x: string)
    requires b in Successors(reg, a) && Reachable(reg, b, x)
    ensures Reachable(reg, a, x)
  {
    var p :| IsPath(reg, p) && p[0] == b && p[|p| - 1] == x;
    var q := [a] + p;
    forall i | 0 <= i < |q| - 1
      ensures q[i + 1] in Successors(reg, q[i])
    {
      if i == 0 {
        assert q[1] == p[0];
      } else {
        assert q[i] == p[i - 1] && q[i + 1] == p[i];
      }
    }
    assert IsPath(reg, q) && q[0] == a && q[|q| - 1] == x;
  }

  lemma {:induction false} ClosedPath(reg: Registry, s: set<string>, p: seq<string>)
    requires Closed(reg, s) && IsPath(reg, p) && p[0] in s
    ensures p[|p| - 1] in s
    decreases |p|
  {
    if |p| > 1 {
      var init := p[..|p| - 1];
      assert IsPath(reg, init);
      ClosedPath(reg, s, init);
      assert p[|p| - 1] in Successors(reg, p[|p| - 2]);
    }
  }

  lemma ClosedContainsReachable(reg: Registry, s: set<string>, a: string, b: string)
    requires Closed(reg, s) && a in s && Reachable(reg, a, b)
    ensures b in s
  {
    var p :| IsPath(reg, p) && p[0] == a && p[|p| - 1] == b;
    ClosedPath(reg, s, p);
  }

  /** The depth-first walk with a shared visited set. It returns the names it adds to `visited` other than
      `moduleName` itself, without repeats, and the grown visited set, which is closed under the dependency
      edges of the names it added and holds only names reachable from `moduleName`. */
  method GetAllDependencies(reg: Registry, moduleName: string, visited: set<string>)
    returns (deps: seq<string>, visitedOut: set<string>)
    ensures visited <= visitedOut
    ensures moduleName in visited ==> deps == [] && visitedOut == visited
    ensures moduleName !in visited ==> moduleName in visitedOut
    ensures moduleName !in reg ==> deps == []
    ensures forall x :: x in deps <==> x in visitedOut && x !in visited && x != moduleName
    ensures NoDuplicates(deps)
    ensures forall x, d :: x in visitedOut && x !in visited && d in Successors(reg, x) ==> d in visitedOut
    ensures forall x :: x in visitedOut && x !in visited ==> Reachable(reg, moduleName, x)
    decreases Universe(reg) - visited, 2
  {
    if moduleName in visited {
      return [], visited;
    }
    ReachableSelf(reg, moduleName);
    if moduleName !in reg {
      return [], visited + {moduleName};
    }
    deps, visitedOut := VisitDependencies(reg, moduleName, visited);
  }

  /** The body of `GetAllDependencies` for a registered module not yet visited: it marks the module visited,
      then walks its public and then its private dependencies. */
  method VisitDependencies(reg: Registry, moduleName: string, visited: set<string>)
    returns (deps: seq<string>, visitedOut: set<string>)
    requires moduleName in reg && moduleName !in visited
    ensures visited + {moduleName} <= visitedOut
    ensures forall x :: x in deps <==> x in visitedOut && x !in visited && x != moduleName
    ensures NoDuplicates(deps)
    ensures forall x, d :: x in visitedOut && x !in visited && d in Successors(reg, x) ==> d in visitedOut
    ensures forall x :: x in visitedOut && x !in visited ==> Reachable(reg, moduleName, x)
    decreases Universe(reg) - visited, 1
  {
    visitedOut := visited + {moduleName};
    ReachableSelf(reg, moduleName);
    var rules := reg[moduleName];
    var allDeps: seq<string> := [];
    // the loop over PublicDependencyModuleNames followed by the identical loop over PrivateDependencyModuleNames
    var names := rules.PublicDependencyModuleNames() + rules.PrivateDependencyModuleNames();
    assert names == Successors(reg, moduleName);
    var i := 0;
    while i < |names|
      invariant 0 <= i <= |names|
      invariant visited + {moduleName} <= visitedOut
      invariant forall x :: x in allDeps <==> x in visitedOut && x !in visited && x != moduleName
      invariant NoDuplicates(allDeps)
      invariant forall j :: 0 <= j < i ==> names[j] in visitedOut
      invariant forall x, d :: x in visitedOut && x !in visited && x != moduleName && d in Successors(reg, x) ==> d in visitedOut
      invariant forall x :: x in visitedOut && x !in visited ==> Reachable(reg, moduleName, x)
    {
      if names[i] !in visitedOut {
        allDeps, visitedOut := VisitDependency(reg, moduleName, visited, names[i], allDeps, visitedOut);
      }
      i := i + 1;
    }
    deps := Distinct(allDeps);
  }

  /** One pass of the dependency loops: a dependency not yet visited is walked, then listed before what its
      walk added. */
  method VisitDependency(reg: Registry, moduleName: string, visited: set<string>, dep: string,
                         allDeps: seq<string>, visitedOut: set<string>)
    returns (allDeps': seq<string>, visitedOut': set<string>)
    requires moduleName in reg && moduleName !in visited
    requires dep in Successors(reg, moduleName) && dep !in visitedOut
    requires visited + {moduleName} <= visitedOut
    requires forall x :: x in allDeps <==> x in visitedOut && x !in visited && x != moduleName
    requires NoDuplicates(allDeps)
    requires forall x, d :: x in visitedOut && x !in visited && x != moduleName && d in Successors(reg, x) ==> d in visitedOut
    requires forall x :: x in visitedOut && x !in visited ==> Reachable(reg, moduleName, x)
    ensures visitedOut <= visitedOut' && dep in visitedOut'
    ensures forall x :: x in allDeps' <==> x in visitedOut' && x !in visited && x != moduleName
    ensures NoDuplicates(allDeps')
    ensures forall x, d :: x in visitedOut' && x !in visited && x != moduleName && d in Successors(reg, x) ==> d in visitedOut'
    ensures forall x :: x in visitedOut' && x !in visited ==> Reachable(reg, moduleName, x)
    decreases Universe(reg) - visited, 0
  {
    InUniverse(reg, moduleName, dep);
    var sub, v := GetAllDependencies(reg, dep, visitedOut);
    forall x | x in v && x !in visitedOut
      ensures Reachable(reg, moduleName, x)
    {
      ReachableStep(reg, moduleName, dep, x);
    }
    NoDuplicatesAppend(allDeps, [dep]);
    NoDuplicatesAppend(allDeps + [dep], sub);
    allDeps', visitedOut' := allDeps + [dep] + sub, v;
  }

  /** `GetAllDependencies(moduleName)` with no visited set: exactly the names reachable from the module over
      public and private dependency edges, other than the module itself, each once. Unregistered names are
      listed but not followed; an unregistered start gives nothing. */
  method AllDependencies(reg: Registry, moduleName: string) returns (deps: seq<string>)
    ensures moduleName !in deps
    ensures NoDuplicates(deps)
    ensures forall x :: x in deps <==> x != moduleName && Reachable(reg, moduleName, x)
    ensures moduleName !in reg ==> deps == []
  {
    var visited;
    deps, visited := GetAllDependencies(reg, moduleName, {});
    assert Closed(reg, visited);
    forall x | x != moduleName && Reachable(reg, moduleName, x)
      ensures x in deps
    {
      ClosedContainsReachable(reg, visited, moduleName, x);
    }
  }

  /** `allModulesForNinja` (and `allModulesToProcess` in `Main`): each root module and its dependencies. */
  method ModulesForNinja(reg: Registry, roots: seq<string>) returns (all: set<string>)
    ensures forall x :: x in all <==> exists k :: 0 <= k < |roots| && Reachable(reg, roots[k], x)
  {
    all := {};
    var i := 0;
    while i < |roots|
      invariant 0 <= i <= |roots|
      invariant forall x :: x in all <==> exists k :: 0 <= k < i && Reachable(reg, roots[k], x)
    {
      var root := roots[i];
      all := all + {root};
      ReachableSelf(reg, root);
      var deps := AllDependencies(reg, root);
      var j := 0;
      while j < |deps|
        invariant 0 <= j <= |deps|
        invariant forall x :: x in all <==> (exists k :: 0 <= k < i && Reachable(reg, roots[k], x)) || x == root || x in deps[..j]
      {
        all := all + {deps[j]};
        j := j + 1;
      }
      assert deps[..j] == deps;
      i := i + 1;
    }
  }
}
