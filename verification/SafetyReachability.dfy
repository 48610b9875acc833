/**
 What the finished module graph guarantees: every copy is linked to its imports, never to an optimised
 hot module, and exactly when an optimised hot module can still be reached from a copy.
 */
module SafetyReachability {
  import opened SafetyModules

  /** One package imports, directly or not, another. */
  ghost predicate PackagePath(packages: seq<Package>, q: seq<string>) {
    q != [] && forall i | 0 <= i < |q| - 1 :: q[i + 1] in Imports(packages, q[i])
  }

  ghost predicate Runs<T>(p: seq<T>, a: T, b: T) {
    p != [] && p[0] == a && p[|p| - 1] == b
  }

  ghost predicate Reaches(packages: seq<Package>, a: string, b: string) {
    exists q :: PackagePath(packages, q) && Runs(q, a, b)
  }

  ghost predicate Edge(g: Graph, a: ModuleId, b: ModuleId) {
    a < |g.modules| && b < |g.modules| &&
    exists k :: 0 <= k < |g.modules[a].imports| && g.modules[a].imports[k].1 == b
  }

  ghost predicate ModulePath(g: Graph, p: seq<ModuleId>) {
    && p != []
    && (forall i | 0 <= i < |p| :: p[i] < |g.modules|)
    && (forall i | 0 <= i < |p| - 1 :: Edge(g, p[i], p[i + 1]))
  }

  /** The build after an outermost call: every copy that exists is fully linked. */
  ghost predicate Finished(g: Graph) {
    g.Valid() && g.DoneExcept({})
  }

  /** Whether a module compiled without safety checks can end up inside the tests of `name`. */
  ghost predicate OptimisedReachable(g: Graph, name: string)
    requires g.Valid() && name in g.safety
  {
    exists p :: ModulePath(g, p) && p[0] == g.safety[name] && g.modules[p[|p| - 1]].optimised
  }

  /** A package that gets no copy stands between `name` and a hot package. */
  ghost predicate ColdBridge(g: Graph, name: string, cold: string, hot: string) {
    !Copied(g.packages, cold) && Reaches(g.packages, name, cold) && Reaches(g.packages, cold, hot) && IsHot(hot)
  }

  function PackageOf(g: Graph, id: ModuleId): string
    requires id < |g.modules|
  {
    g.modules[id].package
  }

  predicate IsMainModule(g: Graph, id: ModuleId) {
    id < |g.mainModules|
  }

  /** Main modules are linked to main modules; copies to copies where there is one, and else to main modules. */
  ghost predicate FollowsRule(g: Graph, a: ModuleId, b: ModuleId)
    requires a < |g.modules| && b < |g.modules|
  {
    var y := PackageOf(g, b);
    if IsMainModule(g, a) || !Copied(g.packages, y) then y in g.main && b == g.main[y]
    else y in g.safety && b == g.safety[y]
  }

  /** An edge is an import, linked by the rule. */
  lemma EdgeIsImport(g: Graph, a: ModuleId, b: ModuleId)
    requires Finished(g) && Edge(g, a, b)
    ensures PackageOf(g, b) in Imports(g.packages, PackageOf(g, a)) && FollowsRule(g, a, b)
  {
    var k :| 0 <= k < |g.modules[a].imports| && g.modules[a].imports[k].1 == b;
    var x := PackageOf(g, a);
    if IsMainModule(g, a) {
      assert g.IsMain(a);
      assert g.MainLinked(x);
      assert g.MainLinked(Imports(g.packages, x)[k]);
    } else {
      assert g.IsMemoised(a);
      assert g.Done(x);
      var y := Imports(g.packages, x)[k];
      assert g.IsTarget(y, b);
      if Copied(g.packages, y) {
        assert g.IsCopy(y);
      } else {
        assert g.MainLinked(y);
      }
    }
  }

  /** Every import has its edge, linked by the rule. */
  lemma ImportHasEdge(g: Graph, a: ModuleId, y: string) returns (b: ModuleId)
    requires Finished(g) && a < |g.modules| && y in Imports(g.packages, PackageOf(g, a))
    ensures Edge(g, a, b) && PackageOf(g, b) == y && FollowsRule(g, a, b)
  {
    var x := PackageOf(g, a);
    var k :| 0 <= k < |Imports(g.packages, x)| && Imports(g.packages, x)[k] == y;
    if IsMainModule(g, a) {
      assert g.IsMain(a);
      assert g.MainLinked(x);
      assert g.MainLinked(y);
    } else {
      assert g.IsMemoised(a);
      assert g.Done(x);
      if Copied(g.packages, y) {
        assert g.IsCopy(y);
      } else {
        assert g.MainLinked(y);
      }
    }
    b := g.modules[a].imports[k].1;
    assert Edge(g, a, b);
  }

  /** No copy is linked to an optimised module, and a copy exists for every import that needs one. */
  lemma NoOptimisedEdge(g: Graph, name: string, b: ModuleId)
    requires Finished(g) && name in g.safety && Edge(g, g.safety[name], b)
    ensures !g.modules[b].optimised
  {
    CopiesApart(g);
    EdgeIsImport(g, g.safety[name], b);
    OptimisedIsMain(g, b);
  }

  lemma CopiesApart(g: Graph)
    requires g.Valid()
    ensures forall n | n in g.safety :: g.safety[n] < |g.modules| && !IsMainModule(g, g.safety[n])
  {
  }

  lemma OptimisedIsMain(g: Graph, id: ModuleId)
    requires g.Valid() && id < |g.modules|
    ensures g.modules[id].optimised <==> IsMainModule(g, id) && g.hotOptimised && IsHot(PackageOf(g, id))
  {
    if IsMainModule(g, id) {
      assert g.IsMain(id);
    } else {
      assert g.IsMemoised(id);
      assert g.IsCopy(PackageOf(g, id));
    }
  }

  // ---------------------------------------------------------------------------
  // Which copies there are
  // ---------------------------------------------------------------------------

  lemma {:induction false} ChainIsCopied(g: Graph, q: seq<string>)
    requires Finished(g) && IsCopyChain(g.packages, q) && q[0] in g.safety
    ensures q[|q| - 1] in g.safety
    decreases |q|
  {
    if |q| > 1 {
      assert g.Done(q[0]);
      assert q[0 + 1] in Imports(g.packages, q[0]);
      var k :| 0 <= k < |Imports(g.packages, q[0])| && Imports(g.packages, q[0])[k] == q[1];
      assert g.IsTarget(Imports(g.packages, q[0])[k], g.modules[g.safety[q[0]]].imports[k].1);
      assert Copied(g.packages, q[1]);
      hide Finished, Imports;
      ChainIsCopied(g, q[1..]);
    }
  }

  /**
   After an outermost request for `name` the copies are the ones there were before and those of the packages
   that a chain of copied packages leads to from `name`: all of them, and no other.
   */
  lemma CopiesExactly(before: Graph, after: Graph, name: string, id: ModuleId)
    requires Finished(after) && before.GrowsTo(after, {}) && after.IsTarget(name, id)
    requires forall n | n in after.safety && n !in before.safety :: CopyChain(after.packages, name, n)
    ensures forall n :: n in after.safety <==> n in before.safety || CopyChain(after.packages, name, n)
  {
    forall n | CopyChain(after.packages, name, n)
      ensures n in after.safety
    {
      var q :| IsCopyChain(after.packages, q) && q[0] == name && q[|q| - 1] == n;
      assert Copied(after.packages, q[0]);
      ChainIsCopied(after, q);
    }
  }

  // ---------------------------------------------------------------------------
  // From module paths to package paths
  // ---------------------------------------------------------------------------

  lemma PackagesAlong(g: Graph, p: seq<ModuleId>) returns (q: seq<string>)
    requires Finished(g) && ModulePath(g, p)
    ensures |q| == |p| && PackagePath(g.packages, q)
    ensures forall i | 0 <= i < |p| :: q[i] == PackageOf(g, p[i])
  {
    q := seq(|p|, i requires 0 <= i < |p| => PackageOf(g, p[i]));
    forall i | 0 <= i < |q| - 1
      ensures q[i + 1] in Imports(g.packages, q[i])
    {
      EdgeIsImport(g, p[i], p[i + 1]);
    }
  }

  /** A path that starts in a copy and ends in a main module enters the main modules at some point. */
  lemma EntersMain(g: Graph, p: seq<ModuleId>) returns (i: nat)
    requires ModulePath(g, p) && !IsMainModule(g, p[0]) && IsMainModule(g, p[|p| - 1])
    ensures 0 < i < |p| && !IsMainModule(g, p[i - 1]) && IsMainModule(g, p[i])
  {
    i := 1;
    while !IsMainModule(g, p[i])
      invariant 0 < i < |p| && !IsMainModule(g, p[i - 1])
      decreases |p| - i
    {
      i := i + 1;
    }
  }

  /** The first main module on a path out of a copy belongs to a package without a copy. */
  lemma EntersCold(g: Graph, p: seq<ModuleId>) returns (i: nat)
    requires Finished(g) && ModulePath(g, p) && !IsMainModule(g, p[0]) && IsMainModule(g, p[|p| - 1])
    ensures i < |p| && !Copied(g.packages, PackageOf(g, p[i]))
  {
    i := EntersMain(g, p);
    CopiesApart(g);
    EdgeIsImport(g, p[i - 1], p[i]);
  }

  lemma SplitReaches(packages: seq<Package>, q: seq<string>, i: nat)
    requires PackagePath(packages, q) && i < |q|
    ensures Reaches(packages, q[0], q[i]) && Reaches(packages, q[i], q[|q| - 1])
  {
    assert PackagePath(packages, q[..i + 1]) && Runs(q[..i + 1], q[0], q[i]);
    assert PackagePath(packages, q[i..]) && Runs(q[i..], q[i], q[|q| - 1]);
  }

  lemma ReachableHasBridge(g: Graph, name: string) returns (cold: string, hot: string)
    requires Finished(g) && name in g.safety && OptimisedReachable(g, name)
    ensures ColdBridge(g, name, cold, hot)
  {
    var p :| ModulePath(g, p) && p[0] == g.safety[name] && g.modules[p[|p| - 1]].optimised;
    CopiesApart(g);
    OptimisedIsMain(g, p[|p| - 1]);
    assert g.IsCopy(name);
    var q := PackagesAlong(g, p);
    var i := EntersCold(g, p);
    SplitReaches(g.packages, q, i);
    cold, hot := q[i], q[|q| - 1];
  }

  // ---------------------------------------------------------------------------
  // From package paths to module paths
  // ---------------------------------------------------------------------------

  /** Any chain of imports can be followed from any module of its first package. */
  lemma {:induction false} Follow(g: Graph, id: ModuleId, q: seq<string>) returns (p: seq<ModuleId>)
    requires Finished(g) && id < |g.modules| && PackagePath(g.packages, q) && PackageOf(g, id) == q[0]
    ensures ModulePath(g, p) && p[0] == id && PackageOf(g, p[|p| - 1]) == q[|q| - 1]
    ensures IsMainModule(g, id) || (|q| > 1 && !Copied(g.packages, q[|q| - 1])) ==> IsMainModule(g, p[|p| - 1])
    decreases |q|
  {
    p := [id];
    if |q| > 1 {
      var b := ImportHasEdge(g, id, q[1]);
      MainStaysMain(g, id, b);
      hide Graph.Valid, Graph.DoneExcept, Copied, Imports, Edge, FollowsRule;
      assert q[1..][|q| - 2] == q[|q| - 1];
      var rest := Follow(g, b, q[1..]);
      p := [id] + rest;
      forall i | 0 <= i < |p| - 1
        ensures Edge(g, p[i], p[i + 1])
      {
        assert i > 0 ==> p[i] == rest[i - 1];
      }
    }
  }

  lemma MainStaysMain(g: Graph, a: ModuleId, b: ModuleId)
    requires g.Valid() && a < |g.modules| && b < |g.modules| && FollowsRule(g, a, b)
    ensures IsMainModule(g, a) || !Copied(g.packages, PackageOf(g, b)) ==> IsMainModule(g, b)
  {
  }

  lemma PathsJoin(g: Graph, p: seq<ModuleId>, q: seq<ModuleId>) returns (whole: seq<ModuleId>)
    requires ModulePath(g, p) && ModulePath(g, q) && p[|p| - 1] == q[0]
    ensures ModulePath(g, whole) && whole[0] == p[0] && whole[|whole| - 1] == q[|q| - 1]
  {
    hide Edge;
    whole := p + q[1..];
    forall i | 0 <= i < |whole| - 1
      ensures Edge(g, whole[i], whole[i + 1])
    {
      if i >= |p| - 1 {
        assert whole[i] == q[i - (|p| - 1)] && whole[i + 1] == q[i + 1 - (|p| - 1)];
      }
    }
  }

  /** Following imports from a main module, or from a copy to a package without one, ends in a main module. */
  lemma FollowReaches(g: Graph, id: ModuleId, a: string, b: string) returns (p: seq<ModuleId>)
    requires Finished(g) && id < |g.modules| && PackageOf(g, id) == a && Reaches(g.packages, a, b)
    requires IsMainModule(g, id) || (a != b && !Copied(g.packages, b))
    ensures ModulePath(g, p) && p[0] == id && IsMainModule(g, p[|p| - 1]) && PackageOf(g, p[|p| - 1]) == b
  {
    hide ModulePath, PackagePath, Copied, Finished;
    var q :| PackagePath(g.packages, q) && Runs(q, a, b);
    p := Follow(g, id, q);
  }

  lemma CopyIsCopied(g: Graph, name: string)
    requires Finished(g) && name in g.safety
    ensures g.safety[name] < |g.modules| && PackageOf(g, g.safety[name]) == name && Copied(g.packages, name)
  {
    assert g.IsCopy(name);
  }

  lemma BridgeIsReachable(g: Graph, name: string, cold: string, hot: string)
    requires Finished(g) && g.hotOptimised && name in g.safety && ColdBridge(g, name, cold, hot)
    ensures OptimisedReachable(g, name)
  {
    assert g.Valid();
    CopyIsCopied(g, name);
    hide ModulePath, Reaches, Copied, Finished, Graph.Valid;
    var p := FollowReaches(g, g.safety[name], name, cold);
    var p' := FollowReaches(g, p[|p| - 1], cold, hot);
    var whole := PathsJoin(g, p, p');
    OptimisedIsMain(g, p'[|p'| - 1]);
  }

  /**
   With optimised hot modules in the shipped build, the tests of a copied package contain one of them if
   and only if some package without a copy lies on an import chain from it to a hot package.
   */
  lemma OptimisedReachability(g: Graph, name: string)
    requires Finished(g) && g.hotOptimised && name in g.safety
    ensures OptimisedReachable(g, name) <==> exists cold, hot :: ColdBridge(g, name, cold, hot)
  {
    if OptimisedReachable(g, name) {
      var cold, hot := ReachableHasBridge(g, name);
    }
    if exists cold, hot :: ColdBridge(g, name, cold, hot) {
      var cold, hot :| ColdBridge(g, name, cold, hot);
      BridgeIsReachable(g, name, cold, hot);
    }
  }

  /** In particular none is, if all that stands between `name` and a hot package is hot or imports one directly. */
  lemma DirectImportersSuffice(g: Graph, name: string)
    requires Finished(g) && g.hotOptimised && name in g.safety
    requires forall x, h :: Reaches(g.packages, name, x) && Reaches(g.packages, x, h) && IsHot(h) ==>
               Copied(g.packages, x)
    ensures !OptimisedReachable(g, name)
  {
    OptimisedReachability(g, name);
  }

  const BYTECODE := "kira_bytecode"

  const INDIRECT: seq<Package> := [
    Package(VM_RUNTIME, ["a"]), Package("a", ["b"]), Package("b", [BYTECODE]), Package(BYTECODE, [])]

  /**
   A table that breaks this condition: here the copy of a hot package reaches another hot one only through
   `a`, which is neither hot nor imports one directly, so its tests run against the optimised module.
   */
  lemma IndirectImportDefeatsCopies(g: Graph)
    requires Finished(g) && g.hotOptimised && g.packages == INDIRECT && VM_RUNTIME in g.safety
    ensures OptimisedReachable(g, VM_RUNTIME)
  {
    IndirectImports();
    ShortNamesAreCold();
    hide Imports, IsHot;
    assert PackagePath(INDIRECT, [VM_RUNTIME, "a"]) && Runs([VM_RUNTIME, "a"], VM_RUNTIME, "a");
    var q := ["a", "b", BYTECODE];
    assert PackagePath(INDIRECT, q) && Runs(q, "a", BYTECODE);
    BridgeIsReachable(g, VM_RUNTIME, "a", BYTECODE);
  }

  lemma IndirectImports()
    ensures Imports(INDIRECT, VM_RUNTIME) == ["a"] && Imports(INDIRECT, "a") == ["b"]
    ensures Imports(INDIRECT, "b") == [BYTECODE]
  {
    assert |VM_RUNTIME| > 1;
    ImportsAt(INDIRECT, 0);
    ImportsAt(INDIRECT, 1);
    ImportsAt(INDIRECT, 2);
  }

  lemma ShortNamesAreCold()
    ensures !IsHot("a") && !IsHot("b") && IsHot(BYTECODE)
  {
  }
}
