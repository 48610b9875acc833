/**
 The module graph of the build script: one main module for each package, and the memoised copies with
 full safety checks that the unit tests of the runtime-hot packages link against.
 */
module SafetyModules {
  import opened Outcomes

  datatype Package = Package(name: string, imports: seq<string>)

  /** Identifies a module by the order of its creation. */
  type ModuleId = nat

  /** `optimised`: compiled in the release mode that drops safety checks, whatever mode was asked for. */
  datatype Module = Module(package: string, optimised: bool, linkLibc: bool, imports: seq<(string, ModuleId)>)

  /** A module of `name` with full safety checks; only the VM runtime needs libc for its tests. */
  predicate IsSafe(m: Module, name: string) {
    m.package == name && !m.optimised && (m.linkLibc <==> name == "kira_vm_runtime")
  }

  const VM_RUNTIME := "kira_vm_runtime"
  const HOT: set<string> := {VM_RUNTIME, "kira_runtime_abi", "kira_bytecode", "kira_hybrid_runtime"}

  predicate IsHot(name: string) {
    name in HOT
  }

  predicate ImportsHot(imports: seq<string>) {
    exists i | 0 <= i < |imports| :: IsHot(imports[i])
  }

  function Names(packages: seq<Package>): set<string> {
    set i | 0 <= i < |packages| :: packages[i].name
  }

  /** The imports of the first package with this name. */
  function Imports(packages: seq<Package>, name: string): seq<string> {
    if packages == [] then []
    else if packages[0].name == name then packages[0].imports
    else Imports(packages[1..], name)
  }

  lemma {:induction false} ImportsAt(packages: seq<Package>, i: nat)
    requires i < |packages| && forall j | 0 <= j < i :: packages[j].name != packages[i].name
    ensures Imports(packages, packages[i].name) == packages[i].imports
  {
    if i > 0 {
      ImportsAt(packages[1..], i - 1);
    }
  }

  ghost predicate DistinctNames(packages: seq<Package>) {
    forall i, j | 0 <= i < j < |packages| :: packages[i].name != packages[j].name
  }

  ghost predicate Resolves(packages: seq<Package>) {
    forall i, k | 0 <= i < |packages| && 0 <= k < |packages[i].imports| ::
      packages[i].imports[k] in Names(packages)
  }

  /** A copy is made of the hot packages and of those that import one directly. */
  predicate Copied(packages: seq<Package>, name: string) {
    IsHot(name) || ImportsHot(Imports(packages, name))
  }

  /** The packages on the interpreter's hot path. */
  predicate NamedHot(name: string) {
    name == "kira_vm_runtime" || name == "kira_runtime_abi" || name == "kira_bytecode" || name == "kira_hybrid_runtime"
  }

  /** No package but a hot one and a direct importer of a hot one gets a copy. */
  lemma CopiedExactly(packages: seq<Package>, name: string)
    ensures Copied(packages, name) <==>
            NamedHot(name) || exists k | 0 <= k < |Imports(packages, name)| :: NamedHot(Imports(packages, name)[k])
  {
    assert forall n :: IsHot(n) <==> NamedHot(n);
  }

  /** Copied packages, each of which imports the next. */
  ghost predicate IsCopyChain(packages: seq<Package>, q: seq<string>) {
    && q != [] && (forall i | 0 <= i < |q| :: Copied(packages, q[i]))
    && forall i | 0 <= i < |q| - 1 :: q[i + 1] in Imports(packages, q[i])
  }

  ghost predicate CopyChain(packages: seq<Package>, a: string, b: string) {
    exists q :: IsCopyChain(packages, q) && q[0] == a && q[|q| - 1] == b
  }

  lemma ChainStarts(packages: seq<Package>, name: string)
    requires Copied(packages, name)
    ensures CopyChain(packages, name, name)
  {
    assert IsCopyChain(packages, [name]);
  }

  lemma ChainsExtend(packages: seq<Package>, name: string, y: string)
    requires Copied(packages, name) && y in Imports(packages, name)
    ensures forall n | CopyChain(packages, y, n) :: CopyChain(packages, name, n)
  {
    forall n | CopyChain(packages, y, n)
      ensures CopyChain(packages, name, n)
    {
      var q :| IsCopyChain(packages, q) && q[0] == y && q[|q| - 1] == n;
      var longer := [name] + q;
      forall i | 0 <= i < |longer| - 1
        ensures longer[i + 1] in Imports(packages, longer[i])
      {
        assert i > 0 ==> longer[i] == q[i - 1] && longer[i + 1] == q[i];
      }
      assert IsCopyChain(packages, longer);
    }
  }

  lemma ImportsResolve(packages: seq<Package>, name: string)
    requires Resolves(packages)
    ensures forall k | 0 <= k < |Imports(packages, name)| :: Imports(packages, name)[k] in Names(packages)
  {
    if name in Names(packages) {
      var i := FirstNamed(packages, name);
    } else {
      NoImports(packages, name);
    }
  }

  lemma {:induction false} NoImports(packages: seq<Package>, name: string)
    requires name !in Names(packages)
    ensures Imports(packages, name) == []
  {
    if packages != [] {
      assert packages[0].name in Names(packages);
      assert forall i | 0 <= i < |packages[1..]| :: packages[1..][i] == packages[i + 1];
      NoImports(packages[1..], name);
    }
  }

  lemma {:induction false} FirstNamed(packages: seq<Package>, name: string) returns (i: nat)
    requires name in Names(packages)
    ensures i < |packages| && packages[i].name == name && Imports(packages, name) == packages[i].imports
  {
    i := 0;
    while packages[i].name != name
      invariant i < |packages|
      invariant forall j | 0 <= j < i :: packages[j].name != name
      decreases |packages| - i
    {
      var k :| 0 <= k < |packages| && packages[k].name == name;
      assert i < k;
      i := i + 1;
    }
    ImportsAt(packages, i);
  }

  /** The state of the build: what is fixed before any copy is made, the modules, and the memo of copies. */
  datatype Graph = Graph(
    packages: seq<Package>,
    hotOptimised: bool,
    mainModules: seq<Module>,
    main: map<string, ModuleId>,
    modules: seq<Module>,
    safety: map<string, ModuleId>)
  {
    /** Every import name resolves, and each package has a main module linked to its imports' main modules. */
    ghost predicate MainValid() {
      && Resolves(packages)
      && main.Keys == Names(packages)
      && (forall n | n in main :: main[n] < |mainModules| && MainLinked(n))
      && (forall id | 0 <= id < |mainModules| :: IsMain(id))
    }

    ghost predicate IsMain(id: ModuleId)
      requires id < |mainModules|
    {
      var m := mainModules[id];
      m.package in main && main[m.package] == id && (m.optimised <==> hotOptimised && IsHot(m.package))
    }

    ghost predicate MainLinked(name: string)
      requires name in main && main[name] < |mainModules|
    {
      var imports := Imports(packages, name);
      var edges := mainModules[main[name]].imports;
      && mainModules[main[name]].package == name && |edges| == |imports|
      && forall i | 0 <= i < |edges| ::
           edges[i].0 == imports[i] && imports[i] in main && edges[i].1 == main[imports[i]]
    }

    ghost predicate Valid() {
      && MainValid()
      && mainModules <= modules
      && safety.Keys <= Names(packages)
      && (forall n | n in safety :: IsCopy(n))
      && (forall id | |mainModules| <= id < |modules| :: IsMemoised(id))
    }

    /** Each module made after the main ones is the memo entry of its package: one copy a name, no more. */
    ghost predicate IsMemoised(id: ModuleId)
      requires id < |modules|
    {
      modules[id].package in safety && safety[modules[id].package] == id
    }

    /** The memo entry of `name` is a module of its own, compiled with full safety. */
    ghost predicate IsCopy(name: string)
      requires name in safety
    {
      && |mainModules| <= safety[name] < |modules|
      && Copied(packages, name)
      && var m := modules[safety[name]];
         m.package == name && !m.optimised && (m.linkLibc <==> name == VM_RUNTIME)
    }

    /** The module that an import of `name` must be linked to. */
    ghost predicate IsTarget(name: string, id: ModuleId) {
      if Copied(packages, name) then name in safety && id == safety[name]
      else name in main && id == main[name]
    }

    /** The copy of `name` has its first `k` imports in place, in order, each linked to its target. */
    ghost predicate Linked(name: string, k: nat) {
      && name in safety && safety[name] < |modules|
      && var imports, edges := Imports(packages, name), modules[safety[name]].imports;
         && |edges| == k <= |imports|
         && forall i | 0 <= i < k :: edges[i].0 == imports[i] && IsTarget(imports[i], edges[i].1)
    }

    ghost predicate Done(name: string) {
      Linked(name, |Imports(packages, name)|)
    }

    /** Every copy is linked, except those still `open`. */
    ghost predicate DoneExcept(open: set<string>) {
      forall n | n in safety && n !in open :: Done(n)
    }

    /** A later state of the same build: copies are only added, and the modules in `open` are as they were. */
    ghost predicate GrowsTo(g: Graph, open: set<string>) {
      && g.packages == packages && g.hotOptimised == hotOptimised && g.mainModules == mainModules && g.main == main
      && |modules| <= |g.modules|
      && (forall n | n in safety :: n in g.safety && g.safety[n] == safety[n])
      && (forall n | n in open && n in safety && safety[n] < |modules| :: g.modules[safety[n]] == modules[safety[n]])
    }

    lemma GrowsTransitively(g: Graph, h: Graph, open: set<string>, more: set<string>)
      requires GrowsTo(g, open) && g.GrowsTo(h, more) && open <= more
      ensures GrowsTo(h, open)
    {
    }

    lemma GrowsToItself(open: set<string>)
      ensures GrowsTo(this, open)
    {
    }

    lemma TargetsExist(name: string)
      requires Valid()
      ensures name in safety ==> Copied(packages, name) && name in Names(packages)
      ensures name in Names(packages) ==> name in main
    {
    }

    /** Targets without a copy are main modules, and copies are modules of their own with full safety. */
    lemma TargetKind(name: string, id: ModuleId)
      requires Valid() && IsTarget(name, id)
      ensures id < |modules| && (id < |mainModules| <==> !Copied(packages, name))
      ensures id >= |mainModules| ==> IsSafe(modules[id], name)
    {
      if Copied(packages, name) {
        assert IsCopy(name);
      }
    }

    lemma ImportsInTable(name: string)
      requires Valid()
      ensures forall k | 0 <= k < |Imports(packages, name)| :: Imports(packages, name)[k] in Names(packages)
    {
      ImportsResolve(packages, name);
    }

    lemma KeepsIds(g: Graph, open: set<string>)
      requires GrowsTo(g, open)
      ensures safety.Keys <= g.safety.Keys && forall n | n in safety :: g.safety[n] == safety[n]
    {
    }

    lemma KeepsLink(g: Graph, name: string, k: nat, open: set<string>)
      requires Linked(name, k) && GrowsTo(g, open) && name in open
      ensures g.Linked(name, k)
    {
    }

    lemma LinkedInRange(name: string, k: nat)
      requires Linked(name, k)
      ensures name in safety && safety[name] < |modules|
    {
    }

    lemma Closed(name: string, open: set<string>)
      requires DoneExcept(open + {name}) && Linked(name, |Imports(packages, name)|)
      ensures DoneExcept(open)
    {
    }

    lemma StaysMainValid(g: Graph)
      requires MainValid() && g.packages == packages && g.hotOptimised == hotOptimised
      requires g.mainModules == mainModules && g.main == main
      ensures g.MainValid()
    {
      forall id | 0 <= id < |mainModules|
        ensures g.IsMain(id)
      {
        assert IsMain(id);
      }
      forall n | n in main
        ensures main[n] < |mainModules| && g.MainLinked(n)
      {
        assert MainLinked(n);
      }
    }

    /** A fresh copy of `name`, memoised before its imports are looked at. */
    function Register(name: string): Graph {
      this.(modules := modules + [Module(name, false, name == VM_RUNTIME, [])],
            safety := safety[name := |modules|])
    }

    lemma Registered(name: string, open: set<string>)
      requires Valid() && open <= safety.Keys && DoneExcept(open)
      requires name in Names(packages) && name !in safety && Copied(packages, name)
      ensures var g := Register(name);
              g.Valid() && g.Linked(name, 0) && g.DoneExcept(open + {name}) && GrowsTo(g, open)
    {
      RegisteredValid(name);
      RegisteredLinks(name, open);
    }

    lemma RegisteredValid(name: string)
      requires Valid() && name in Names(packages) && name !in safety && Copied(packages, name)
      ensures Register(name).Valid()
    {
      var g := Register(name);
      StaysMainValid(g);
      forall n | n in g.safety
        ensures g.IsCopy(n)
      {
        assert n != name ==> IsCopy(n);
      }
      forall id | |mainModules| <= id < |g.modules|
        ensures g.IsMemoised(id)
      {
        assert id < |modules| ==> IsMemoised(id);
      }
    }

    lemma RegisteredLinks(name: string, open: set<string>)
      requires DoneExcept(open) && open <= safety.Keys && name !in safety
      ensures var g := Register(name);
              g.Linked(name, 0) && g.DoneExcept(open + {name}) && GrowsTo(g, open)
    {
    }

    function AddImport(id: ModuleId, name: string, target: ModuleId): Graph
      requires id < |modules|
    {
      this.(modules := modules[id := modules[id].(imports := modules[id].imports + [(name, target)])])
    }

    lemma ImportAdded(name: string, k: nat, target: ModuleId, open: set<string>)
      requires Valid() && Linked(name, k) && k < |Imports(packages, name)| && name !in open
      requires IsTarget(Imports(packages, name)[k], target) && DoneExcept(open + {name})
      ensures var g := AddImport(safety[name], Imports(packages, name)[k], target);
              g.Valid() && g.Linked(name, k + 1) && g.DoneExcept(open + {name}) && GrowsTo(g, open)
    {
      var g := AddImport(safety[name], Imports(packages, name)[k], target);
      assert SameBut(g, name);
      OthersUntouched(g, name);
      ImportAppended(name, k, target);
      CopiesKept(g, name);
      assert GrowsTo(g, open);
      hide *;
      forall n | n in g.safety && n !in open + {name}
        ensures g.Done(n)
      {
        DoneKept(g, name, open, n);
      }
      AllDone(g, open + {name});
    }

    lemma AllDone(g: Graph, open: set<string>)
      requires forall n | n in g.safety && n !in open :: g.Done(n)
      ensures g.DoneExcept(open)
    {
    }

    lemma DoneKept(g: Graph, name: string, open: set<string>, n: string)
      requires DoneExcept(open + {name}) && n in safety && n !in open + {name}
      requires g.packages == packages && GrowsTo(g, {n})
      ensures g.Done(n)
    {
    }

    /** Two states that differ only in the edges of one copy. */
    ghost predicate SameBut(g: Graph, name: string) {
      && g.packages == packages && g.hotOptimised == hotOptimised
      && g.mainModules == mainModules && g.main == main && g.safety == safety
      && |g.modules| == |modules| && name in safety && safety[name] < |modules|
      && (forall i | 0 <= i < |modules| && i != safety[name] :: g.modules[i] == modules[i])
      && g.modules[safety[name]] == modules[safety[name]].(imports := g.modules[safety[name]].imports)
    }

    lemma OthersUntouched(g: Graph, name: string)
      requires Valid() && SameBut(g, name)
      ensures forall n | n in safety && n != name :: GrowsTo(g, {n})
    {
    }

    lemma CopiesKept(g: Graph, name: string)
      requires Valid() && SameBut(g, name)
      ensures g.Valid()
    {
      assert IsCopy(name);
      StaysMainValid(g);
      forall n | n in g.safety
        ensures g.IsCopy(n)
      {
        assert IsCopy(n);
      }
      forall id | |mainModules| <= id < |g.modules|
        ensures g.IsMemoised(id)
      {
        assert IsMemoised(id);
      }
      assert mainModules <= g.modules;
    }

    lemma ImportAppended(name: string, k: nat, target: ModuleId)
      requires Linked(name, k) && k < |Imports(packages, name)| && IsTarget(Imports(packages, name)[k], target)
      ensures AddImport(safety[name], Imports(packages, name)[k], target).Linked(name, k + 1)
    {
    }
  }

  method CreateMain(packages: seq<Package>, hotOptimised: bool)
    returns (created: seq<Module>, names: map<string, ModuleId>)
    requires DistinctNames(packages)
    ensures Created(packages, hotOptimised, created, names, |packages|)
  {
    created, names := [], map[];
    for i := 0 to |packages|
      invariant Created(packages, hotOptimised, created, names, i)
    {
      var name := packages[i].name;
      created := created + [Module(name, hotOptimised && IsHot(name), false, [])];
      names := names[name := i];
    }
  }

  ghost predicate Created(packages: seq<Package>, hotOptimised: bool, created: seq<Module>,
                          names: map<string, ModuleId>, k: nat)
  {
    && |created| == k <= |packages|
    && (forall i | 0 <= i < k ::
          created[i] == Module(packages[i].name, hotOptimised && IsHot(packages[i].name), false, []))
    && (forall i | 0 <= i < k :: packages[i].name in names && names[packages[i].name] == i)
    && (forall n | n in names :: names[n] < k && packages[names[n]].name == n)
  }

  method ApplyImports(packages: seq<Package>, created: seq<Module>, names: map<string, ModuleId>)
    returns (linked: seq<Module>)
    requires Resolves(packages) && |created| == |packages|
    requires names.Keys == Names(packages)
    ensures |linked| == |packages|
    ensures forall i | 0 <= i < |packages| :: linked[i] == created[i].(imports := Edges(packages[i].imports, names))
  {
    linked := created;
    for i := 0 to |packages|
      invariant |linked| == |packages|
      invariant forall j | 0 <= j < i :: linked[j] == created[j].(imports := Edges(packages[j].imports, names))
      invariant forall j | i <= j < |packages| :: linked[j] == created[j]
    {
      var imports := packages[i].imports;
      var edges := [];
      for k := 0 to |imports|
        invariant edges == Edges(imports[..k], names)
      {
        assert imports[k] in Names(packages);
        assert imports[..k + 1][..k] == imports[..k];
        edges := edges + [(imports[k], names[imports[k]])];
      }
      assert imports[..|imports|] == imports;
      linked := linked[i := linked[i].(imports := edges)];
    }
  }

  function Edges(imports: seq<string>, names: map<string, ModuleId>): (edges: seq<(string, ModuleId)>)
    ensures |edges| == |imports|
    ensures forall k | 0 <= k < |imports| && imports[k] in names :: edges[k] == (imports[k], names[imports[k]])
  {
    if imports == [] then []
    else
      var last := imports[|imports| - 1];
      Edges(imports[..|imports| - 1], names) + [(last, if last in names then names[last] else 0)]
  }

  lemma MainBuilt(packages: seq<Package>, hotOptimised: bool, created: seq<Module>,
                  names: map<string, ModuleId>, linked: seq<Module>)
    requires DistinctNames(packages) && Resolves(packages)
    requires Created(packages, hotOptimised, created, names, |packages|)
    requires |linked| == |packages|
    requires forall i | 0 <= i < |packages| :: linked[i] == created[i].(imports := Edges(packages[i].imports, names))
    ensures Graph(packages, hotOptimised, linked, names, linked, map[]).Valid()
  {
    var g := Graph(packages, hotOptimised, linked, names, linked, map[]);
    forall n | n in g.main
      ensures g.main[n] < |linked| && g.MainLinked(n)
    {
      var i := names[n];
      ImportsAt(packages, i);
      ImportsResolve(packages, n);
      assert linked[i] == created[i].(imports := Edges(packages[i].imports, names));
    }
    forall id | 0 <= id < |linked|
      ensures g.IsMain(id)
    {
      assert linked[id] == created[id].(imports := Edges(packages[id].imports, names));
    }
  }

  lemma MainKind(packages: seq<Package>, hotOptimised: bool, created: seq<Module>,
                 names: map<string, ModuleId>, linked: seq<Module>)
    requires Created(packages, hotOptimised, created, names, |packages|) && |linked| == |packages|
    requires forall i | 0 <= i < |packages| :: linked[i] == created[i].(imports := Edges(packages[i].imports, names))
    ensures forall i | 0 <= i < |packages| ::
              linked[i].package == packages[i].name && !linked[i].linkLibc &&
              (linked[i].optimised <==> hotOptimised && NamedHot(packages[i].name))
  {
    assert forall n :: IsHot(n) <==> NamedHot(n);
  }

  class Builder {
    const packages: seq<Package>
    const hotOptimised: bool
    const mainModules: seq<Module>
    const main: map<string, ModuleId>
    var modules: seq<Module>
    var safety: map<string, ModuleId>

    /** Creates the main modules and applies their imports; no copy exists yet. */
    constructor (packages: seq<Package>, hotOptimised: bool)
      requires DistinctNames(packages) && Resolves(packages)
      ensures this.packages == packages && this.hotOptimised == hotOptimised
      ensures View().Valid() && safety == map[] && modules == mainModules
      ensures |mainModules| == |packages|
      ensures forall i | 0 <= i < |packages| ::
                mainModules[i].package == packages[i].name && !mainModules[i].linkLibc &&
                (mainModules[i].optimised <==> hotOptimised && NamedHot(packages[i].name))
    {
      this.packages := packages;
      this.hotOptimised := hotOptimised;
      var created, names := CreateMain(packages, hotOptimised);
      var linked := ApplyImports(packages, created, names);
      mainModules := linked;
      main := names;
      modules := linked;
      safety := map[];
      MainBuilt(packages, hotOptimised, created, names, linked);
      MainKind(packages, hotOptimised, created, names, linked);
    }

    function View(): Graph
      reads this
    {
      Graph(packages, hotOptimised, mainModules, main, modules, safety)
    }

    /**
     The copy of `name`, made on first demand and memoised before its imports are followed, so a cycle of
     imports meets the memo.  `open` are the packages whose copies are still being linked by the callers.
     */
    method SafetyTestModule(name: string, ghost open: set<string>) returns (r: Outcome<ModuleId>)
      requires View().Valid() && open <= safety.Keys && View().DoneExcept(open)
      modifies this
      ensures View().Valid() && View().DoneExcept(open) && old(View()).GrowsTo(View(), open)
      ensures r.Trap? <==> name !in Names(packages)
      ensures r.Ok? ==> View().IsTarget(name, r.value)
      ensures r.Ok? ==> r.value < |modules| &&
                        (r.value < |mainModules| <==>
                         !NamedHot(name) &&
                         forall k | 0 <= k < |Imports(packages, name)| :: !NamedHot(Imports(packages, name)[k]))
      ensures r.Ok? && r.value < |mainModules| ==> name in main && r.value == main[name] && View() == old(View())
      ensures r.Ok? && r.value >= |mainModules| ==> IsSafe(modules[r.value], name)
      ensures forall n | n in safety && n !in old(safety) :: CopyChain(packages, name, n)
      decreases Names(packages) - safety.Keys, 2
    {
      CopiedExactly(packages, name);
      hide Graph.Valid, Graph.DoneExcept, Imports, Names, NamedHot, CopyChain;
      View().TargetsExist(name);
      View().GrowsToItself(open);
      if name in safety {
        View().TargetKind(name, safety[name]);
        return Ok(safety[name]);
      }
      var at := PackageIndex(name);
      if at == |packages| {
        return Trap;
      }
      var imports := packages[at].imports;
      if !IsHot(name) && !ImportsHot(imports) {
        View().TargetKind(name, main[name]);
        return Ok(main[name]);
      }
      ghost var start := View();
      start.Registered(name, open);
      r := MakeCopy(name, imports, open, start);
      View().TargetKind(name, r.value);
    }

    /** The first package of this name; the number of packages if there is none. */
    method PackageIndex(name: string) returns (at: nat)
      ensures at <= |packages| && (at == |packages| <==> name !in Names(packages))
      ensures at < |packages| ==> packages[at].imports == Imports(packages, name)
    {
      at := 0;
      while at < |packages| && packages[at].name != name
        invariant 0 <= at <= |packages|
        invariant forall j | 0 <= j < at :: packages[j].name != name
      {
        at := at + 1;
      }
      if at < |packages| {
        ImportsAt(packages, at);
      }
    }

    /** Creates a copy, memoises it, and then follows its imports. */
    method MakeCopy(name: string, imports: seq<string>, ghost open: set<string>, ghost start: Graph)
      returns (r: Outcome<ModuleId>)
      requires start == View() && name !in safety && name !in open && name in Names(packages)
      requires Copied(packages, name) && imports == Imports(packages, name) && open <= safety.Keys
      requires var g := start.Register(name);
               g.Valid() && g.Linked(name, 0) && g.DoneExcept(open + {name}) && start.GrowsTo(g, open)
      modifies this
      ensures View().Valid() && View().DoneExcept(open) && old(View()).GrowsTo(View(), open)
      ensures r.Ok? && View().IsTarget(name, r.value)
      ensures forall n | n in safety && n !in old(safety) :: CopyChain(packages, name, n)
      decreases Names(packages) - safety.Keys, 1
    {
      ChainStarts(packages, name);
      hide Graph.Valid, Graph.Linked, Graph.DoneExcept, Imports, CopyChain;
      assert name in Names(packages) - safety.Keys;
      var id := |modules|;
      modules := modules + [Module(name, false, name == VM_RUNTIME, [])];
      safety := safety[name := id];
      ghost var before := View();
      LinkImports(name, imports, open);
      start.GrowsTransitively(before, View(), open, open);
      r := Ok(id);
    }

    /** The loop that follows the imports of a freshly memoised copy. */
    method LinkImports(name: string, imports: seq<string>, ghost open: set<string>)
      requires View().Valid() && View().DoneExcept(open + {name}) && name !in open && open + {name} <= safety.Keys
      requires imports == Imports(packages, name) && View().Linked(name, 0) && Copied(packages, name)
      modifies this
      ensures View().Valid() && View().DoneExcept(open) && old(View()).GrowsTo(View(), open)
      ensures forall n | n in safety && n !in old(safety) :: CopyChain(packages, name, n)
      decreases Names(packages) - safety.Keys, 3
    {
      hide Graph.Valid, Graph.Linked, Graph.DoneExcept, Graph.GrowsTo, Graph.IsTarget, Names, Imports;
      hide CopyChain, Copied;
      ghost var start := View();
      var id := safety[name];
      start.ImportsInTable(name);
      start.GrowsToItself(open);
      var k := 0;
      while k < |imports|
        invariant 0 <= k <= |imports|
        invariant View().Valid() && View().Linked(name, k)
        invariant View().DoneExcept(open + {name}) && start.GrowsTo(View(), open)
        invariant start.safety.Keys <= safety.Keys && safety[name] == id
        invariant forall n | n in safety && n !in start.safety :: CopyChain(packages, name, n)
      {
        ghost var before := View();
        var target := SafetyTestModule(imports[k], open + {name});
        ChainsExtend(packages, name, imports[k]);
        before.KeepsIds(View(), open + {name});
        before.KeepsLink(View(), name, k, open + {name});
        start.GrowsTransitively(before, View(), open, open + {name});
        before := View();
        before.ImportAdded(name, k, target.value, open);
        before.LinkedInRange(name, k);
        modules := modules[id := modules[id].(imports := modules[id].imports + [(imports[k], target.value)])];
        assert View() == before.AddImport(id, imports[k], target.value);
        start.GrowsTransitively(before, View(), open, open);
        k := k + 1;
      }
      View().Closed(name, open);
    }
  }
}
