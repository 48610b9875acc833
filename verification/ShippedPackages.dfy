/** The runtime-hot packages of the shipped table, and what their tests are linked against. */
module ShippedPackages {
  import opened SafetyModules
  import opened SafetyReachability

  const CORE := "kira_core"
  const SOURCE := "kira_source"
  const DIAGNOSTICS := "kira_diagnostics"
  const RUNTIME_ABI := "kira_runtime_abi"
  const SYNTAX_MODEL := "kira_syntax_model"
  const SEMANTICS_MODEL := "kira_semantics_model"
  const IR := "kira_ir"
  const HYBRID_DEFINITION := "kira_hybrid_definition"
  const NATIVE_LIB_DEFINITION := "kira_native_lib_definition"
  const DYNAMIC_FFI := "kira_dynamic_ffi"
  const NATIVE_BRIDGE := "kira_native_bridge"
  const HYBRID_RUNTIME := "kira_hybrid_runtime"

  /** The packages that no hot package can be reached from. */
  const COLD: set<string> := {CORE, SOURCE, DIAGNOSTICS, SYNTAX_MODEL, DYNAMIC_FFI}

  /** The packages that import a hot one directly. */
  const IMPORTERS: set<string> := {SEMANTICS_MODEL, IR, HYBRID_DEFINITION, NATIVE_LIB_DEFINITION, NATIVE_BRIDGE}

  /** The rows of the packages that the hot ones import, directly or not, in the shipped order. */
  const RUNTIME_TABLE: seq<Package> := [
    Package(CORE, []),
    Package(SOURCE, [CORE]),
    Package(DIAGNOSTICS, [CORE, SOURCE]),
    Package(RUNTIME_ABI, [CORE]),
    Package(SYNTAX_MODEL, [CORE, SOURCE]),
    Package(SEMANTICS_MODEL, [CORE, SOURCE, SYNTAX_MODEL, RUNTIME_ABI]),
    Package(IR, [CORE, SOURCE, DIAGNOSTICS, SEMANTICS_MODEL, RUNTIME_ABI]),
    Package(HYBRID_DEFINITION, [CORE, RUNTIME_ABI]),
    Package(NATIVE_LIB_DEFINITION, [CORE, RUNTIME_ABI]),
    Package(DYNAMIC_FFI, []),
    Package(BYTECODE, [CORE, IR, RUNTIME_ABI, SOURCE]),
    Package(VM_RUNTIME, [CORE, RUNTIME_ABI, BYTECODE, DYNAMIC_FFI]),
    Package(NATIVE_BRIDGE, [CORE, RUNTIME_ABI, HYBRID_DEFINITION, NATIVE_LIB_DEFINITION, DYNAMIC_FFI]),
    Package(HYBRID_RUNTIME, [CORE, RUNTIME_ABI, HYBRID_DEFINITION, NATIVE_BRIDGE, VM_RUNTIME, BYTECODE])]

  /** A table that holds these rows; its other rows may be anything. */
  ghost predicate ShippedRows(packages: seq<Package>) {
    forall i | 0 <= i < |RUNTIME_TABLE| :: Imports(packages, RUNTIME_TABLE[i].name) == RUNTIME_TABLE[i].imports
  }

  lemma NamesApart(i: nat, j: nat)
    requires i < j < |RUNTIME_TABLE|
    ensures RUNTIME_TABLE[i].name != RUNTIME_TABLE[j].name
  {
  }

  /** The table of these rows alone holds them, and is one that the build script accepts. */
  lemma RowsOfTable()
    ensures ShippedRows(RUNTIME_TABLE) && DistinctNames(RUNTIME_TABLE) && Resolves(RUNTIME_TABLE)
  {
    NamesOfTable();
    hide Imports;
    forall i | 0 <= i < |RUNTIME_TABLE|
      ensures Imports(RUNTIME_TABLE, RUNTIME_TABLE[i].name) == RUNTIME_TABLE[i].imports
    {
      forall j | 0 <= j < i { NamesApart(j, i); }
      ImportsAt(RUNTIME_TABLE, i);
    }
    forall i, j | 0 <= i < j < |RUNTIME_TABLE| { NamesApart(i, j); }
  }

  lemma NamesOfTable()
    ensures
      && RUNTIME_TABLE[0].name == CORE && RUNTIME_TABLE[1].name == SOURCE
      && RUNTIME_TABLE[2].name == DIAGNOSTICS && RUNTIME_TABLE[3].name == RUNTIME_ABI
      && RUNTIME_TABLE[4].name == SYNTAX_MODEL && RUNTIME_TABLE[5].name == SEMANTICS_MODEL
      && RUNTIME_TABLE[6].name == IR && RUNTIME_TABLE[7].name == HYBRID_DEFINITION
      && RUNTIME_TABLE[8].name == NATIVE_LIB_DEFINITION && RUNTIME_TABLE[9].name == DYNAMIC_FFI
      && RUNTIME_TABLE[10].name == BYTECODE && RUNTIME_TABLE[11].name == VM_RUNTIME
      && RUNTIME_TABLE[12].name == NATIVE_BRIDGE && RUNTIME_TABLE[13].name == HYBRID_RUNTIME
  {
  }

  /** No import leads out of the set. */
  ghost predicate Closed(packages: seq<Package>, names: set<string>) {
    forall n, k | n in names && 0 <= k < |Imports(packages, n)| :: Imports(packages, n)[k] in names
  }

  lemma {:induction false} StaysInside(packages: seq<Package>, names: set<string>, q: seq<string>)
    requires Closed(packages, names) && PackagePath(packages, q) && q[0] in names
    ensures q[|q| - 1] in names
  {
    if |q| > 1 {
      assert q[0 + 1] in Imports(packages, q[0]);
      assert PackagePath(packages, q[1..]);
      StaysInside(packages, names, q[1..]);
    }
  }

  lemma ColdIsClosed(packages: seq<Package>)
    requires ShippedRows(packages)
    ensures Closed(packages, COLD)
  {
    hide Imports;
    NamesOfTable();
  }

  lemma ColdIsNotHot()
    ensures forall n | n in COLD :: !IsHot(n)
  {
    assert forall n | n in HOT :: n !in COLD;
  }

  lemma RuntimeIsClosed(packages: seq<Package>)
    requires ShippedRows(packages)
    ensures Closed(packages, HOT + IMPORTERS + COLD)
  {
    hide Imports;
    NamesOfTable();
  }

  lemma ImportersAreCopied(packages: seq<Package>)
    requires ShippedRows(packages)
    ensures forall n | n in IMPORTERS :: Copied(packages, n)
  {
    hide Imports;
    NamesOfTable();
    assert IsHot(RUNTIME_ABI);
    forall n | n in IMPORTERS
      ensures Copied(packages, n)
    {
      assert RUNTIME_ABI in Imports(packages, n);
    }
  }

  /** Whatever stands between a hot package and another one is hot or imports one directly. */
  lemma ShippedTableHasNoBridge(packages: seq<Package>, name: string, x: string, h: string)
    requires ShippedRows(packages) && IsHot(name)
    requires Reaches(packages, name, x) && Reaches(packages, x, h) && IsHot(h)
    ensures Copied(packages, x)
  {
    var q :| PackagePath(packages, q) && Runs(q, name, x);
    RuntimeIsClosed(packages);
    StaysInside(packages, HOT + IMPORTERS + COLD, q);
    if x in COLD {
      var q' :| PackagePath(packages, q') && Runs(q', x, h);
      ColdIsClosed(packages);
      StaysInside(packages, COLD, q');
      ColdIsNotHot();
      assert false;
    }
    ImportersAreCopied(packages);
  }

  /** So the tests of the shipped hot packages never run against an optimised hot module. */
  lemma ShippedTestsAreSafe(g: Graph, name: string)
    requires Finished(g) && g.hotOptimised && ShippedRows(g.packages) && IsHot(name) && name in g.safety
    ensures !OptimisedReachable(g, name)
  {
    forall x, h | Reaches(g.packages, name, x) && Reaches(g.packages, x, h) && IsHot(h)
      ensures Copied(g.packages, x)
    {
      ShippedTableHasNoBridge(g.packages, name, x, h);
    }
    DirectImportersSuffice(g, name);
  }

  lemma ColdIsNotCopied(packages: seq<Package>)
    requires ShippedRows(packages)
    ensures forall n | n in COLD :: !Copied(packages, n)
  {
    ColdIsClosed(packages);
    ColdIsNotHot();
  }

  /** The cold packages are shared: they have their main modules and no other, so copies link to those. */
  lemma ColdIsShared(g: Graph, name: string, id: ModuleId)
    requires Finished(g) && ShippedRows(g.packages) && name in COLD
    ensures name !in g.safety
    ensures id < |g.modules| && PackageOf(g, id) == name ==>
            IsMainModule(g, id) && name in g.main && id == g.main[name]
  {
    ColdIsNotCopied(g.packages);
    assert name in g.safety ==> g.IsCopy(name);
    if id < |g.modules| && PackageOf(g, id) == name {
      assert !IsMainModule(g, id) ==> g.IsMemoised(id);
      assert g.IsMain(id);
    }
  }
}
