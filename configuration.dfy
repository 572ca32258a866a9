/**
 * The per-repository policy and the module dependency graph of
 * `ibl_github_bot/configuration.py`.
 *
 * Python lists are mutable objects shared by reference, and the source relies
 * on that: `global_settings` starts out as the module-level
 * `DEFAULT_CONFIGURATION` dictionary itself, and both `load_config` and
 * `get_all_excludes` extend an exclude list in place with `+=`. The exclude
 * list is therefore an object (`ExcludeList`) here, so that the sharing is
 * part of the model. A `defaultdict(set)` is a `map<string, set<string>>`
 * in which a missing key reads as the empty set; indexing it inserts that
 * empty set, which is why the operations that index it are methods.
 */
module Configuration {
  import opened Wrappers

  /** Directories and files that may never be part of the generated tests. */
  const HardExclude: seq<string> := ["__pycache__", ".git", "tests", "tests.py", ".github", ".vscode"]

  /** `DEFAULT_CONFIGURATION["exclude"]` as the module defines it. */
  const DefaultExclude: seq<string> := HardExclude + ["tests", "migrations", "requirements"]

  const DefaultTestLibrary: string := "pytest"
  const DefaultFrameworks: seq<string> := ["django", "djangorestframework"]
  const DefaultLanguage: string := "python"

  /** The prefix `get_all_excludes` puts before every module-local exclude. */
  const LocalExcludePrefix: string := "module/"

  /** The default exclude list starts with every hard-coded exclusion, so a graph can start from it. */
  lemma DefaultHasBaseline()
    ensures HasBaseline(DefaultExclude)
    ensures |DefaultExclude| == |HardExclude| + 3
    ensures DefaultExclude[..|HardExclude|] == HardExclude
  {
    assert DefaultExclude[..|HardExclude|] == HardExclude;
  }

  /** A Python `list[str]` object: whoever holds a reference to it sees every in-place `+=`. */
  class ExcludeList {
    var items: seq<string>

    constructor (items: seq<string>)
      ensures this.items == items
    {
      this.items := items;
    }
  }

  /** The global settings record (`Config` without its unused `dependencies` entry). */
  datatype Settings = Settings(exclude: ExcludeList, testLibrary: string, frameworks: seq<string>, language: string)

  /** A module record as `load_config` stores it: `{"depends_on": [...], "exclude": [...]}`. */
  datatype ModuleSettings = ModuleSettings(dependsOn: seq<string>, exclude: seq<string>)

  /** A module entry of the parsed policy file; `None` is a key that is absent. */
  datatype ModuleDecl = ModuleDecl(dependsOn: Option<seq<string>>, exclude: Option<seq<string>>)

  /** The parsed policy document; `None` is a top-level key that is absent, and an absent `modules` is the empty map. */
  datatype ParsedConfig = ParsedConfig(
    exclude: Option<seq<string>>,
    testLibrary: Option<string>,
    frameworks: Option<seq<string>>,
    language: Option<string>,
    modules: map<string, ModuleDecl>)

  /** The policy file: missing, present but empty (YAML `None`), or present with a document. */
  datatype PolicyFile = Missing | Empty | Present(config: ParsedConfig) {
    predicate Exists() { !Missing? }
  }

  /** Every hard-coded exclusion is in `s`. */
  predicate HasBaseline(s: seq<string>)
  {
    forall h :: h in HardExclude ==> h in s
  }

  /** The record `load_config` stores for a declared module: absent lists default to `[]`. */
  function ModuleRecord(decl: ModuleDecl): (r: ModuleSettings)
    ensures decl.dependsOn.Some? ==> r.dependsOn == decl.dependsOn.value
    ensures decl.dependsOn.None? ==> r.dependsOn == []
    ensures decl.exclude.Some? ==> r.exclude == decl.exclude.value
    ensures decl.exclude.None? ==> r.exclude == []
  {
    ModuleSettings(decl.dependsOn.GetOr([]), decl.exclude.GetOr([]))
  }

  /** The records of the declared modules whose names are in `names`. */
  function ModuleRecords(decls: map<string, ModuleDecl>, names: set<string>): map<string, ModuleSettings>
  {
    map m | m in names && m in decls :: ModuleRecord(decls[m])
  }

  /** `load_config` keeps a non-empty declared exclude list and otherwise falls back to the default one. */
  predicate UsesDeclaredExclude(c: ParsedConfig)
  {
    c.exclude.Some? && c.exclude.value != []
  }

  /** `["module/" + e for e in excludes]` */
  function Namespaced(excludes: seq<string>): (r: seq<string>)
    ensures |r| == |excludes|
    ensures forall i :: 0 <= i < |excludes| ==> r[i] == LocalExcludePrefix + excludes[i]
  {
    if excludes == [] then [] else [LocalExcludePrefix + excludes[0]] + Namespaced(excludes[1..])
  }

  /** What `get_all_excludes` appends for a module with these settings. */
  function LocalExcludes(settings: Option<ModuleSettings>): seq<string>
  {
    if settings.Some? && settings.value.exclude != [] then Namespaced(settings.value.exclude) else []
  }

  // ----- The dependency graph as a value -----

  /** Reading `g[m]` on a `defaultdict(set)`: a missing key reads as the empty set. */
  function Successors(g: map<string, set<string>>, m: string): set<string>
  {
    if m in g then g[m] else {}
  }

  /**
   * `g2` differs from `g1` only by keys mapped to the empty set, the entries
   * that indexing a `defaultdict(set)` inserts; in particular both graphs
   * have the same edges.
   */
  ghost predicate OnlyEmptyEntriesAdded(g1: map<string, set<string>>, g2: map<string, set<string>>)
  {
    && g1.Keys <= g2.Keys
    && (forall m :: m in g1 ==> g2[m] == g1[m])
    && (forall m :: m in g2 && m !in g1 ==> g2[m] == {})
  }

  /** The elements of a list, as a set. */
  function Elems(s: seq<string>): set<string>
  {
    set x | x in s
  }

  /** The modules among `names` that declare at least one dependency (the keys `build_dependency_graph` touches). */
  function Declaring(modules: map<string, ModuleSettings>, names: set<string>): set<string>
  {
    set m | m in names && m in modules && modules[m].dependsOn != []
  }

  /** The direct dependencies `modules` declares for `m`, if `m` is among `names`. */
  function Declared(modules: map<string, ModuleSettings>, names: set<string>, m: string): set<string>
  {
    if m in names && m in modules then Elems(modules[m].dependsOn) else {}
  }

  /**
   * The graph `build_dependency_graph` leaves behind once it has processed the
   * modules in `names`, starting from `g`: every declared edge added, and a key
   * created only for a module that declares at least one dependency.
   */
  ghost function Built(g: map<string, set<string>>, modules: map<string, ModuleSettings>, names: set<string>): map<string, set<string>>
  {
    map m | m in g.Keys + Declaring(modules, names) :: Successors(g, m) + Declared(modules, names, m)
  }

  /** `g` with the edges from `m` to each of `deps` added: `g[m].add(d)` for every `d`. */
  function AddEdges(g: map<string, set<string>>, m: string, deps: seq<string>): map<string, set<string>>
  {
    if deps == [] then g else g[m := Successors(g, m) + Elems(deps)]
  }

  /** `p` is a walk of at least one edge in `g`. */
  ghost predicate IsPath(g: map<string, set<string>>, p: seq<string>)
  {
    |p| >= 2 && forall i :: 0 <= i < |p| - 1 ==> p[i + 1] in Successors(g, p[i])
  }

  /** `b` can be reached from `a` by following one or more edges of `g`. */
  ghost predicate ReachesPlus(g: map<string, set<string>>, a: string, b: string)
  {
    exists p :: IsPath(g, p) && p[0] == a && p[|p| - 1] == b
  }

  /** Every node of `g`: its keys and everything they point to. */
  function Nodes(g: map<string, set<string>>): (r: set<string>)
    ensures g.Keys <= r
    ensures forall m :: m in g ==> g[m] <= r
  {
    g.Keys + (set m, d | m in g && d in g[m] :: d)
  }

  /**
   * The class `DependencyGraph`. `defaults` is the module-level
   * `DEFAULT_CONFIGURATION["exclude"]` list, which every graph shares.
   */
  class DependencyGraph {
    const configFile: PolicyFile
    const defaults: ExcludeList
    var settings: Settings
    var modules: map<string, ModuleSettings>
    var dependencies: map<string, set<string>>

    /** The hard-coded exclusions are in the global list and in the shared default list. */
    ghost predicate Valid()
      reads this, settings.exclude, defaults
    {
      HasBaseline(settings.exclude.items) && HasBaseline(defaults.items)
    }

    /**
     * `DependencyGraph(config_file)`: the global settings ARE the default
     * configuration (the exclude list is shared, not copied). `defaults` is
     * that shared list: it starts out as `DefaultExclude`
     * (`DefaultHasBaseline`) and keeps whatever earlier graphs appended to
     * it, which is why only the hard exclusions are required. As written, the
     * policy is loaded only when the file does NOT exist, and `load_config`
     * then returns at once, so the graph always starts empty.
     */
    constructor (configFile: PolicyFile, defaults: ExcludeList)
      requires HasBaseline(defaults.items)
      modifies defaults
      ensures Valid()
      ensures this.configFile == configFile && this.defaults == defaults
      ensures settings == Settings(defaults, DefaultTestLibrary, DefaultFrameworks, DefaultLanguage)
      ensures modules == map[] && dependencies == map[]
      ensures defaults.items == old(defaults.items)
    {
      this.configFile := configFile;
      this.defaults := defaults;
      modules := map[];
      dependencies := map[];
      settings := Settings(defaults, DefaultTestLibrary, DefaultFrameworks, DefaultLanguage);
      new;
      if !configFile.Exists() {
        var _ := LoadConfig();
        BuildDependencyGraph();
      }
    }

    /**
     * The corrected constructor: the policy is loaded and the graph built when
     * the file DOES exist. An empty file makes `load_config` fail
     * (`None.get`); the graph is then left as the defaults.
     */
    constructor Load(configFile: PolicyFile, defaults: ExcludeList)
      requires HasBaseline(defaults.items)
      modifies defaults
      ensures Valid()
      ensures this.configFile == configFile && this.defaults == defaults
      ensures !configFile.Present? ==> settings == Settings(defaults, DefaultTestLibrary, DefaultFrameworks, DefaultLanguage)
      ensures !configFile.Present? ==> modules == map[] && dependencies == map[]
      ensures !configFile.Present? ==> defaults.items == old(defaults.items)
      ensures configFile.Present? && UsesDeclaredExclude(configFile.config) ==>
        fresh(settings.exclude) && settings.exclude.items == configFile.config.exclude.value + HardExclude
        && defaults.items == old(defaults.items)
      ensures configFile.Present? && !UsesDeclaredExclude(configFile.config) ==>
        settings.exclude == defaults && defaults.items == old(defaults.items) + HardExclude
      ensures configFile.Present? ==> modules == ModuleRecords(configFile.config.modules, configFile.config.modules.Keys)
      ensures configFile.Present? ==> dependencies == Built(map[], modules, modules.Keys)
      ensures configFile.Present? ==> LoadedSettings(configFile.config)
    {
      this.configFile := configFile;
      this.defaults := defaults;
      modules := map[];
      dependencies := map[];
      settings := Settings(defaults, DefaultTestLibrary, DefaultFrameworks, DefaultLanguage);
      new;
      if configFile.Exists() {
        var ok := LoadConfig();
        if ok {
          BuildDependencyGraph();
        }
      }
    }

    /** `get_settings`: the stored record of a declared module, `None` for any other name. */
    function GetSettings(name: string): (r: Option<ModuleSettings>)
      reads this
      ensures r.Some? <==> name in modules
      ensures r.Some? ==> r.value == modules[name]
    {
      if name in modules then Some(modules[name]) else None
    }

    /**
     * `get_dependencies`: indexing the `defaultdict` never fails, so the
     * result is a set (never `None`), and an unknown module gets an empty
     * entry inserted.
     */
    method GetDependencies(name: string) returns (r: set<string>)
      modifies this`dependencies
      ensures r == Successors(old(dependencies), name)
      ensures dependencies == old(dependencies)[name := r]
      ensures OnlyEmptyEntriesAdded(old(dependencies), dependencies)
    {
      r := Successors(dependencies, name);
      dependencies := dependencies[name := r];
    }

    /**
     * `load_config`. A missing file changes nothing; an empty file is a YAML
     * `None` on which `.get` raises, reported here as `ok == false` with
     * nothing changed. Otherwise each setting falls back to its default on
     * its own, a missing or empty exclude list falls back to the SHARED
     * default list, the hard-coded list is appended in place to whichever
     * list was chosen, and every declared module is recorded.
     */
    method LoadConfig() returns (ok: bool)
      requires Valid()
      modifies this`settings, this`modules, defaults
      ensures Valid()
      ensures ok <==> !configFile.Empty?
      ensures !configFile.Present? ==> settings == old(settings) && modules == old(modules)
      ensures !configFile.Present? ==> defaults.items == old(defaults.items)
      ensures configFile.Present? ==> LoadedSettings(configFile.config)
      ensures configFile.Present? && UsesDeclaredExclude(configFile.config) ==>
        fresh(settings.exclude) && settings.exclude.items == configFile.config.exclude.value + HardExclude
        && defaults.items == old(defaults.items)
      ensures configFile.Present? && !UsesDeclaredExclude(configFile.config) ==>
        settings.exclude == defaults && defaults.items == old(defaults.items) + HardExclude
      ensures configFile.Present? ==>
        modules == old(modules) + ModuleRecords(configFile.config.modules, configFile.config.modules.Keys)
    {
      match configFile
      case Missing =>
        ok := true;
      case Empty =>
        ok := false;
      case Present(c) =>
        ok := true;
        var exclude: ExcludeList;
        if UsesDeclaredExclude(c) {
          exclude := new ExcludeList(c.exclude.value);
        } else {
          exclude := defaults;
        }
        exclude.items := exclude.items + HardExclude;
        settings := Settings(
          exclude,
          c.testLibrary.GetOr(DefaultTestLibrary),
          c.frameworks.GetOr(DefaultFrameworks),
          c.language.GetOr(DefaultLanguage));
        RecordModules(c.modules);
    }

    /** The loop of `load_config` that records the settings of every declared module. */
    method RecordModules(decls: map<string, ModuleDecl>)
      modifies this`modules
      ensures modules == old(modules) + ModuleRecords(decls, decls.Keys)
    {
      var todo := decls.Keys;
      ghost var done: set<string> := {};
      while todo != {}
        invariant todo == decls.Keys - done && done <= decls.Keys
        invariant modules == old(modules) + ModuleRecords(decls, done)
        decreases todo
      {
        var name :| name in todo;
        modules := modules[name := ModuleRecord(decls[name])];
        todo := todo - {name};
        done := done + {name};
      }
    }

    /** The descriptors `load_config` resolves, each on its own against its default. */
    ghost predicate LoadedSettings(c: ParsedConfig)
      reads this
    {
      && settings.testLibrary == c.testLibrary.GetOr(DefaultTestLibrary)
      && settings.frameworks == c.frameworks.GetOr(DefaultFrameworks)
      && settings.language == c.language.GetOr(DefaultLanguage)
    }

    /** `build_dependency_graph`: `dependencies[m].add(d)` for every declared edge `m -> d`. */
    method BuildDependencyGraph()
      modifies this`dependencies
      ensures dependencies == Built(old(dependencies), modules, modules.Keys)
    {
      ghost var g0 := dependencies;
      var todo := modules.Keys;
      ghost var done: set<string> := {};
      BuiltNothing(g0, modules);
      while todo != {}
        invariant todo == modules.Keys - done && done <= modules.Keys
        invariant dependencies == Built(g0, modules, done)
        decreases todo
      {
        var m :| m in todo;
        AddDependencies(m, modules[m].dependsOn);
        BuiltStep(g0, modules, done, m);
        todo := todo - {m};
        done := done + {m};
      }
    }

    /** The inner loop of `build_dependency_graph`: `dependencies[m].add(d)` for each `d` in `deps`, in order. */
    method AddDependencies(m: string, deps: seq<string>)
      modifies this`dependencies
      ensures dependencies == AddEdges(old(dependencies), m, deps)
    {
      ghost var before := dependencies;
      for j := 0 to |deps|
        invariant dependencies == AddEdges(before, m, deps[..j])
      {
        AddEdgesStep(before, m, deps, j);
        dependencies := dependencies[m := Successors(dependencies, m) + {deps[j]}];
      }
      assert deps[..|deps|] == deps;
    }

    /**
     * `get_all_excludes`: the global exclude list itself (the same object),
     * after `"module/" + e` has been appended IN PLACE for each entry of a
     * non-empty module-local exclude list. The prefix is the literal text
     * "module/", not the module's name, and the additions stay in the list,
     * which may be the default list every graph shares.
     */
    method GetAllExcludes(name: string) returns (r: ExcludeList)
      requires Valid()
      modifies settings.exclude
      ensures Valid()
      ensures r == settings.exclude
      ensures r.items == old(r.items) + LocalExcludes(GetSettings(name))
    {
      r := settings.exclude;
      var local := GetSettings(name);
      if local.Some? && local.value.exclude != [] {
        r.items := r.items + Namespaced(local.value.exclude);
      }
    }

    /**
     * The corrected `get_all_excludes`: the global list followed by the
     * module's own excludes placed under the module's directory, as a new
     * list; nothing is changed.
     */
    function ResolvedExcludes(name: string): (r: seq<string>)
      reads this, settings.exclude, defaults
      requires Valid()
      ensures HasBaseline(r)
      ensures |r| >= |settings.exclude.items| && r[..|settings.exclude.items|] == settings.exclude.items
      ensures name !in modules ==> r == settings.exclude.items
      ensures name in modules ==> |r| == |settings.exclude.items| + |modules[name].exclude|
      ensures name in modules ==> forall i :: 0 <= i < |modules[name].exclude| ==>
        r[|settings.exclude.items| + i] == name + "/" + modules[name].exclude[i]
    {
      var local := if name in modules then modules[name].exclude else [];
      settings.exclude.items + seq(|local|, i requires 0 <= i < |local| => name + "/" + local[i])
    }

    /** `get_direct_dependencies`: the declared edges of `module`, empty for an unknown module; no key is inserted. */
    function GetDirectDependencies(name: string): (r: set<string>)
      reads this
      ensures name in dependencies ==> r == dependencies[name]
      ensures name !in dependencies ==> r == {}
    {
      Successors(dependencies, name)
    }

    /**
     * `get_all_dependencies(module)`: every module reachable from `module` by
     * one or more edges, each once. `module` itself is included exactly when
     * it lies on a cycle. The traversal terminates on every graph; the only
     * change to the graph is the empty entries `defaultdict` indexing inserts.
     */
    method GetAllDependencies(name: string) returns (r: set<string>)
      modifies this`dependencies
      ensures forall x :: x in r <==> ReachesPlus(old(dependencies), name, x)
      ensures OnlyEmptyEntriesAdded(old(dependencies), dependencies)
    {
      ghost var g0 := dependencies;
      var visited;
      r, visited := Visit(name, {}, Nodes(g0) + {name}, g0);
      forall x | ReachesPlus(g0, name, x) ensures x in r {
        ClosedUnderEdges(g0, r, name, x);
      }
    }

    /**
     * One call `get_all_dependencies(module, visited)` with a `visited` set
     * shared by the whole traversal: `visited` goes in, its new value comes
     * out. `universe` holds every node; the pair of decreasing measures says
     * that each nested call is made on a module not yet visited.
     */
    method Visit(name: string, visited: set<string>, ghost universe: set<string>, ghost g0: map<string, set<string>>)
      returns (r: set<string>, visitedOut: set<string>)
      requires name in universe
      requires forall m :: m in g0 ==> g0[m] <= universe
      requires OnlyEmptyEntriesAdded(g0, dependencies)
      modifies this`dependencies
      decreases |universe - visited|, if name in visited then 1 else 0
      ensures OnlyEmptyEntriesAdded(g0, dependencies)
      ensures visited + {name} <= visitedOut
      ensures r <= visitedOut
      ensures forall x :: x in visitedOut && x !in visited ==> Successors(g0, x) <= r
      ensures name !in visited ==> Successors(g0, name) <= r
      ensures forall x :: x in r ==> ReachesPlus(g0, name, x)
    {
      visitedOut := visited + {name};
      var direct := GetDependencies(name);
      assert direct == Successors(g0, name);
      r := direct;
      forall x | x in direct ensures ReachesPlus(g0, name, x) {
        OneEdge(g0, name, x);
      }
      var todo := direct;
      while todo != {}
        invariant todo <= direct <= r
        invariant OnlyEmptyEntriesAdded(g0, dependencies)
        invariant visited + {name} <= visitedOut
        invariant direct - todo <= visitedOut
        invariant r <= visitedOut + todo
        invariant forall x :: x in visitedOut && x !in visited && x != name ==> Successors(g0, x) <= r
        invariant forall x :: x in r ==> ReachesPlus(g0, name, x)
        decreases todo
      {
        var d :| d in todo;
        todo := todo - {d};
        if d !in visitedOut {
          SubsetSize(universe - visitedOut, universe - visited, name);
          var sub, v := Visit(d, visitedOut, universe, g0);
          forall x | x in sub ensures ReachesPlus(g0, name, x) {
            Prepend(g0, name, d, x);
          }
          r := r + sub;
          visitedOut := v;
        }
      }
    }
  }

  // ----- The exclude lists -----

  /**
   * As written, a module "core" that excludes "migrations" adds
   * "module/migrations" to the exclusions, which names no directory of
   * "core"; the corrected list names "core/migrations".
   */
  lemma LiteralModulePrefix()
    ensures LocalExcludes(Some(ModuleSettings([], ["migrations"]))) == ["module/migrations"]
    ensures "core/migrations" !in LocalExcludes(Some(ModuleSettings([], ["migrations"])))
  {
    assert ["migrations"][1..] == [];
    assert LocalExcludePrefix + "migrations" == "module/migrations";
    assert Namespaced(["migrations"]) == ["module/migrations"];
    assert "module/migrations"[0] != "core/migrations"[0];
  }

  // ----- Lemmas about the graph -----

  /** One edge is a path. */
  lemma OneEdge(g: map<string, set<string>>, a: string, b: string)
    requires b in Successors(g, a)
    ensures ReachesPlus(g, a, b)
  {
    assert IsPath(g, [a, b]);
  }

  /** An edge followed by a path is a path. */
  lemma Prepend(g: map<string, set<string>>, a: string, b: string, c: string)
    requires b in Successors(g, a) && ReachesPlus(g, b, c)
    ensures ReachesPlus(g, a, c)
  {
    var p :| IsPath(g, p) && p[0] == b && p[|p| - 1] == c;
    var q := [a] + p;
    assert IsPath(g, q) by {
      forall i | 0 <= i < |q| - 1 ensures q[i + 1] in Successors(g, q[i]) {
        if i > 0 { assert q[i] == p[i - 1] && q[i + 1] == p[i]; }
      }
    }
    assert q[0] == a && q[|q| - 1] == c;
  }

  /**
   * A set that holds the successors of `a` and is closed under edges holds
   * everything reachable from `a`.
   */
  lemma {:induction false} ClosedUnderEdges(g: map<string, set<string>>, s: set<string>, a: string, x: string)
    requires Successors(g, a) <= s
    requires forall y :: y in s ==> Successors(g, y) <= s
    requires ReachesPlus(g, a, x)
    ensures x in s
  {
    var p :| IsPath(g, p) && p[0] == a && p[|p| - 1] == x;
    var i := 1;
    while i < |p| - 1
      invariant 1 <= i <= |p| - 1
      invariant p[i] in s
    {
      assert p[i + 1] in Successors(g, p[i]);
      i := i + 1;
    }
  }

  /** Removing elements cannot enlarge a set; removing one of its elements shrinks it. */
  lemma SubsetSize(a: set<string>, b: set<string>, x: string)
    requires a <= b
    ensures |a| <= |b|
    ensures x in b && x !in a ==> |a| < |b|
  {
    assert b == a + (b - a);
    if x in b && x !in a {
      assert x in b - a;
    }
  }

  /** A module with no direct dependency has no transitive dependency either. */
  lemma NoEdgesNoReach(g: map<string, set<string>>, a: string, x: string)
    requires Successors(g, a) == {}
    ensures !ReachesPlus(g, a, x)
  {
    if ReachesPlus(g, a, x) {
      ClosedUnderEdges(g, {}, a, x);
    }
  }

  /**
   * On the two-module cycle a -> b -> a, the modules reachable from "a" are
   * exactly "a" and "b": the start module is included because it lies on
   * the cycle.
   */
  lemma TwoCycle(x: string)
    ensures var g := map["a" := {"b"}, "b" := {"a"}];
      ReachesPlus(g, "a", x) <==> x == "a" || x == "b"
  {
    var g := map["a" := {"b"}, "b" := {"a"}];
    OneEdge(g, "a", "b");
    OneEdge(g, "b", "a");
    Prepend(g, "a", "b", "a");
    if ReachesPlus(g, "a", x) {
      ClosedUnderEdges(g, {"a", "b"}, "a", x);
    }
  }

  /** The inner loop of `build_dependency_graph` adds one edge per iteration. */
  lemma AddEdgesStep(g: map<string, set<string>>, m: string, deps: seq<string>, j: nat)
    requires j < |deps|
    ensures var h := AddEdges(g, m, deps[..j]);
      AddEdges(g, m, deps[..j + 1]) == h[m := Successors(h, m) + {deps[j]}]
  {
    assert Elems(deps[..j + 1]) == Elems(deps[..j]) + {deps[j]} by {
      assert deps[..j + 1] == deps[..j] + [deps[j]];
    }
    if j > 0 {
      var h := AddEdges(g, m, deps[..j]);
      assert h == g[m := Successors(g, m) + Elems(deps[..j])];
      assert Successors(h, m) == Successors(g, m) + Elems(deps[..j]);
      var y := Successors(g, m) + Elems(deps[..j + 1]);
      assert AddEdges(g, m, deps[..j + 1]) == g[m := y];
      assert Successors(h, m) + {deps[j]} == y;
      assert h[m := y] == g[m := y];
    } else {
      assert deps[..j] == [] && AddEdges(g, m, deps[..j]) == g;
      assert deps[..j + 1] == [deps[j]] && Elems([deps[j]]) == {deps[j]};
      assert AddEdges(g, m, deps[..j + 1]) == g[m := Successors(g, m) + {deps[j]}];
    }
  }

  /** Before any module is processed the graph is unchanged. */
  lemma BuiltNothing(g: map<string, set<string>>, modules: map<string, ModuleSettings>)
    ensures Built(g, modules, {}) == g
  {
    assert Declaring(modules, {}) == {};
    var b := Built(g, modules, {});
    assert b.Keys == g.Keys;
    forall k | k in g ensures b[k] == g[k] {
      assert Declared(modules, {}, k) == {};
    }
  }

  /** Processing one more module in `build_dependency_graph` adds exactly its declared edges. */
  lemma BuiltStep(g: map<string, set<string>>, modules: map<string, ModuleSettings>, done: set<string>, m: string)
    requires m in modules && m !in done
    ensures AddEdges(Built(g, modules, done), m, modules[m].dependsOn) == Built(g, modules, done + {m})
  {
    if modules[m].dependsOn == [] {
      BuiltStepNoEdges(g, modules, done, m);
    } else {
      BuiltStepEdges(g, modules, done, m);
    }
  }

  /** A module without dependencies leaves the graph as it was. */
  lemma BuiltStepNoEdges(g: map<string, set<string>>, modules: map<string, ModuleSettings>, done: set<string>, m: string)
    requires m in modules && m !in done && modules[m].dependsOn == []
    ensures Built(g, modules, done) == Built(g, modules, done + {m})
  {
    var before := Built(g, modules, done);
    var after := Built(g, modules, done + {m});
    assert Declaring(modules, done + {m}) == Declaring(modules, done);
    assert before.Keys == after.Keys;
    forall k | k in after ensures after[k] == before[k] {
      assert Declared(modules, done + {m}, k) == Declared(modules, done, k) by {
        if k == m { assert Elems(modules[m].dependsOn) == {}; }
      }
    }
  }

  /** A module with dependencies gains exactly those edges. */
  lemma BuiltStepEdges(g: map<string, set<string>>, modules: map<string, ModuleSettings>, done: set<string>, m: string)
    requires m in modules && m !in done && modules[m].dependsOn != []
    ensures AddEdges(Built(g, modules, done), m, modules[m].dependsOn) == Built(g, modules, done + {m})
  {
    var before := Built(g, modules, done);
    var after := Built(g, modules, done + {m});
    var added := AddEdges(before, m, modules[m].dependsOn);
    assert added.Keys == after.Keys by {
      assert Declaring(modules, done + {m}) == Declaring(modules, done) + {m};
    }
    assert forall k :: k in after ==> after[k] == added[k] by {
      forall k | k in after ensures after[k] == added[k] {
        if k == m {
          assert Declared(modules, done, m) == {};
          assert Successors(before, m) == Successors(g, m);
          assert Declared(modules, done + {m}, m) == Elems(modules[m].dependsOn);
        } else {
          assert Declared(modules, done + {m}, k) == Declared(modules, done, k);
        }
      }
    }
  }

  /**
   * Building the graph from an empty one: `d` is a direct dependency of `m`
   * exactly when `m` is declared and lists `d` in its `depends_on`.
   */
  lemma BuildFromEmpty(modules: map<string, ModuleSettings>, m: string, d: string)
    ensures d in Successors(Built(map[], modules, modules.Keys), m) <==> m in modules && d in modules[m].dependsOn
  {
  }

  /** Running `build_dependency_graph` a second time adds no edge and no key. */
  lemma {:induction false} BuildIdempotent(g: map<string, set<string>>, modules: map<string, ModuleSettings>)
    ensures Built(Built(g, modules, modules.Keys), modules, modules.Keys) == Built(g, modules, modules.Keys)
  {
    var once := Built(g, modules, modules.Keys);
    var twice := Built(once, modules, modules.Keys);
    assert twice.Keys == once.Keys;
    forall k | k in once ensures twice[k] == once[k] {
      assert Successors(once, k) == Successors(g, k) + Declared(modules, modules.Keys, k);
    }
  }
}
