/** Loading followed by analysis: what a command line comes to. */
module BuildManager {
  import opened Prelude
  import opened Graphs
  import opened LoadBuildFiles
  import opened DependencyAnalyzer

  /** Lists are declared without repeating a dependency. */
  ghost predicate Declarable(ws: Workspace) {
    ws.Valid() && forall d, k :: d in ws.builds && k in ws.builds[d] ==> NoDup(ws.builds[d][k])
  }

  /** A loaded part of a workspace, closed and with the declared dependencies. */
  ghost predicate Loaded(ws: Workspace, g: Graph) {
    ws.Valid() && Closed(g) && forall k :: k in g ==> g[k] == ws.DepsOf(k)
  }

  lemma {:induction false} LoadedPathsAreDeclared(ws: Workspace, g: Graph, a: Key, b: Key, n: nat)
    requires Loaded(ws, g) && a in g
    ensures ReachesIn(g, a, b, n) <==> ReachesIn(ws.Declared(), a, b, n)
    decreases n
  {
    var declared := ws.Declared();
    assert a in declared ==> declared[a] == g[a];
    assert a !in declared ==> g[a] == [];
    if n == 0 {
    } else {
      forall d | d in g[a] ensures ReachesIn(g, d, b, n - 1) <==> ReachesIn(declared, d, b, n - 1) {
        LoadedPathsAreDeclared(ws, g, d, b, n - 1);
      }
    }
  }

  /** A loop among the loaded targets is a loop in the BUILD files, and the other way round. */
  lemma LoopsAreDeclared(ws: Workspace, g: Graph)
    requires Loaded(ws, g)
    ensures Acyclic(g) <==> forall k :: k in g ==> !Reaches(ws.Declared(), k, k)
  {
    var declared := ws.Declared();
    forall k | k in g ensures Reaches(g, k, k) <==> Reaches(declared, k, k) {
      if n: nat :| ReachesIn(g, k, k, n) { LoadedPathsAreDeclared(ws, g, k, k, n); }
      if n: nat :| ReachesIn(declared, k, k, n) { LoadedPathsAreDeclared(ws, g, k, k, n); }
    }
    forall k | Reaches(g, k, k) ensures k in g {
      var n: nat :| ReachesIn(g, k, k, n);
    }
  }

  method KeysOf(g: Graph) returns (order: seq<Key>)
    ensures Enumerates(order, g)
  {
    order := [];
    var todo := g.Keys;
    while todo != {}
      invariant NoDup(order) && todo <= g.Keys
      invariant forall k :: k in order <==> k in g && k !in todo
    {
      var k :| k in todo;
      todo := todo - {k};
      order := order + [k];
    }
  }

  datatype StageError = LoadFailed | AnalyzeFailed(error: AnalysisError)

  /** The command line: directories that are loaded first, of whose targets the filter chooses,
      further targets named directly, and targets to leave out. */
  datatype Command = Command(dirs: set<string>, chosen: Key -> bool, direct: set<Key>, excluded: set<Key>)

  ghost function CommandTargets(ws: Workspace, command: Command): set<Key> {
    (set k | k in Registered(ws, command.dirs) && command.chosen(k)) + command.direct - command.excluded
  }

  /** The two stages succeed exactly when the directories have BUILD files, every needed target
      can be loaded and none of them depends on itself; then all needed targets, and no others,
      come out in build order. */
  method LoadAndAnalyze(ws: Workspace, command: Command) returns (r: Result<seq<Key>, StageError>)
    requires Declarable(ws)
    requires forall k :: k in command.direct && k.path == "#" ==> k in Registered(ws, command.dirs)
    ensures r.Success? <==>
      && (forall d :: d in command.dirs ==> ws.normpath(d) in ws.builds)
      && forall k :: Needed(ws.Declared(), CommandTargets(ws, command), k) ==>
           ws.Loadable(k) && !Reaches(ws.Declared(), k, k)
    ensures r.Success? ==>
      && NoDup(r.value) && (forall k :: k in r.value <==> Needed(ws.Declared(), CommandTargets(ws, command), k))
      && (forall i, d :: 0 <= i < |r.value| && d in ws.DepsOf(r.value[i]) ==> d in r.value[..i])
    ensures r.Success? ==>
      && (forall k :: k in command.direct && k !in command.excluded ==> k in r.value)
      && (forall k :: k in r.value && k in command.excluded ==>
            exists c :: c in r.value && c !in command.excluded && Reaches(ws.Declared(), c, k))
      && (forall d, k :: d in command.dirs && ws.normpath(d) in ws.builds && k in ws.builds[ws.normpath(d)] ==>
            command.chosen(k) && k !in command.excluded ==> k in r.value)
    ensures r.Failure? && r.error.AnalyzeFailed? ==>
      r.error.error.LoopFound? && Reaches(ws.Declared(), r.error.error.at, r.error.error.at)
  {
    var loader := new BuildLoader(ws);
    loader.LoadStartingBuildFiles(command.dirs);
    DatabaseIsRegistered(ws, loader.targetDatabase, command.dirs);
    var targets := (set k | k in loader.targetDatabase && command.chosen(k)) + command.direct - command.excluded;
    assert targets == CommandTargets(ws, command);
    var loaded := loader.LoadRelatedBuildFiles(targets);
    if loaded.Failure? || loader.errors > 0 {
      return Failure(LoadFailed);
    }
    r := Analyze(ws, loaded.value);
  }

  /** The analysis of what has been loaded. */
  method Analyze(ws: Workspace, related: Graph) returns (r: Result<seq<Key>, StageError>)
    requires Declarable(ws) && Loaded(ws, related)
    ensures r.Success? <==> forall k :: k in related ==> !Reaches(ws.Declared(), k, k)
    ensures r.Success? ==>
      && NoDup(r.value) && (forall k :: k in r.value <==> k in related)
      && (forall i, d :: 0 <= i < |r.value| && d in ws.DepsOf(r.value[i]) ==> d in r.value[..i])
    ensures r.Failure? ==>
      r.error.AnalyzeFailed? && r.error.error.LoopFound? && Reaches(ws.Declared(), r.error.error.at, r.error.error.at)
  {
    LoopsAreDeclared(ws, related);
    var targets := new RelatedTargets(related);
    var order := KeysOf(related);
    var analyzed := targets.AnalyzeDeps(order);
    match analyzed
    case Success(keys) =>
      r := Success(keys);
    case Failure(e) =>
      ghost var n: nat :| ReachesIn(related, e.at, e.at, n);
      LoadedPathsAreDeclared(ws, related, e.at, e.at, n);
      r := Failure(AnalyzeFailed(e));
  }
}
