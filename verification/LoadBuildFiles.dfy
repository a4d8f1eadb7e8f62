/** Loading of BUILD files: which targets a command line pulls in. */
module LoadBuildFiles {
  import opened Prelude
  import opened Graphs

  /** What is on disk. `builds` holds, for each directory with a BUILD file, the targets that
      executing the file registers, with their `deps`; `skipped` says whether a directory is
      under a `.bladeskip` file or a nested workspace. */
  datatype Workspace = Workspace(
    builds: map<string, map<Key, seq<Key>>>,
    skipped: string -> bool,
    normpath: string -> string)
  {
    /** A BUILD file registers its targets under its own, normalised, directory. The path "#"
        stands for the system and is no directory. */
    ghost predicate Valid() {
      && "#" !in builds
      && (forall d :: d in builds ==> normpath(d) == d)
      && (forall d, k :: d in builds && k in builds[d] ==> k.path == d)
    }

    ghost predicate Declares(k: Key) {
      k.path in builds && k in builds[k.path]
    }

    /** The graph over everything declared anywhere. */
    ghost function Declared(): Graph {
      map d, k | d in builds && k in builds[d] && k.path == d :: k := builds[d][k]
    }

    /** The dependencies of a target as declared; system libraries have none. */
    ghost function DepsOf(k: Key): seq<Key> {
      if Declares(k) then builds[k.path][k] else []
    }

    ghost predicate Loadable(k: Key) {
      k.path == "#" || (!skipped(k.path) && Declares(k))
    }
  }

  /** k is a command target or a direct or indirect dependency of one. */
  ghost predicate Needed(g: Graph, command: set<Key>, k: Key) {
    k in command || exists c :: c in command && Reaches(g, c, k)
  }

  lemma NeededStep(g: Graph, command: set<Key>, k: Key, d: Key)
    requires Needed(g, command, k) && k in g && d in g[k]
    ensures Needed(g, command, d)
  {
    Edge(g, k, d);
    if k !in command {
      var c :| c in command && Reaches(g, c, k);
      Transitive(g, c, k, d);
    }
  }

  /** The needed keys are the least set that holds the command targets and follows `deps`. */
  lemma NeededIsLeast(g: Graph, command: set<Key>, s: set<Key>, k: Key)
    requires command <= s && forall x, d :: x in s && x in g && d in g[x] ==> d in s
    requires Needed(g, command, k)
    ensures k in s
  {
    if k !in command {
      var c :| c in command && Reaches(g, c, k);
      var n: nat :| ReachesIn(g, c, k, n);
      StaysInside(g, s, c, k, n);
    }
  }

  /** Nothing has been lost: command targets and dependencies are settled or still cited. */
  ghost predicate Pursued(command: set<Key>, related: Graph, cited: set<Key>) {
    && (forall k :: k in command ==> k in related || k in cited)
    && (forall k, d :: k in related && d in related[k] ==> d in related || d in cited)
  }

  datatype LoadError = MissingSystemLibrary(k: Key) | NobodyToBlame(k: Key)

  /** The database holds exactly what the BUILD files of the processed directories register,
      together with the system libraries these targets name. */
  ghost predicate DatabaseOf(ws: Workspace, db: Graph, processed: set<string>) {
    && (forall k :: k in db && k.path != "#" ==> k.path in processed && ws.Declares(k) && db[k] == ws.builds[k.path][k])
    && (forall k: Key :: k.path in processed && ws.Declares(k) ==> k in db)
    && (forall k :: k in db && k.path == "#" ==> db[k] == [])
    && (forall k, d :: k in db && d in db[k] && d.path == "#" ==> d in db)
    && (forall k :: k in db && k.path == "#" ==> Named(db, k))
  }

  /** What executing the BUILD files of some directories registers. */
  ghost function Registered(ws: Workspace, dirs: set<string>): set<Key> {
    (set d, k | d in dirs && ws.normpath(d) in ws.builds && k in ws.builds[ws.normpath(d)] :: k)
    + (set d, k, x | d in dirs && ws.normpath(d) in ws.builds && k in ws.builds[ws.normpath(d)]
                     && x in ws.builds[ws.normpath(d)][k] && x.path == "#" :: x)
  }

  lemma DatabaseIsRegistered(ws: Workspace, db: Graph, dirs: set<string>)
    requires ws.Valid() && DatabaseOf(ws, db, set d | d in dirs :: ws.normpath(d))
    ensures db.Keys == Registered(ws, dirs)
  {
    forall k | k in db ensures k in Registered(ws, dirs) {
      var t := k;
      if k.path == "#" { t :| t in db && k in db[t]; }
      assert t.path != "#" && t in db;
      var d :| d in dirs && ws.normpath(d) == t.path;
      assert t in ws.builds[ws.normpath(d)];
    }
    forall k | k in Registered(ws, dirs) ensures k in db {
      var d, t :| d in dirs && ws.normpath(d) in ws.builds && t in ws.builds[ws.normpath(d)]
                  && (t == k || (k in ws.builds[ws.normpath(d)][t] && k.path == "#"));
      assert ws.Declares(t) && t in db && t.path != "#";
    }
  }

  /** Only a command target can be cited without a target in the database that names it. */
  ghost predicate Traced(command: set<Key>, cited: set<Key>, db: Graph) {
    forall k :: k in cited ==> k in command || Named(db, k)
  }

  predicate Named(db: Graph, k: Key) {
    exists t :: t in db && k in db[t]
  }

  /** Databases of more and more directories agree on what they share. */
  lemma DatabaseGrows(ws: Workspace, db: Graph, next: Graph, processed: set<string>, processed': set<string>)
    requires DatabaseOf(ws, db, processed) && DatabaseOf(ws, next, processed') && db.Keys <= next.Keys
    ensures forall k :: Named(db, k) ==> Named(next, k)
  {
    forall k | Named(db, k) ensures Named(next, k) {
      var t :| t in db && k in db[t];
      assert t.path != "#" && t in next && next[t] == db[t];
    }
  }

  function SystemLibraries(registered: Graph): Graph {
    map k: Key, x: Key | k in registered && x in registered[k] && x.path == "#" :: x := []
  }

  lemma RegisterDirectory(ws: Workspace, db: Graph, processed: set<string>, dir: string)
    requires ws.Valid() && DatabaseOf(ws, db, processed) && dir !in processed
    ensures dir in ws.builds ==>
      DatabaseOf(ws, db + ws.builds[dir] + SystemLibraries(ws.builds[dir]), processed + {dir})
    ensures dir !in ws.builds ==> DatabaseOf(ws, db, processed + {dir})
  {
    if dir in ws.builds {
      LibrariesAreNamed(db, ws.builds[dir]);
      TargetsAreDeclared(ws, db, processed, dir);
    }
  }

  lemma TargetsAreDeclared(ws: Workspace, db: Graph, processed: set<string>, dir: string)
    requires ws.Valid() && DatabaseOf(ws, db, processed) && dir in ws.builds
    ensures var next := db + ws.builds[dir] + SystemLibraries(ws.builds[dir]);
      && (forall k :: k in next && k.path != "#" ==>
            k.path in processed + {dir} && ws.Declares(k) && next[k] == ws.builds[k.path][k])
      && (forall k: Key :: k.path in processed + {dir} && ws.Declares(k) ==> k in next)
      && (forall k :: k in next && k.path == "#" ==> next[k] == [])
      && (forall k, d :: k in next && d in next[k] && d.path == "#" ==> d in next)
  {
    var registered := ws.builds[dir];
    var next := db + registered + SystemLibraries(registered);
    forall k, d: Key | k in next && d in next[k] && d.path == "#" ensures d in next {
      if k in registered { assert d in SystemLibraries(registered); }
    }
  }

  lemma LibrariesAreNamed(db: Graph, registered: Graph)
    requires forall k :: k in db && k.path == "#" ==> db[k] == [] && Named(db, k)
    requires forall k :: k in registered ==> k.path != "#"
    requires forall k :: k in db && k in registered ==> db[k] == registered[k]
    ensures var next := db + registered + SystemLibraries(registered);
      forall k :: k in next && k.path == "#" ==> Named(next, k)
  {
    var next := db + registered + SystemLibraries(registered);
    forall k | k in next && k.path == "#" ensures Named(next, k) {
      var t :| if k in db then t in db && k in db[t] else t in registered && k in registered[t];
      assert t.path != "#" && t in next && k in next[t];
    }
  }

  /** A finite set with every key that can come up when starting from `command`. */
  ghost predicate Universe(ws: Workspace, command: set<Key>, u: set<Key>) {
    command <= u && forall k, d :: ws.Declares(k) && d in ws.DepsOf(k) ==> d in u
  }

  lemma UniverseExists(ws: Workspace, command: set<Key>) returns (u: set<Key>)
    ensures Universe(ws, command, u)
  {
    u := command + set p, k, d | p in ws.builds && k in ws.builds[p] && d in ws.builds[p][k] :: d;
  }

  /** What the search knows between two steps: only needed keys come up, the settled ones
      are loadable and carry their dependencies, and as long as nothing was reported
      (`clean`) no key has been lost. A report means that a needed key is not loadable. */
  ghost predicate Searching(ws: Workspace, command: set<Key>, u: set<Key>, related: Graph, cited: set<Key>,
                            db: Graph, clean0: bool, clean: bool)
  {
    && cited <= u && related.Keys <= u
    && (forall k :: k in cited || k in related ==> Needed(ws.Declared(), command, k))
    && (forall k :: k in related ==> ws.Loadable(k) && related[k] == ws.DepsOf(k))
    && (forall k :: k in cited && k.path == "#" ==> k in db)
    && (clean ==> clean0 && Pursued(command, related, cited))
    && (clean0 && !clean ==> exists k :: Needed(ws.Declared(), command, k) && !ws.Loadable(k))
  }

  lemma SettleTarget(ws: Workspace, command: set<Key>, u: set<Key>, related: Graph, cited: set<Key>,
                     db0: Graph, db: Graph, clean0: bool, clean: bool, t: Key, more: set<Key>)
    requires ws.Valid() && Universe(ws, command, u) && Searching(ws, command, u, related, cited, db0, clean0, clean)
    requires t in cited && ws.Loadable(t) && t in db && db[t] == ws.DepsOf(t)
    requires db0.Keys <= db.Keys && forall d :: d in db[t] && d.path == "#" ==> d in db
    requires more == set d | d in ws.DepsOf(t) && d !in related[t := ws.DepsOf(t)]
    ensures Searching(ws, command, u, related[t := ws.DepsOf(t)], cited - {t} + more, db, clean0, clean)
  {
    CitedAreNeeded(ws, command, u, t);
    OneMoreKey(related, t, ws.DepsOf(t));
    assert forall d :: d in more ==> d in ws.DepsOf(t);
    if clean { StillPursued(command, related, cited, t, ws.DepsOf(t), more); }
  }

  lemma CitedAreNeeded(ws: Workspace, command: set<Key>, u: set<Key>, t: Key)
    requires ws.Valid() && Universe(ws, command, u) && Needed(ws.Declared(), command, t)
    ensures forall d :: d in ws.DepsOf(t) ==> d in u && Needed(ws.Declared(), command, d)
  {
    forall d | d in ws.DepsOf(t) ensures d in u && Needed(ws.Declared(), command, d) {
      assert ws.Declares(t);
      assert t in ws.Declared() && ws.Declared()[t] == ws.DepsOf(t);
      NeededStep(ws.Declared(), command, t, d);
    }
  }

  lemma StillPursued(command: set<Key>, related: Graph, cited: set<Key>, t: Key, deps: seq<Key>, more: set<Key>)
    requires Pursued(command, related, cited) && t in cited
    requires forall d :: d in deps && d !in related[t := deps] ==> d in more
    ensures Pursued(command, related[t := deps], cited - {t} + more)
  {
  }

  lemma DropTarget(ws: Workspace, command: set<Key>, u: set<Key>, related: Graph, cited: set<Key>,
                   db0: Graph, db: Graph, clean0: bool, clean: bool, t: Key)
    requires Searching(ws, command, u, related, cited, db0, clean0, clean) && db0.Keys <= db.Keys
    ensures t in related ==> Searching(ws, command, u, related, cited - {t}, db, clean0, clean)
    ensures t in cited && !ws.Loadable(t) ==> Searching(ws, command, u, related, cited - {t}, db, clean0, false)
  {
  }

  lemma OneKeyLess(u: set<Key>, keys: set<Key>, k: Key)
    ensures u - (keys + {k}) == u - keys - {k}
  {
  }

  lemma OneMoreKey(g: Graph, k: Key, deps: seq<Key>)
    ensures g[k := deps].Keys == g.Keys + {k}
  {
  }

  lemma SettledIsNeeded(ws: Workspace, command: set<Key>, u: set<Key>, related: Graph, db: Graph)
    requires ws.Valid() && Searching(ws, command, u, related, {}, db, true, true)
    ensures Closed(related)
    ensures forall k :: k in related <==> Needed(ws.Declared(), command, k)
  {
    var g := ws.Declared();
    forall x, d | x in related.Keys && x in g && d in g[x] ensures d in related.Keys {
      assert related[x] == ws.DepsOf(x) == g[x];
    }
    forall k | Needed(g, command, k) ensures k in related {
      NeededIsLeast(g, command, related.Keys, k);
    }
  }

  class BuildLoader {
    const workspace: Workspace
    var targetDatabase: Graph
    var processedDirs: map<string, bool>
    var errors: nat
    /** The directories whose BUILD file has been looked up, in order. */
    ghost var executed: seq<string>

    constructor (workspace: Workspace)
      requires workspace.Valid()
      ensures this.workspace == workspace && Valid()
      ensures targetDatabase == map[] && processedDirs == map[] && errors == 0 && executed == []
    {
      this.workspace := workspace;
      targetDatabase, processedDirs, errors, executed := map[], map[], 0, [];
    }

    /** No directory is executed twice, and a directory that failed has been reported. */
    ghost predicate Valid()
      reads this
    {
      && workspace.Valid()
      && NoDup(executed) && (forall d :: d in executed <==> d in processedDirs)
      && (forall d :: d in processedDirs ==> (processedDirs[d] <==> d in workspace.builds))
      && (forall d :: d in processedDirs && !processedDirs[d] ==> errors > 0)
      && DatabaseOf(workspace, targetDatabase, processedDirs.Keys)
    }

    /** Executes the BUILD file of a directory unless that has happened before. */
    method LoadBuildFile(dir: string) returns (ok: bool)
      requires Valid()
      modifies this
      ensures Valid() && processedDirs.Keys == old(processedDirs).Keys + {workspace.normpath(dir)}
      ensures ok <==> workspace.normpath(dir) in workspace.builds
      ensures errors == old(errors) || (!ok && errors == old(errors) + 1)
      ensures targetDatabase.Keys >= old(targetDatabase).Keys
    {
      var sourceDir := workspace.normpath(dir);
      if sourceDir in processedDirs {
        return processedDirs[sourceDir];
      }
      RegisterDirectory(workspace, targetDatabase, processedDirs.Keys, sourceDir);
      executed := executed + [sourceDir];
      if sourceDir in workspace.builds {
        var registered := workspace.builds[sourceDir];
        targetDatabase := targetDatabase + registered + SystemLibraries(registered);
        ok := true;
      } else {
        errors := errors + 1;
        ok := false;
      }
      processedDirs := processedDirs[sourceDir := ok];
      assert processedDirs.Keys == old(processedDirs).Keys + {sourceDir};
    }

    /** The directories that the command line names. The run stays clean exactly when all of
        them have BUILD files. */
    method LoadStartingBuildFiles(dirs: set<string>)
      requires Valid()
      modifies this
      ensures Valid() && processedDirs.Keys == old(processedDirs).Keys + set d | d in dirs :: workspace.normpath(d)
      ensures errors == 0 <==> old(errors) == 0 && forall d :: d in dirs ==> workspace.normpath(d) in workspace.builds
    {
      var todo := dirs;
      while todo != {}
        invariant Valid() && todo <= dirs
        invariant processedDirs.Keys == old(processedDirs).Keys + set d | d in dirs - todo :: workspace.normpath(d)
        invariant errors == 0 <==>
          old(errors) == 0 && forall d :: d in dirs - todo ==> workspace.normpath(d) in workspace.builds
      {
        var d :| d in todo;
        assert dirs - (todo - {d}) == dirs - todo + {d};
        todo := todo - {d};
        var ok := LoadBuildFile(d);
        assert workspace.normpath(d) in processedDirs;
      }
      assert dirs - todo == dirs;
    }

    /** One cited target: looked up, with its BUILD file loaded first if it has one. None is
        a target that was reported. */
    method Resolve(targetId: Key) returns (r: Result<Option<seq<Key>>, LoadError>)
      requires Valid()
      modifies this
      ensures Valid() && errors >= old(errors) && targetDatabase.Keys >= old(targetDatabase).Keys
      ensures r.Success? && r.value.Some? ==>
        && errors == old(errors) && workspace.Loadable(targetId)
        && r.value.value == workspace.DepsOf(targetId)
        && targetId in targetDatabase && targetDatabase[targetId] == workspace.DepsOf(targetId)
        && forall d :: d in targetDatabase[targetId] && d.path == "#" ==> d in targetDatabase
      ensures r == Failure(MissingSystemLibrary(targetId)) <==> targetId.path == "#" && targetId !in old(targetDatabase)
      ensures r == Failure(NobodyToBlame(targetId)) <==>
        targetId.path != "#" && workspace.skipped(targetId.path) && !Named(old(targetDatabase), targetId)
      ensures r.Failure? ==> r.error.k == targetId
      ensures r == Success(None) <==>
        targetId.path != "#" && !workspace.Loadable(targetId)
        && (workspace.skipped(targetId.path) ==> Named(old(targetDatabase), targetId))
      ensures r == Success(None) ==> errors > 0
    {
      if targetId.path == "#" {
        if targetId !in targetDatabase {
          return Failure(MissingSystemLibrary(targetId));
        }
        return Success(Some(targetDatabase[targetId]));
      }
      if workspace.skipped(targetId.path) {
        if !Named(targetDatabase, targetId) {
          return Failure(NobodyToBlame(targetId));
        }
        errors := errors + 1;
        return Success(None);
      }
      var ok := LoadBuildFile(targetId.path);
      if !ok {
        return Success(None);
      }
      if targetId !in targetDatabase {
        errors := errors + 1;
        return Success(None);
      }
      r := Success(Some(targetDatabase[targetId]));
    }

    method Cite(cited: set<Key>, deps: seq<Key>, related: Graph) returns (more: set<Key>)
      ensures more == cited + set d | d in deps && d !in related
    {
      more := cited;
      for i := 0 to |deps|
        invariant more == cited + set d | d in deps[..i] && d !in related
      {
        if deps[i] !in related {
          more := more + {deps[i]};
        }
      }
    }

    /** One cited target that is not settled yet: settled now, or reported. */
    method Pursue(targetId: Key, related: Graph, cited: set<Key>, ghost command: set<Key>, ghost u: set<Key>,
                  ghost clean0: bool)
      returns (next: Graph, nextCited: set<Key>, error: Option<LoadError>)
      requires Valid() && targetId in cited && targetId !in related && Universe(workspace, command, u)
      requires Searching(workspace, command, u, related, cited, targetDatabase, clean0, errors == 0)
      requires Traced(command, cited, targetDatabase)
      modifies this
      ensures Valid() && errors >= old(errors)
      ensures error.None? ==> Searching(workspace, command, u, next, nextCited, targetDatabase, clean0, errors == 0)
      ensures Traced(command, nextCited, targetDatabase)
      ensures if targetId in next then next.Keys == related.Keys + {targetId}
              else next == related && nextCited == cited - {targetId}
      ensures error.Some? ==>
        !workspace.Loadable(targetId) && error == Some(NobodyToBlame(targetId))
        && targetId in command && workspace.skipped(targetId.path)
    {
      next, nextCited, error := related, cited - {targetId}, None;
      var found := Resolve(targetId);
      DatabaseGrows(workspace, old(targetDatabase), targetDatabase, old(processedDirs).Keys, processedDirs.Keys);
      match found
      case Failure(e) =>
        error := Some(e);
      case Success(None) =>
        DropTarget(workspace, command, u, related, cited, old(targetDatabase), targetDatabase, clean0,
                   old(errors) == 0, targetId);
      case Success(Some(deps)) =>
        next := related[targetId := deps];
        OneMoreKey(related, targetId, deps);
        ghost var more := set d | d in deps && d !in next;
        SettleTarget(workspace, command, u, related, cited, old(targetDatabase), targetDatabase, clean0,
                     errors == 0, targetId, more);
        nextCited := Cite(nextCited, deps, next);
    }

    /** Follows `deps` from the command targets, loading BUILD files on the way. A run is free
        of errors exactly when every needed target can be loaded; its result is then closed. */
    method LoadRelatedBuildFiles(command: set<Key>) returns (r: Result<Graph, LoadError>)
      requires Valid()
      requires forall k :: k in command && k.path == "#" ==> k in targetDatabase
      modifies this
      ensures Valid() && errors >= old(errors)
      ensures (r.Success? && errors == 0) <==>
        (old(errors) == 0 && forall k :: Needed(workspace.Declared(), command, k) ==> workspace.Loadable(k))
      ensures r.Failure? ==>
        r.error.NobodyToBlame? && r.error.k in command && r.error.k.path != "#" && workspace.skipped(r.error.k.path)
      ensures r.Success? && errors == 0 ==>
        && Closed(r.value)
        && (forall k :: k in r.value <==> Needed(workspace.Declared(), command, k))
        && (forall k :: k in r.value ==> r.value[k] == workspace.DepsOf(k))
        && (forall k :: k in r.value && k.path == "#" ==> r.value[k] == [])
        && (forall k :: k in r.value && k.path != "#" ==>
              k.path in workspace.builds && k in workspace.builds[k.path] && r.value[k] == workspace.builds[k.path][k])
    {
      ghost var u := UniverseExists(workspace, command);
      ghost var clean0 := errors == 0;
      var related, error := Search(command, u, clean0);
      if error.Some? {
        return Failure(error.value);
      }
      if errors == 0 { SettledIsNeeded(workspace, command, u, related, targetDatabase); }
      r := Success(related);
    }

    /** The worklist, until nothing is cited any more or a lookup raises. */
    method Search(command: set<Key>, ghost u: set<Key>, ghost clean0: bool)
      returns (related: Graph, error: Option<LoadError>)
      requires Valid() && Universe(workspace, command, u) && (clean0 <==> errors == 0)
      requires forall k :: k in command && k.path == "#" ==> k in targetDatabase
      modifies this
      ensures Valid() && errors >= old(errors)
      ensures error.None? ==> Searching(workspace, command, u, related, {}, targetDatabase, clean0, errors == 0)
      ensures error.Some? ==>
        error.value.NobodyToBlame? && error.value.k in command && error.value.k.path != "#"
        && !workspace.Loadable(error.value.k) && workspace.skipped(error.value.k.path)
    {
      ghost var open := u;
      related, error := map[], None;
      var cited := command;
      while cited != {}
        invariant Valid() && errors >= old(errors) && error.None?
        invariant Searching(workspace, command, u, related, cited, targetDatabase, clean0, errors == 0)
        invariant Traced(command, cited, targetDatabase)
        invariant open == u - related.Keys
        decreases open, cited
      {
        var targetId :| targetId in cited;
        if targetId in related {
          DropTarget(workspace, command, u, related, cited, targetDatabase, targetDatabase, clean0, errors == 0,
                     targetId);
          cited := cited - {targetId};
          continue;
        }
        ghost var had := related.Keys;
        related, cited, error := Pursue(targetId, related, cited, command, u, clean0);
        if error.Some? {
          return;
        }
        if targetId in related {
          OneKeyLess(u, had, targetId);
          open := open - {targetId};
        }
      }
    }
  }
}
