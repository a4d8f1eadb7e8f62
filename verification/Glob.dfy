/** Globbing: chains of selectors over a finite directory tree without symbolic links. */
module Glob {
  import opened Prelude
  import PathLib
  import Strings

  type Path = seq<string>

  datatype Tree = File | Dir(entries: Entries)
  /** The entries of a directory in the order in which they are listed. */
  datatype Entries = Nil | Entry(name: string, node: Tree, rest: Entries)

  function ListNames(es: Entries): seq<string> {
    match es case Nil => [] case Entry(name, _, rest) => [name] + ListNames(rest)
  }

  function Lookup(es: Entries, name: string): Option<Tree> {
    match es
    case Nil => None
    case Entry(n, t, rest) => if n == name then Some(t) else Lookup(rest, name)
  }

  /** Entry names are proper names and differ within a directory. */
  predicate WellFormed(t: Tree) {
    t.Dir? ==> WellFormedEntries(t.entries)
  }

  predicate WellFormedEntries(es: Entries) {
    es.Entry? ==>
      PathLib.IsName(es.name) && es.name != ".." && es.name !in ListNames(es.rest)
      && WellFormed(es.node) && WellFormedEntries(es.rest)
  }

  // ---------------------------------------------------------------- resolving paths

  /** One step from a place, given as the chain of directories down to it. */
  function Descend(place: seq<Tree>, name: string): Option<seq<Tree>>
    requires place != []
  {
    match place[|place| - 1]
    case File => None
    case Dir(es) =>
      if name == ".." then Some(if |place| == 1 then place else place[..|place| - 1])
      else match Lookup(es, name) case None => None case Some(t) => Some(place + [t])
  }

  /** The place that a path names, starting at the root of the file system. */
  function Resolve(fs: Tree, path: Path): (place: Option<seq<Tree>>)
    ensures place.Some? ==> place.value != []
  {
    if path == [] then Some([fs])
    else
      match Resolve(fs, path[..|path| - 1])
      case None => None
      case Some(place) => Descend(place, path[|path| - 1])
  }

  predicate Exists(fs: Tree, path: Path) {
    Resolve(fs, path).Some?
  }

  function NodeAt(fs: Tree, path: Path): Tree
    requires Exists(fs, path)
  {
    var place := Resolve(fs, path).value;
    place[|place| - 1]
  }

  predicate IsDir(fs: Tree, path: Path) {
    Exists(fs, path) && NodeAt(fs, path).Dir?
  }

  function ListDir(fs: Tree, path: Path): seq<string>
    requires IsDir(fs, path)
  {
    ListNames(NodeAt(fs, path).entries)
  }

  lemma ResolveChild(fs: Tree, path: Path, name: string)
    ensures Exists(fs, path + [name]) ==> IsDir(fs, path)
    ensures IsDir(fs, path) && name != ".." ==>
      var found := Lookup(NodeAt(fs, path).entries, name);
      && (Exists(fs, path + [name]) <==> found.Some?)
      && (found.Some? ==> NodeAt(fs, path + [name]) == found.value)
  {
    assert (path + [name])[..|path|] == path;
  }

  lemma {:induction false} LookupListed(es: Entries, name: string)
    ensures Lookup(es, name).Some? <==> name in ListNames(es)
    decreases es
  {
    if es.Nil? {
    } else {
      LookupListed(es.rest, name);
    }
  }

  lemma {:induction false} WellFormedLookup(es: Entries, name: string)
    requires WellFormedEntries(es) && Lookup(es, name).Some?
    ensures WellFormed(Lookup(es, name).value) && PathLib.IsName(name) && name != ".."
    decreases es
  {
    if es.name != name { WellFormedLookup(es.rest, name); }
  }

  lemma {:induction false} ListedOnce(es: Entries)
    requires WellFormedEntries(es)
    ensures NoDup(ListNames(es)) && ".." !in ListNames(es)
    decreases es
  {
    if es.Nil? {
    } else {
      ListedOnce(es.rest);
    }
  }

  lemma {:induction false} ResolvedIsWellFormed(fs: Tree, path: Path)
    requires WellFormed(fs) && Exists(fs, path)
    ensures forall t :: t in Resolve(fs, path).value ==> WellFormed(t)
    decreases |path|
  {
    if path == [] {
    } else {
      var n := |path| - 1;
      ResolvedIsWellFormed(fs, path[..n]);
      var place := Resolve(fs, path[..n]).value;
      var last := place[|place| - 1];
      assert last in place;
      if path[n] != ".." { WellFormedLookup(last.entries, path[n]); }
    }
  }

  // ---------------------------------------------------------------- selectors

  datatype Selector =
    | Terminating
    | Precise(name: string, successor: Selector)
    | Wildcard(pat: string, successor: Selector)
    | Recursive(successor: Selector)

  predicate IsWildcardPattern(pat: string) {
    '*' in pat || '?' in pat || '[' in pat
  }

  datatype GlobError = AnchoredPattern | EmptyPattern | BadDoubleStar

  function MakeSelector(parts: seq<string>): Result<Selector, GlobError> {
    if parts == [] then Failure(EmptyPattern)
    else
      var pat := parts[0];
      if pat != "**" && Strings.Find(pat, "**").Some? then Failure(BadDoubleStar)
      else
        var successor := if |parts| == 1 then Success(Terminating) else MakeSelector(parts[1..]);
        match successor
        case Failure(e) => Failure(e)
        case Success(next) =>
          if pat == "**" then Success(Recursive(next))
          else if IsWildcardPattern(pat) then Success(Wildcard(pat, next))
          else Success(Precise(pat, next))
  }

  /** Each directory at or below a node, parents first. */
  function DirectoriesAt(node: Tree, path: Path): seq<Path> {
    match node case File => [] case Dir(es) => [path] + DirectoriesIn(es, path)
  }

  function DirectoriesIn(es: Entries, path: Path): seq<Path> {
    match es
    case Nil => []
    case Entry(name, node, rest) => DirectoriesAt(node, path + [name]) + DirectoriesIn(rest, path)
  }

  function KeepFirst(s: seq<Path>): seq<Path> {
    if s == [] then []
    else
      var before, last := KeepFirst(s[..|s| - 1]), s[|s| - 1];
      if last in before then before else before + [last]
  }

  /** The children whose names match, in listing order. */
  function Matching(fnmatch: (string, string) -> bool, pat: string, names: seq<string>, path: Path): seq<Path> {
    if names == [] then []
    else
      var before, last := Matching(fnmatch, pat, names[..|names| - 1], path), names[|names| - 1];
      if fnmatch(pat, last) then before + [path + [last]] else before
  }

  /** What a selector yields below a path, in order. */
  function Select(fnmatch: (string, string) -> bool, fs: Tree, sel: Selector, path: Path): seq<Path>
    decreases sel, 0
  {
    match sel
    case Terminating => [path]
    case Precise(name, next) =>
      if IsDir(fs, path) && Exists(fs, path + [name]) then Select(fnmatch, fs, next, path + [name]) else []
    case Wildcard(pat, next) =>
      if IsDir(fs, path) then SelectAll(fnmatch, fs, next, Matching(fnmatch, pat, ListDir(fs, path), path)) else []
    case Recursive(next) =>
      if IsDir(fs, path) then KeepFirst(SelectAll(fnmatch, fs, next, DirectoriesAt(NodeAt(fs, path), path))) else []
  }

  function SelectAll(fnmatch: (string, string) -> bool, fs: Tree, sel: Selector, paths: seq<Path>): seq<Path>
    decreases sel, 1, |paths|
  {
    if paths == [] then []
    else
      SelectAll(fnmatch, fs, sel, paths[..|paths| - 1]) + Select(fnmatch, fs, sel, paths[|paths| - 1])
  }

  // ---------------------------------------------------------------- the generators

  lemma LookupRest(es: Entries)
    requires es.Entry? && WellFormedEntries(es)
    ensures Lookup(es, es.name) == Some(es.node)
    ensures forall n :: Lookup(es.rest, n).Some? ==> Lookup(es, n) == Lookup(es.rest, n)
  {
    forall n | Lookup(es.rest, n).Some? ensures Lookup(es, n) == Lookup(es.rest, n) {
      LookupListed(es.rest, n);
    }
  }

  /** rest is what is left of a directory's entries, with the given names. */
  ghost predicate Unread(entries: Entries, rest: Entries, names: seq<string>) {
    && names == ListNames(rest) && (rest == entries || rest < entries) && WellFormedEntries(rest)
    && forall n :: Lookup(rest, n).Some? ==> Lookup(entries, n) == Lookup(rest, n)
  }

  lemma NextEntry(fs: Tree, path: Path, rest: Entries, names: seq<string>)
    requires IsDir(fs, path) && Unread(NodeAt(fs, path).entries, rest, names) && names != []
    ensures rest.Entry? && names[0] == rest.name && Unread(NodeAt(fs, path).entries, rest.rest, names[1..])
    ensures Exists(fs, path + [names[0]]) && NodeAt(fs, path + [names[0]]) == rest.node < NodeAt(fs, path)
  {
    LookupRest(rest);
    ResolveChild(fs, path, rest.name);
  }

  method IterateDirectories(fs: Tree, path: Path) returns (dirs: seq<Path>)
    requires WellFormed(fs) && IsDir(fs, path)
    ensures dirs == DirectoriesAt(NodeAt(fs, path), path)
    decreases NodeAt(fs, path)
  {
    dirs := [path];
    var names := ListDir(fs, path);
    ghost var rest := NodeAt(fs, path).entries;
    ResolvedIsWellFormed(fs, path);
    assert NodeAt(fs, path) in Resolve(fs, path).value;
    for i := 0 to |names|
      invariant Unread(NodeAt(fs, path).entries, rest, names[i..])
      invariant dirs + DirectoriesIn(rest, path) == DirectoriesAt(NodeAt(fs, path), path)
    {
      var child := path + [names[i]];
      NextEntry(fs, path, rest, names[i..]);
      assert names[i..][1..] == names[i + 1..];
      ghost var before := dirs;
      if IsDir(fs, child) {
        var below := IterateDirectories(fs, child);
        dirs := dirs + below;
      }
      assert dirs == before + DirectoriesAt(rest.node, child);
      ConcatAssociative(before, DirectoriesAt(rest.node, child), DirectoriesIn(rest.rest, path));
      rest := rest.rest;
    }
  }

  lemma MatchingOneMore(fnmatch: (string, string) -> bool, fs: Tree, pat: string, next: Selector,
                        names: seq<string>, path: Path, i: nat)
    requires i < |names|
    ensures SelectAll(fnmatch, fs, next, Matching(fnmatch, pat, names[..i + 1], path)) ==
      SelectAll(fnmatch, fs, next, Matching(fnmatch, pat, names[..i], path))
      + if fnmatch(pat, names[i]) then Select(fnmatch, fs, next, path + [names[i]]) else []
  {
    assert names[..i + 1][..i] == names[..i];
    var before := Matching(fnmatch, pat, names[..i], path);
    assert (before + [path + [names[i]]])[..|before|] == before;
  }

  method SelectFrom(fnmatch: (string, string) -> bool, fs: Tree, sel: Selector, path: Path) returns (yielded: seq<Path>)
    requires WellFormed(fs)
    ensures yielded == Select(fnmatch, fs, sel, path)
    decreases sel, 1
  {
    match sel
    case Terminating =>
      yielded := [path];
    case Precise(name, successor) =>
      if !IsDir(fs, path) {
        return [];
      }
      yielded := [];
      if Exists(fs, path + [name]) {
        yielded := SelectFrom(fnmatch, fs, successor, path + [name]);
      }
    case Wildcard(pat, successor) =>
      if !IsDir(fs, path) {
        return [];
      }
      yielded := SelectMatching(fnmatch, fs, sel, path, ListDir(fs, path));
    case Recursive(successor) =>
      if !IsDir(fs, path) {
        return [];
      }
      var dirs := IterateDirectories(fs, path);
      yielded := SelectBelow(fnmatch, fs, sel, dirs);
  }

  method SelectMatching(fnmatch: (string, string) -> bool, fs: Tree, sel: Selector, path: Path, names: seq<string>)
    returns (yielded: seq<Path>)
    requires WellFormed(fs) && sel.Wildcard?
    ensures yielded == SelectAll(fnmatch, fs, sel.successor, Matching(fnmatch, sel.pat, names, path))
    decreases sel, 0
  {
    yielded := [];
    for i := 0 to |names|
      invariant yielded == SelectAll(fnmatch, fs, sel.successor, Matching(fnmatch, sel.pat, names[..i], path))
    {
      MatchingOneMore(fnmatch, fs, sel.pat, sel.successor, names, path, i);
      if fnmatch(sel.pat, names[i]) {
        var found := SelectFrom(fnmatch, fs, sel.successor, path + [names[i]]);
        yielded := yielded + found;
      }
    }
    assert names[..|names|] == names;
  }

  method SelectBelow(fnmatch: (string, string) -> bool, fs: Tree, sel: Selector, dirs: seq<Path>)
    returns (yielded: seq<Path>)
    requires WellFormed(fs) && sel.Recursive?
    ensures yielded == KeepFirst(SelectAll(fnmatch, fs, sel.successor, dirs))
    decreases sel, 0
  {
    yielded := [];
    for i := 0 to |dirs|
      invariant yielded == KeepFirst(SelectAll(fnmatch, fs, sel.successor, dirs[..i]))
    {
      var found := SelectFrom(fnmatch, fs, sel.successor, dirs[i]);
      assert dirs[..i + 1][..i] == dirs[..i];
      yielded := YieldNew(SelectAll(fnmatch, fs, sel.successor, dirs[..i]), yielded, found);
    }
    assert dirs[..|dirs|] == dirs;
  }

  /** Yields what has not been yielded before. */
  method YieldNew(ghost before: seq<Path>, yielded0: seq<Path>, found: seq<Path>) returns (yielded: seq<Path>)
    requires yielded0 == KeepFirst(before)
    ensures yielded == KeepFirst(before + found)
  {
    yielded := yielded0;
    assert before + found[..0] == before;
    for j := 0 to |found|
      invariant yielded == KeepFirst(before + found[..j])
    {
      assert (before + found[..j + 1])[..|before| + j] == before + found[..j];
      if found[j] !in yielded {
        yielded := yielded + [found[j]];
      }
    }
    assert found[..|found|] == found;
  }

  /** The selector chain of a pattern, which is parsed as a path. */
  function SelectorOf(pattern: string): Result<Selector, GlobError> {
    var parsed := PathLib.ParseParts([pattern]);
    if parsed.root != "" then Failure(AnchoredPattern) else MakeSelector(parsed.parts)
  }

  method GlobFrom(fnmatch: (string, string) -> bool, fs: Tree, path: Path, pattern: string)
    returns (r: Result<seq<Path>, GlobError>)
    requires WellFormed(fs)
    ensures SelectorOf(pattern).Failure? ==> r.Failure? && r.error == SelectorOf(pattern).error
    ensures SelectorOf(pattern).Success? ==>
      r.Success? && r.value == Select(fnmatch, fs, SelectorOf(pattern).value, path)
  {
    var parsed := PathLib.ParsePartsBackwards([pattern]);
    if parsed.root != "" {
      return Failure(AnchoredPattern);
    }
    var sel := MakeSelector(parsed.parts);
    if sel.Failure? {
      return Failure(sel.error);
    }
    var found := SelectFrom(fnmatch, fs, sel.value, path);
    r := Success(found);
  }

  // ---------------------------------------------------------------- what a pattern means

  /** The components that a pattern matches: a name itself, a wildcard any matching entry name,
      and a double star any number of entry names. */
  ghost predicate Matches(fnmatch: (string, string) -> bool, sel: Selector, rel: Path)
    decreases sel
  {
    match sel
    case Terminating => rel == []
    case Precise(name, next) => rel != [] && rel[0] == name && Matches(fnmatch, next, rel[1..])
    case Wildcard(pat, next) =>
      rel != [] && rel[0] != ".." && fnmatch(pat, rel[0]) && Matches(fnmatch, next, rel[1..])
    case Recursive(next) =>
      exists k :: 0 <= k <= |rel| && ".." !in rel[..k] && Matches(fnmatch, next, rel[k..])
  }

  /** The pattern ends in a double star, which matches directories only. */
  predicate EndsDeep(sel: Selector) {
    match sel
    case Terminating => false
    case Precise(_, next) => EndsDeep(next)
    case Wildcard(_, next) => EndsDeep(next)
    case Recursive(next) => next.Terminating? || EndsDeep(next)
  }

  /** rel leads from path to something that exists, and to a directory if the pattern says so. */
  ghost predicate Hit(fs: Tree, sel: Selector, path: Path, rel: Path) {
    Exists(fs, path + rel) && (EndsDeep(sel) ==> IsDir(fs, path + rel))
  }

  ghost predicate Denotes(fnmatch: (string, string) -> bool, fs: Tree, sel: Selector, path: Path, rel: Path) {
    Matches(fnmatch, sel, rel) && Hit(fs, sel, path, rel)
  }

  lemma {:induction false} PrefixIsDir(fs: Tree, path: Path, rel: Path, k: nat)
    requires k < |rel| && Exists(fs, path + rel)
    ensures IsDir(fs, path + rel[..k])
    decreases |rel|
  {
    var n := |rel| - 1;
    assert path + rel == (path + rel[..n]) + [rel[n]];
    ResolveChild(fs, path + rel[..n], rel[n]);
    if k < n {
      PrefixIsDir(fs, path, rel[..n], k);
      assert rel[..n][..k] == rel[..k];
    }
  }

  lemma {:induction false} SelectedFrom(fnmatch: (string, string) -> bool, fs: Tree, sel: Selector,
                                        paths: seq<Path>, p: Path)
    returns (d: Path)
    requires p in SelectAll(fnmatch, fs, sel, paths)
    ensures d in paths && p in Select(fnmatch, fs, sel, d)
    decreases |paths|
  {
    var n := |paths| - 1;
    if p in SelectAll(fnmatch, fs, sel, paths[..n]) {
      d := SelectedFrom(fnmatch, fs, sel, paths[..n], p);
    } else {
      d := paths[n];
    }
  }

  lemma {:induction false} SelectedThrough(fnmatch: (string, string) -> bool, fs: Tree, sel: Selector,
                                           paths: seq<Path>, d: Path, p: Path)
    requires d in paths && p in Select(fnmatch, fs, sel, d)
    ensures p in SelectAll(fnmatch, fs, sel, paths)
    decreases |paths|
  {
    var n := |paths| - 1;
    if d != paths[n] {
      assert d in paths[..n];
      SelectedThrough(fnmatch, fs, sel, paths[..n], d, p);
    }
  }

  lemma {:induction false} MatchedName(fnmatch: (string, string) -> bool, pat: string, names: seq<string>,
                                       path: Path, d: Path)
    returns (name: string)
    requires d in Matching(fnmatch, pat, names, path)
    ensures name in names && fnmatch(pat, name) && d == path + [name]
    decreases |names|
  {
    var n := |names| - 1;
    if d in Matching(fnmatch, pat, names[..n], path) {
      name := MatchedName(fnmatch, pat, names[..n], path, d);
    } else {
      name := names[n];
    }
  }

  lemma {:induction false} NameMatches(fnmatch: (string, string) -> bool, pat: string, names: seq<string>,
                                       path: Path, name: string)
    requires name in names && fnmatch(pat, name)
    ensures path + [name] in Matching(fnmatch, pat, names, path)
    decreases |names|
  {
    var n := |names| - 1;
    if name != names[n] {
      assert name in names[..n];
      NameMatches(fnmatch, pat, names[..n], path, name);
    }
  }

  lemma {:induction false} KeepFirstIsSetOf(s: seq<Path>)
    ensures NoDup(KeepFirst(s)) && forall p :: p in KeepFirst(s) <==> p in s
    decreases |s|
  {
    if s == [] {
    } else {
      KeepFirstIsSetOf(s[..|s| - 1]);
      assert s == s[..|s| - 1] + [s[|s| - 1]];
    }
  }

  /** What is kept stands in the order of first occurrences. */
  lemma {:induction false} KeepFirstOrder(s: seq<Path>, i: nat, j: nat) returns (a: nat, b: nat)
    requires i < j < |KeepFirst(s)|
    ensures a < b < |s| && s[a] == KeepFirst(s)[i] && s[b] == KeepFirst(s)[j]
    ensures s[a] !in s[..a] && s[b] !in s[..b]
    decreases |s|
  {
    var init := s[..|s| - 1];
    KeepFirstIsSetOf(init);
    if j < |KeepFirst(init)| {
      a, b := KeepFirstOrder(init, i, j);
      assert s[..a] == init[..a] && s[..b] == init[..b];
    } else {
      b := |s| - 1;
      a := FirstPlace(init, KeepFirst(init)[i]);
      assert s[..a] == init[..a];
    }
  }

  lemma {:induction false} FirstPlace(s: seq<Path>, p: Path) returns (a: nat)
    requires p in s
    ensures a < |s| && s[a] == p && p !in s[..a]
    decreases |s|
  {
    if p in s[..|s| - 1] {
      a := FirstPlace(s[..|s| - 1], p);
      assert s[..a] == s[..|s| - 1][..a];
    } else {
      a := |s| - 1;
    }
  }

  lemma {:induction false} DirectoryUnderEntry(es: Entries, path: Path, d: Path) returns (name: string)
    requires WellFormedEntries(es) && d in DirectoriesIn(es, path)
    ensures Lookup(es, name).Some? && d in DirectoriesAt(Lookup(es, name).value, path + [name])
    ensures Lookup(es, name).value < es
    decreases es
  {
    if d in DirectoriesAt(es.node, path + [es.name]) {
      name := es.name;
    } else {
      name := DirectoryUnderEntry(es.rest, path, d);
      LookupListed(es.rest, name);
    }
  }

  /** Directories are reached by entry names only. */
  lemma {:induction false} DirectoriesSound(fs: Tree, path: Path, d: Path) returns (rel: Path)
    requires WellFormed(fs) && IsDir(fs, path) && d in DirectoriesAt(NodeAt(fs, path), path)
    ensures d == path + rel && ".." !in rel && IsDir(fs, d)
    decreases NodeAt(fs, path)
  {
    if d == path {
      rel := [];
    } else {
      ResolvedIsWellFormed(fs, path);
      assert NodeAt(fs, path) in Resolve(fs, path).value;
      var name := DirectoryUnderEntry(NodeAt(fs, path).entries, path, d);
      WellFormedLookup(NodeAt(fs, path).entries, name);
      ResolveChild(fs, path, name);
      var below := DirectoriesSound(fs, path + [name], d);
      rel := [name] + below;
    }
  }

  lemma {:induction false} DirectoryListed(es: Entries, name: string, node: Tree, path: Path, d: Path)
    requires Lookup(es, name) == Some(node) && d in DirectoriesAt(node, path + [name])
    ensures d in DirectoriesIn(es, path)
    decreases es
  {
    if es.name != name { DirectoryListed(es.rest, name, node, path, d); }
  }

  lemma {:induction false} DirectoriesComplete(fs: Tree, path: Path, rel: Path)
    requires IsDir(fs, path + rel) && ".." !in rel
    ensures IsDir(fs, path) && path + rel in DirectoriesAt(NodeAt(fs, path), path)
    decreases |rel|
  {
    if rel == [] {
      assert path + rel == path;
    } else {
      var child := path + [rel[0]];
      assert path + rel == child + rel[1..];
      DirectoriesComplete(fs, child, rel[1..]);
      assert rel[0] in rel;
      ResolveChild(fs, path, rel[0]);
      DirectoryListed(NodeAt(fs, path).entries, rel[0], NodeAt(fs, child), path, path + rel);
    }
  }

  lemma {:induction false} DirectoriesAreBelow(node: Tree, path: Path, d: Path)
    requires d in DirectoriesAt(node, path)
    ensures path <= d
    decreases node, 1
  {
    if d != path { EntryDirectoriesAreBelow(node.entries, path, d); }
  }

  lemma {:induction false} EntryDirectoriesAreBelow(es: Entries, path: Path, d: Path)
    requires d in DirectoriesIn(es, path)
    ensures path < d && d[|path|] in ListNames(es)
    decreases es, 0
  {
    if d in DirectoriesAt(es.node, path + [es.name]) {
      DirectoriesAreBelow(es.node, path + [es.name], d);
    } else {
      EntryDirectoriesAreBelow(es.rest, path, d);
    }
  }

  /** No directory is listed after one below it, and none twice. */
  ghost predicate ParentsFirst(dirs: seq<Path>) {
    forall i, j :: 0 <= i < j < |dirs| ==> !(dirs[j] <= dirs[i])
  }

  lemma ParentsFirstConcat(a: seq<Path>, b: seq<Path>)
    requires ParentsFirst(a) && ParentsFirst(b) && forall x, y :: x in a && y in b ==> !(y <= x)
    ensures ParentsFirst(a + b)
  {
    forall i, j | 0 <= i < j < |a + b| ensures !((a + b)[j] <= (a + b)[i]) {
      if i < |a| <= j { assert a[i] in a && b[j - |a|] in b; }
    }
  }

  /** The walk comes to a directory before it comes to those below, and to each once. */
  lemma {:induction false} DirectoriesComeParentsFirst(node: Tree, path: Path)
    requires WellFormed(node)
    ensures ParentsFirst(DirectoriesAt(node, path))
    decreases node, 1
  {
    if node.Dir? {
      EntryDirectoriesComeParentsFirst(node.entries, path);
      var below := DirectoriesIn(node.entries, path);
      forall x, y | x in [path] && y in below ensures !(y <= x) { EntryDirectoriesAreBelow(node.entries, path, y); }
      ParentsFirstConcat([path], below);
    }
  }

  lemma {:induction false} EntryDirectoriesComeParentsFirst(es: Entries, path: Path)
    requires WellFormedEntries(es)
    ensures ParentsFirst(DirectoriesIn(es, path))
    decreases es, 0
  {
    if es.Nil? {
    } else {
      DirectoriesComeParentsFirst(es.node, path + [es.name]);
      EntryDirectoriesComeParentsFirst(es.rest, path);
      var here, more := DirectoriesAt(es.node, path + [es.name]), DirectoriesIn(es.rest, path);
      forall x, y | x in here && y in more ensures !(y <= x) {
        DirectoriesAreBelow(es.node, path + [es.name], x);
        EntryDirectoriesAreBelow(es.rest, path, y);
        assert x[|path|] == (path + [es.name])[|path|];
      }
      ParentsFirstConcat(here, more);
    }
  }

  lemma {:induction false} EmptyMatchIsDeep(fnmatch: (string, string) -> bool, sel: Selector)
    requires Matches(fnmatch, sel, [])
    ensures sel.Terminating? || EndsDeep(sel)
    decreases sel
  {
    if sel.Recursive? {
      var none: Path := [];
      var k :| 0 <= k <= |none| && ".." !in none[..k] && Matches(fnmatch, sel.successor, none[k..]);
      EmptyMatchIsDeep(fnmatch, sel.successor);
    }
  }

  lemma DenotesStep(fnmatch: (string, string) -> bool, fs: Tree, sel: Selector, path: Path, name: string, below: Path)
    requires sel.Precise? || sel.Wildcard?
    requires if sel.Precise? then name == sel.name else name != ".." && fnmatch(sel.pat, name)
    requires Denotes(fnmatch, fs, sel.successor, path + [name], below)
    ensures Denotes(fnmatch, fs, sel, path, [name] + below)
  {
    var rel := [name] + below;
    assert path + rel == path + [name] + below && rel[1..] == below;
  }

  lemma DenotesDeep(fnmatch: (string, string) -> bool, fs: Tree, sel: Selector, path: Path, above: Path, below: Path)
    requires sel.Recursive? && ".." !in above && IsDir(fs, path + above)
    requires Denotes(fnmatch, fs, sel.successor, path + above, below)
    ensures Denotes(fnmatch, fs, sel, path, above + below)
  {
    var rel := above + below;
    assert path + rel == path + above + below && rel[..|above|] == above && rel[|above|..] == below;
    if sel.successor.Terminating? { assert path + above + below == path + above; }
  }

  lemma {:induction false} SelectSound(fnmatch: (string, string) -> bool, fs: Tree, sel: Selector, path: Path, p: Path)
    returns (rel: Path)
    requires WellFormed(fs) && Exists(fs, path) && p in Select(fnmatch, fs, sel, path)
    ensures p == path + rel && Denotes(fnmatch, fs, sel, path, rel)
    decreases sel, 1
  {
    match sel
    case Terminating =>
      rel := [];
      assert path + rel == path;
    case Precise(name, _) =>
      rel := NextSelectSound(fnmatch, fs, sel, path, name, p);
    case Wildcard(_, _) =>
      var name := WildcardChild(fnmatch, fs, sel, path, p);
      rel := NextSelectSound(fnmatch, fs, sel, path, name, p);
    case Recursive(_) =>
      rel := DeepSelectSound(fnmatch, fs, sel, path, p);
  }

  lemma {:induction false} NextSelectSound(fnmatch: (string, string) -> bool, fs: Tree, sel: Selector,
                                           path: Path, name: string, p: Path)
    returns (rel: Path)
    requires WellFormed(fs) && (sel.Precise? || sel.Wildcard?)
    requires if sel.Precise? then name == sel.name else name != ".." && fnmatch(sel.pat, name)
    requires Exists(fs, path + [name]) && p in Select(fnmatch, fs, sel.successor, path + [name])
    ensures p == path + rel && Denotes(fnmatch, fs, sel, path, rel)
    decreases sel, 0
  {
    var below := SelectSound(fnmatch, fs, sel.successor, path + [name], p);
    rel := [name] + below;
    ConcatAssociative(path, [name], below);
    DenotesStep(fnmatch, fs, sel, path, name, below);
  }

  lemma {:induction false} DeepSelectSound(fnmatch: (string, string) -> bool, fs: Tree, sel: Selector,
                                           path: Path, p: Path)
    returns (rel: Path)
    requires WellFormed(fs) && Exists(fs, path) && sel.Recursive? && p in Select(fnmatch, fs, sel, path)
    ensures p == path + rel && Denotes(fnmatch, fs, sel, path, rel)
    decreases sel, 0
  {
    var d := StartingPoint(fnmatch, fs, sel, path, p);
    var above := DirectoriesSound(fs, path, d);
    var below := SelectSound(fnmatch, fs, sel.successor, d, p);
    rel := above + below;
    ConcatAssociative(path, above, below);
    DenotesDeep(fnmatch, fs, sel, path, above, below);
  }

  lemma WildcardChild(fnmatch: (string, string) -> bool, fs: Tree, sel: Selector, path: Path, p: Path)
    returns (name: string)
    requires WellFormed(fs) && sel.Wildcard? && p in Select(fnmatch, fs, sel, path)
    ensures fnmatch(sel.pat, name) && name != ".." && Exists(fs, path + [name])
    ensures p in Select(fnmatch, fs, sel.successor, path + [name])
  {
    var names := ListDir(fs, path);
    var d := SelectedFrom(fnmatch, fs, sel.successor, Matching(fnmatch, sel.pat, names, path), p);
    name := MatchedName(fnmatch, sel.pat, names, path, d);
    ListedExists(fs, path, name);
  }

  lemma StartingPoint(fnmatch: (string, string) -> bool, fs: Tree, sel: Selector, path: Path, p: Path) returns (d: Path)
    requires sel.Recursive? && p in Select(fnmatch, fs, sel, path)
    ensures IsDir(fs, path) && d in DirectoriesAt(NodeAt(fs, path), path) && p in Select(fnmatch, fs, sel.successor, d)
  {
    var dirs := DirectoriesAt(NodeAt(fs, path), path);
    KeepFirstIsSetOf(SelectAll(fnmatch, fs, sel.successor, dirs));
    d := SelectedFrom(fnmatch, fs, sel.successor, dirs, p);
  }

  /** A listed name exists and is a proper entry. */
  lemma ListedExists(fs: Tree, path: Path, name: string)
    requires WellFormed(fs) && IsDir(fs, path) && name in ListDir(fs, path)
    ensures Exists(fs, path + [name]) && name != ".."
  {
    ResolvedIsWellFormed(fs, path);
    assert NodeAt(fs, path) in Resolve(fs, path).value;
    LookupListed(NodeAt(fs, path).entries, name);
    ListedOnce(NodeAt(fs, path).entries);
    ResolveChild(fs, path, name);
  }

  lemma {:induction false} SelectComplete(fnmatch: (string, string) -> bool, fs: Tree, sel: Selector,
                                          path: Path, rel: Path)
    requires WellFormed(fs) && Denotes(fnmatch, fs, sel, path, rel)
    ensures path + rel in Select(fnmatch, fs, sel, path)
    decreases sel
  {
    match sel
    case Terminating =>
      assert path + [] == path;
    case Precise(name, next) =>
      FirstStep(fs, path, rel);
      SelectComplete(fnmatch, fs, next, path + [name], rel[1..]);
    case Wildcard(pat, next) =>
      FirstStep(fs, path, rel);
      SelectComplete(fnmatch, fs, next, path + [rel[0]], rel[1..]);
      ResolveChild(fs, path, rel[0]);
      LookupListed(NodeAt(fs, path).entries, rel[0]);
      ChildYields(fnmatch, fs, sel, path, rel[0], path + rel);
    case Recursive(next) =>
      var k :| 0 <= k <= |rel| && ".." !in rel[..k] && Matches(fnmatch, next, rel[k..]);
      var d := path + rel[..k];
      assert d + rel[k..] == path + rel;
      if k < |rel| {
        PrefixIsDir(fs, path, rel, k);
      } else {
        assert rel[k..] == [] && rel[..k] == rel;
        EmptyMatchIsDeep(fnmatch, next);
      }
      SelectComplete(fnmatch, fs, next, d, rel[k..]);
      DirectoriesComplete(fs, path, rel[..k]);
      DirectoryYields(fnmatch, fs, sel, path, d, path + rel);
  }

  lemma ChildYields(fnmatch: (string, string) -> bool, fs: Tree, sel: Selector, path: Path, name: string, p: Path)
    requires sel.Wildcard? && IsDir(fs, path) && name in ListDir(fs, path) && fnmatch(sel.pat, name)
    requires p in Select(fnmatch, fs, sel.successor, path + [name])
    ensures p in Select(fnmatch, fs, sel, path)
  {
    var names := ListDir(fs, path);
    NameMatches(fnmatch, sel.pat, names, path, name);
    SelectedThrough(fnmatch, fs, sel.successor, Matching(fnmatch, sel.pat, names, path), path + [name], p);
  }

  lemma DirectoryYields(fnmatch: (string, string) -> bool, fs: Tree, sel: Selector, path: Path, d: Path, p: Path)
    requires sel.Recursive? && IsDir(fs, path) && d in DirectoriesAt(NodeAt(fs, path), path)
    requires p in Select(fnmatch, fs, sel.successor, d)
    ensures p in Select(fnmatch, fs, sel, path)
  {
    var dirs := DirectoriesAt(NodeAt(fs, path), path);
    SelectedThrough(fnmatch, fs, sel.successor, dirs, d, p);
    KeepFirstIsSetOf(SelectAll(fnmatch, fs, sel.successor, dirs));
  }

  lemma FirstStep(fs: Tree, path: Path, rel: Path)
    requires rel != [] && Exists(fs, path + rel)
    ensures IsDir(fs, path) && Exists(fs, path + [rel[0]])
    ensures path + rel == path + [rel[0]] + rel[1..]
  {
    PrefixIsDir(fs, path, rel, 0);
    assert path + rel[..0] == path;
    assert path + rel == path + [rel[0]] + rel[1..];
    if |rel| > 1 {
      PrefixIsDir(fs, path, rel, 1);
      assert rel[..1] == [rel[0]];
    } else {
      assert rel == [rel[0]];
    }
  }

  /** A selector yields exactly the existing paths whose components match its pattern. */
  lemma SelectYieldsTheMatches(fnmatch: (string, string) -> bool, fs: Tree, sel: Selector, path: Path, p: Path)
    requires WellFormed(fs) && Exists(fs, path)
    ensures p in Select(fnmatch, fs, sel, path) <==>
      exists rel :: p == path + rel && Denotes(fnmatch, fs, sel, path, rel)
  {
    if p in Select(fnmatch, fs, sel, path) {
      var rel := SelectSound(fnmatch, fs, sel, path, p);
    }
    if rel :| p == path + rel && Denotes(fnmatch, fs, sel, path, rel) {
      SelectComplete(fnmatch, fs, sel, path, rel);
    }
  }

  // ---------------------------------------------------------------- each match once

  lemma NoDupConcat<T>(s: seq<T>, t: seq<T>)
    requires NoDup(s) && NoDup(t) && forall x :: x in s ==> x !in t
    ensures NoDup(s + t)
  {
    forall i, j | 0 <= i < j < |s + t| ensures (s + t)[i] != (s + t)[j] {
      if i < |s| <= j { assert s[i] in s && t[j - |s|] in t; }
    }
  }

  lemma {:induction false} MatchingAreChildren(fnmatch: (string, string) -> bool, pat: string,
                                               names: seq<string>, path: Path)
    requires NoDup(names)
    ensures var ds := Matching(fnmatch, pat, names, path);
      NoDup(ds) && forall d :: d in ds ==> |d| == |path| + 1 && d[|path|] in names
    decreases |names|
  {
    if names == [] {
    } else {
      var n := |names| - 1;
      MatchingAreChildren(fnmatch, pat, names[..n], path);
      NoDupConcat(Matching(fnmatch, pat, names[..n], path), [path + [names[n]]]);
    }
  }

  lemma {:induction false} SiblingsYieldOnce(fnmatch: (string, string) -> bool, fs: Tree, sel: Selector,
                                             paths: seq<Path>, len: nat)
    requires WellFormed(fs) && NoDup(paths)
    requires forall d :: d in paths ==> |d| == len && Exists(fs, d)
    ensures NoDup(SelectAll(fnmatch, fs, sel, paths))
    decreases sel, 1, |paths|
  {
    if paths == [] {
    } else {
      var n := |paths| - 1;
      var last := paths[n];
      assert last in paths;
      NoDupInit(paths);
      SiblingsYieldOnce(fnmatch, fs, sel, paths[..n], len);
      SelectYieldsOnce(fnmatch, fs, sel, last);
      LastIsApart(fnmatch, fs, sel, paths[..n], last);
      NoDupConcat(SelectAll(fnmatch, fs, sel, paths[..n]), Select(fnmatch, fs, sel, last));
    }
  }

  lemma LastIsApart(fnmatch: (string, string) -> bool, fs: Tree, sel: Selector, paths: seq<Path>, last: Path)
    requires WellFormed(fs) && Exists(fs, last)
    requires forall d :: d in paths ==> |d| == |last| && d != last && Exists(fs, d)
    ensures forall p :: p in SelectAll(fnmatch, fs, sel, paths) ==> p !in Select(fnmatch, fs, sel, last)
  {
    forall p | p in SelectAll(fnmatch, fs, sel, paths) ensures p !in Select(fnmatch, fs, sel, last) {
      var d := SelectedFrom(fnmatch, fs, sel, paths, p);
      SiblingsAreApart(fnmatch, fs, sel, d, last, p);
    }
  }

  lemma SiblingsAreApart(fnmatch: (string, string) -> bool, fs: Tree, sel: Selector, d: Path, e: Path, p: Path)
    requires WellFormed(fs) && Exists(fs, d) && Exists(fs, e) && |d| == |e| && d != e
    requires p in Select(fnmatch, fs, sel, d)
    ensures p !in Select(fnmatch, fs, sel, e)
  {
    var rel := SelectSound(fnmatch, fs, sel, d, p);
    assert p[..|d|] == d;
    if p in Select(fnmatch, fs, sel, e) {
      var rel' := SelectSound(fnmatch, fs, sel, e, p);
    }
  }

  /** No path is yielded twice. */
  lemma {:induction false} SelectYieldsOnce(fnmatch: (string, string) -> bool, fs: Tree, sel: Selector, path: Path)
    requires WellFormed(fs) && Exists(fs, path)
    ensures NoDup(Select(fnmatch, fs, sel, path))
    decreases sel, 0, 0
  {
    match sel
    case Terminating =>
    case Precise(name, next) =>
      if Exists(fs, path + [name]) { SelectYieldsOnce(fnmatch, fs, next, path + [name]); }
    case Wildcard(pat, next) =>
      if IsDir(fs, path) {
        var names := ListDir(fs, path);
        ResolvedIsWellFormed(fs, path);
        assert NodeAt(fs, path) in Resolve(fs, path).value;
        ListedOnce(NodeAt(fs, path).entries);
        MatchingAreChildren(fnmatch, pat, names, path);
        var ds := Matching(fnmatch, pat, names, path);
        forall d | d in ds ensures Exists(fs, d) {
          var name := MatchedName(fnmatch, pat, names, path, d);
          ListedExists(fs, path, name);
        }
        SiblingsYieldOnce(fnmatch, fs, next, ds, |path| + 1);
      }
    case Recursive(next) =>
      if IsDir(fs, path) {
        KeepFirstIsSetOf(SelectAll(fnmatch, fs, next, DirectoriesAt(NodeAt(fs, path), path)));
      }
  }

  // ---------------------------------------------------------------- the pattern as it is written

  predicate PartMatches(fnmatch: (string, string) -> bool, pat: string, name: string) {
    if IsWildcardPattern(pat) then name != ".." && fnmatch(pat, name) else name == pat
  }

  ghost predicate PatternMatches(fnmatch: (string, string) -> bool, parts: seq<string>, rel: Path)
    decreases |parts|
  {
    if parts == [] then rel == []
    else if parts[0] == "**" then
      exists k :: 0 <= k <= |rel| && ".." !in rel[..k] && PatternMatches(fnmatch, parts[1..], rel[k..])
    else rel != [] && PartMatches(fnmatch, parts[0], rel[0]) && PatternMatches(fnmatch, parts[1..], rel[1..])
  }

  /** The selector chain built from a pattern matches what the pattern's components match. */
  lemma {:induction false} SelectorMatchesPattern(fnmatch: (string, string) -> bool, parts: seq<string>, rel: Path)
    requires MakeSelector(parts).Success?
    ensures Matches(fnmatch, MakeSelector(parts).value, rel) <==> PatternMatches(fnmatch, parts, rel)
    ensures EndsDeep(MakeSelector(parts).value) <==> parts[|parts| - 1] == "**"
    decreases |parts|
  {
    var sel := MakeSelector(parts).value;
    if |parts| == 1 {
      assert parts[1..] == [];
    } else {
      forall k | 0 <= k <= |rel|
        ensures Matches(fnmatch, sel.successor, rel[k..]) <==> PatternMatches(fnmatch, parts[1..], rel[k..])
      {
        SelectorMatchesPattern(fnmatch, parts[1..], rel[k..]);
      }
      SelectorMatchesPattern(fnmatch, parts[1..], []);
    }
  }

  lemma StartExists(fs: Tree, path: Path, rel: Path)
    requires Exists(fs, path + rel)
    ensures Exists(fs, path)
  {
    if rel == [] {
      assert path + rel == path;
    } else {
      PrefixIsDir(fs, path, rel, 0);
      assert path + rel[..0] == path;
    }
  }

  /** A component with a wildcard character matches the entry names that `fnmatch` accepts; any
      other component matches itself. */
  lemma WildcardOf(fnmatch: (string, string) -> bool, pat: string, name: string)
    ensures (exists i :: 0 <= i < |pat| && (pat[i] == '*' || pat[i] == '?' || pat[i] == '[')) ==>
      (PartMatches(fnmatch, pat, name) <==> name != ".." && fnmatch(pat, name))
    ensures (forall i :: 0 <= i < |pat| ==> pat[i] != '*' && pat[i] != '?' && pat[i] != '[') ==>
      (PartMatches(fnmatch, pat, name) <==> name == pat)
  {
  }

  /** A pattern without a double star is matched component by component. */
  lemma {:induction false} MatchedByComponents(fnmatch: (string, string) -> bool, parts: seq<string>, rel: Path)
    requires "**" !in parts
    ensures PatternMatches(fnmatch, parts, rel) <==>
      |rel| == |parts| && forall i :: 0 <= i < |parts| ==> PartMatches(fnmatch, parts[i], rel[i])
    decreases |parts|
  {
    if parts == [] {
    } else if rel != [] {
      assert parts[0] in parts;
      MatchedByComponents(fnmatch, parts[1..], rel[1..]);
      assert forall i :: 0 < i < |parts| ==> parts[1..][i - 1] == parts[i];
      assert forall i :: 0 < i < |rel| ==> rel[1..][i - 1] == rel[i];
    }
  }

  /** A double star stands for any number of entry names, none included. */
  lemma DoubleStarMatches(fnmatch: (string, string) -> bool, parts: seq<string>, rel: Path)
    ensures PatternMatches(fnmatch, ["**"] + parts, rel) <==>
      exists above, below :: rel == above + below && ".." !in above && PatternMatches(fnmatch, parts, below)
  {
    assert (["**"] + parts)[1..] == parts;
    if k :| 0 <= k <= |rel| && ".." !in rel[..k] && PatternMatches(fnmatch, parts, rel[k..]) {
      assert rel == rel[..k] + rel[k..];
    }
    if above, below :| rel == above + below && ".." !in above && PatternMatches(fnmatch, parts, below) {
      assert rel[..|above|] == above && rel[|above|..] == below;
    }
  }

  predicate HasTwoStars(pat: string) {
    exists i :: 0 <= i < |pat| - 1 && pat[i] == '*' && pat[i + 1] == '*'
  }

  lemma FindsTwoStars(pat: string)
    ensures Strings.Find(pat, "**").Some? <==> HasTwoStars(pat)
  {
    Strings.FindIsFirst(pat, "**");
    if HasTwoStars(pat) {
      var i: nat :| i < |pat| - 1 && pat[i] == '*' && pat[i + 1] == '*';
      assert Strings.Occurs(pat, "**", i);
    }
    if i: nat :| Strings.Occurs(pat, "**", i) { assert pat[i + 0] == "**"[0] && pat[i + 1] == "**"[1]; }
  }

  /** A pattern is accepted exactly when it has a component and two stars in a row are always a
      component of their own. */
  lemma {:induction false} SelectorIsMadeIff(parts: seq<string>)
    ensures MakeSelector(parts).Success? <==>
      parts != [] && forall i :: 0 <= i < |parts| && HasTwoStars(parts[i]) ==> parts[i] == "**"
    ensures parts == [] ==> MakeSelector(parts) == Failure(EmptyPattern)
    ensures parts != [] && MakeSelector(parts).Failure? ==> MakeSelector(parts).error == BadDoubleStar
    decreases |parts|
  {
    if parts == [] {
    } else {
      FindsTwoStars(parts[0]);
      if |parts| > 1 {
        SelectorIsMadeIff(parts[1..]);
        assert forall i :: 0 < i < |parts| ==> parts[1..][i - 1] == parts[i];
      }
    }
  }

  /** A pattern as text: rooted ones are refused, the others go by their components. */
  lemma SelectorOfText(pattern: string)
    ensures pattern != "" && pattern[0] == '/' ==> SelectorOf(pattern) == Failure(AnchoredPattern)
    ensures pattern == "" || pattern[0] != '/' ==>
      SelectorOf(pattern) == MakeSelector(PathLib.Names(Strings.SplitOn(pattern, '/')))
  {
    PathLib.ParseOfText(pattern);
    EmptyConcat(PathLib.Names(Strings.SplitOn(pattern, '/')));
  }

  /** The start, and stepping up from a directory again. */
  lemma ResolveUp(fs: Tree, path: Path, name: string)
    ensures Exists(fs, []) && NodeAt(fs, []) == fs
    ensures fs.Dir? ==> Resolve(fs, [".."]) == Resolve(fs, [])
    ensures name != ".." && IsDir(fs, path + [name]) ==> Resolve(fs, path + [name] + [".."]) == Resolve(fs, path)
  {
    assert [".."][..0] == [];
    assert (path + [name])[..|path|] == path;
    assert (path + [name] + [".."])[..|path| + 1] == path + [name];
  }

  /** One component with a wildcard: the children of the directory whose names match. */
  lemma GlobInDirectory(fnmatch: (string, string) -> bool, fs: Tree, pat: string, path: Path, name: string)
    requires WellFormed(fs) && IsDir(fs, path) && !HasTwoStars(pat) && pat != "**"
    requires exists i :: 0 <= i < |pat| && (pat[i] == '*' || pat[i] == '?' || pat[i] == '[')
    ensures MakeSelector([pat]).Success?
    ensures path + [name] in Select(fnmatch, fs, MakeSelector([pat]).value, path) <==>
      name in ListDir(fs, path) && fnmatch(pat, name)
  {
    SelectorIsMadeIff([pat]);
    var sel := MakeSelector([pat]).value;
    FindsTwoStars(pat);
    assert sel == Wildcard(pat, Terminating);
    if path + [name] in Select(fnmatch, fs, sel, path) {
      var child := WildcardChild(fnmatch, fs, sel, path, path + [name]);
      assert path + [name] == path + [child];
      assert (path + [name])[|path|] == (path + [child])[|path|];
      ChildIsListed(fs, path, name);
    }
    if name in ListDir(fs, path) && fnmatch(pat, name) {
      ChildYields(fnmatch, fs, sel, path, name, path + [name]);
    }
  }

  lemma ChildIsListed(fs: Tree, path: Path, name: string)
    requires Exists(fs, path + [name]) && name != ".." && IsDir(fs, path)
    ensures name in ListDir(fs, path)
  {
    ResolveChild(fs, path, name);
    LookupListed(NodeAt(fs, path).entries, name);
  }

  /** A glob yields, once each, the existing paths below the start whose components match the
      pattern, directories only if the pattern ends in a double star. */
  lemma GlobYieldsThePattern(fnmatch: (string, string) -> bool, fs: Tree, parts: seq<string>, path: Path, p: Path)
    requires WellFormed(fs) && MakeSelector(parts).Success?
    ensures var yielded := Select(fnmatch, fs, MakeSelector(parts).value, path);
      && NoDup(yielded)
      && (p in yielded <==> exists rel ::
            p == path + rel && PatternMatches(fnmatch, parts, rel) && Exists(fs, p)
            && (parts[|parts| - 1] == "**" ==> IsDir(fs, p)))
  {
    var sel := MakeSelector(parts).value;
    if !Exists(fs, path) {
      forall rel ensures !Exists(fs, path + rel) {
        if Exists(fs, path + rel) { StartExists(fs, path, rel); }
      }
      return;
    }
    SelectYieldsOnce(fnmatch, fs, sel, path);
    SelectYieldsTheMatches(fnmatch, fs, sel, path, p);
    forall rel ensures Matches(fnmatch, sel, rel) <==> PatternMatches(fnmatch, parts, rel) {
      SelectorMatchesPattern(fnmatch, parts, rel);
    }
    SelectorMatchesPattern(fnmatch, parts, []);
    if rel :| p == path + rel && PatternMatches(fnmatch, parts, rel) && Exists(fs, p)
              && (parts[|parts| - 1] == "**" ==> IsDir(fs, p)) {
      assert Denotes(fnmatch, fs, sel, path, rel);
    }
  }
}
