/** Resolution of conflicting maven versions: of each artifact one version is kept. */
module Maven {
  import opened Prelude
  import opened Strings

  datatype Artifact = Artifact(group: string, name: string)

  datatype Coordinates = Coordinates(artifact: Artifact, version: string)

  const MAVEN_REPO := ".m2/repository/"

  /** Where a jar comes from; None for a path outside the local repository or too short. */
  function CoordinatesOf(jar: string): Option<Coordinates> {
    match Find(jar, MAVEN_REPO)
    case None => None
    case Some(at) =>
      FindInside(jar, MAVEN_REPO);
      var parts := SplitOn(jar[at + |MAVEN_REPO|..], '/');
      var n := |parts|;
      if n < 4 then None
      else Some(Coordinates(Artifact(Join(parts[..n - 3], '.'), parts[n - 3]), parts[n - 2]))
  }

  /** A dependency set as the resolution sees it: which jars exist, which ids the target
      names directly, and the order of versions. */
  datatype Setting = Setting(onDisk: string -> bool, directIds: set<string>, newer: (string, string) -> bool)
  {
    predicate Direct(a: Artifact, version: string) {
      a.group + ":" + a.name + ":" + version in directIds
    }

    predicate Accepts(jar: string) {
      CoordinatesOf(jar).Some? && onDisk(jar)
    }
  }

  // ---------------------------------------------------------------- picking one version

  /** The loop over the versions: the first direct one ends it, otherwise the newest so far is kept. */
  function Scan(env: Setting, a: Artifact, vs: seq<string>, best: Option<string>): Option<string>
    decreases |vs|
  {
    if vs == [] then best
    else if env.Direct(a, vs[0]) then Some(vs[0])
    else
      Scan(env, a, vs[1..], if best.None? || env.newer(vs[0], best.value) then Some(vs[0]) else best)
  }

  function Pick(env: Setting, a: Artifact, vs: seq<string>): Option<string> {
    if |vs| == 1 then Some(vs[0]) else Scan(env, a, vs, None)
  }

  method PickVersion(env: Setting, a: Artifact, versions: seq<string>) returns (picked: Option<string>)
    ensures picked == Pick(env, a, versions)
  {
    if |versions| == 1 {
      return Some(versions[0]);
    }
    picked := None;
    assert versions[0..] == versions;
    for i := 0 to |versions|
      invariant Scan(env, a, versions, None) == Scan(env, a, versions[i..], picked)
    {
      var v := versions[i];
      assert versions[i..][1..] == versions[i + 1..];
      if env.Direct(a, v) {
        return Some(v);
      }
      if picked.None? || env.newer(v, picked.value) {
        picked := Some(v);
      }
    }
  }

  lemma {:induction false} ScanPicksListed(env: Setting, a: Artifact, vs: seq<string>, best: Option<string>)
    requires vs != [] || best.Some?
    ensures var r := Scan(env, a, vs, best);
      r.Some? && (r.value in vs || r == best)
    decreases |vs|
  {
    if vs != [] && !env.Direct(a, vs[0]) {
      ScanPicksListed(env, a, vs[1..], if best.None? || env.newer(vs[0], best.value) then Some(vs[0]) else best);
    }
  }

  /** The order of versions: incomparable versions (such as 1.0 and 1.00) count as equal. */
  ghost predicate WeakOrder(newer: (string, string) -> bool) {
    && (forall u :: !newer(u, u))
    && (forall u, v, w {:trigger newer(u, v), newer(v, w)} :: newer(u, v) && newer(v, w) ==> newer(u, w))
    && (forall u, v, w {:trigger newer(u, w), newer(v, w)} {:trigger newer(u, w), newer(u, v)} ::
          newer(u, w) ==> newer(u, v) || newer(v, w))
  }

  /** What the documentation asks for: a directly named version if there is one, otherwise
      one that no other is newer than. */
  ghost predicate Candidate(env: Setting, a: Artifact, vs: seq<string>, v: string) {
    && v in vs
    && if exists u :: u in vs && env.Direct(a, u) then env.Direct(a, v)
       else forall u :: u in vs ==> !env.newer(u, v)
  }

  lemma {:induction false} ScanFinds(env: Setting, a: Artifact, vs: seq<string>, best: Option<string>)
    requires WeakOrder(env.newer)
    ensures var r := Scan(env, a, vs, best);
      if exists u :: u in vs && env.Direct(a, u) then r.Some? && r.value in vs && env.Direct(a, r.value)
      else
        && (vs != [] || best.Some? ==> r.Some?)
        && (r.Some? ==> r == best || r.value in vs)
        && (r.Some? ==> forall u :: u in vs ==> !env.newer(u, r.value))
        && (r.Some? && best.Some? ==> !env.newer(best.value, r.value))
    decreases |vs|
  {
    if vs != [] && !env.Direct(a, vs[0]) {
      var next := if best.None? || env.newer(vs[0], best.value) then Some(vs[0]) else best;
      ScanFinds(env, a, vs[1..], next);
      assert forall u :: u in vs <==> u == vs[0] || u in vs[1..];
    }
  }

  /** Whatever the order of the versions, a candidate is picked. */
  lemma PickIsCandidate(env: Setting, a: Artifact, vs: seq<string>)
    requires WeakOrder(env.newer) && vs != []
    ensures Pick(env, a, vs).Some? && Candidate(env, a, vs, Pick(env, a, vs).value)
  {
    ScanFinds(env, a, vs, None);
  }

  lemma {:induction false} ScanKeeps(env: Setting, a: Artifact, vs: seq<string>, best: string)
    requires forall u :: u in vs ==> !env.Direct(a, u) && !env.newer(u, best)
    ensures Scan(env, a, vs, Some(best)) == Some(best)
    decreases |vs|
  {
    if vs == [] {
    } else {
      ScanKeeps(env, a, vs[1..], best);
    }
  }

  /** Every candidate is picked if it happens to come first. */
  lemma CandidateFirstIsPicked(env: Setting, a: Artifact, vs: seq<string>, v: string, rest: seq<string>)
    requires WeakOrder(env.newer) && Candidate(env, a, vs, v)
    requires forall u :: u in rest ==> u in vs
    ensures Pick(env, a, [v] + rest) == Some(v)
  {
    assert ([v] + rest)[1..] == rest;
    if !env.Direct(a, v) { ScanKeeps(env, a, rest, v); }
  }

  /** Two lists are orders of the same versions. */
  ghost predicate SameVersions(vs: seq<string>, ws: seq<string>) {
    NoDup(vs) && NoDup(ws) && forall u :: u in vs <==> u in ws
  }

  lemma EveryCandidateIsPickedOnce(env: Setting, a: Artifact, vs: seq<string>, v: string) returns (ws: seq<string>)
    requires WeakOrder(env.newer) && NoDup(vs) && Candidate(env, a, vs, v)
    ensures SameVersions(vs, ws) && Pick(env, a, ws) == Some(v)
  {
    var i :| 0 <= i < |vs| && vs[i] == v;
    var rest := vs[..i] + vs[i + 1..];
    CandidateFirstIsPicked(env, a, vs, v, rest);
    ws := [v] + rest;
    assert forall u :: u in vs <==> u in ws;
  }

  /** At most one version is a candidate. */
  ghost predicate HasSingleCandidate(env: Setting, a: Artifact, vs: seq<string>) {
    forall u, v :: Candidate(env, a, vs, u) && Candidate(env, a, vs, v) ==> u == v
  }

  /** The pick does not depend on the order exactly when there is a single candidate. */
  lemma OrderIndependentIff(env: Setting, a: Artifact, vs: seq<string>)
    requires WeakOrder(env.newer) && vs != [] && NoDup(vs)
    ensures (forall ws :: SameVersions(vs, ws) ==> Pick(env, a, ws) == Pick(env, a, vs)) <==>
            HasSingleCandidate(env, a, vs)
  {
    PickIsCandidate(env, a, vs);
    forall v | Candidate(env, a, vs, v)
      ensures exists ws :: SameVersions(vs, ws) && Pick(env, a, ws) == Some(v)
    {
      var ws := EveryCandidateIsPickedOnce(env, a, vs, v);
    }
    forall ws | SameVersions(vs, ws) ensures Pick(env, a, ws).Some? && Candidate(env, a, vs, Pick(env, a, ws).value) {
      assert vs[0] in ws;
      PickIsCandidate(env, a, ws);
    }
  }

  /** At most one direct version and an order that tells all versions apart: one candidate. */
  lemma SingleCandidate(env: Setting, a: Artifact, vs: seq<string>, u: string, v: string)
    requires WeakOrder(env.newer) && Candidate(env, a, vs, u) && Candidate(env, a, vs, v)
    requires forall x, y :: x in vs && y in vs && env.Direct(a, x) && env.Direct(a, y) ==> x == y
    requires forall x, y :: x in vs && y in vs && x != y ==> env.newer(x, y) || env.newer(y, x)
    ensures u == v
  {
  }

  // ---------------------------------------------------------------- the resolution

  /** The versions of an artifact among the accepted jars, in order of first appearance. */
  ghost function Versions(env: Setting, jars: seq<string>, a: Artifact): seq<string> {
    if jars == [] then []
    else
      var before, jar := Versions(env, jars[..|jars| - 1], a), jars[|jars| - 1];
      if env.Accepts(jar) && CoordinatesOf(jar).value.artifact == a && CoordinatesOf(jar).value.version !in before
      then before + [CoordinatesOf(jar).value.version] else before
  }

  ghost predicate IsOf(env: Setting, jar: string, c: Coordinates) {
    env.Accepts(jar) && CoordinatesOf(jar).value == c
  }

  lemma {:induction false} VersionsAreOfJars(env: Setting, jars: seq<string>, a: Artifact)
    ensures NoDup(Versions(env, jars, a))
    ensures forall v :: v in Versions(env, jars, a) <==> exists jar :: jar in jars && IsOf(env, jar, Coordinates(a, v))
    decreases |jars|
  {
    if jars == [] {
    } else {
      var init, last := jars[..|jars| - 1], jars[|jars| - 1];
      VersionsAreOfJars(env, init, a);
      assert jars == init + [last];
      forall v ensures v in Versions(env, jars, a) <==> exists jar :: jar in jars && IsOf(env, jar, Coordinates(a, v)) {
        if v in Versions(env, init, a) {
          var jar :| jar in init && IsOf(env, jar, Coordinates(a, v));
          assert jar in jars;
        } else if IsOf(env, last, Coordinates(a, v)) {
          assert last in jars;
        }
      }
    }
  }

  /** The versions filed so far, by artifact. */
  ghost predicate VersionsFiled(env: Setting, jars: seq<string>, versionsOf: map<Artifact, seq<string>>) {
    forall a :: if a in versionsOf then versionsOf[a] == Versions(env, jars, a) != [] else Versions(env, jars, a) == []
  }

  /** The jars filed so far, by artifact and version. */
  ghost predicate JarsFiled(env: Setting, jars: seq<string>, jarsOf: map<Coordinates, set<string>>) {
    forall c :: if c in jarsOf then jarsOf[c] == (set jar | jar in jars && IsOf(env, jar, c))
                else forall jar :: jar in jars ==> !IsOf(env, jar, c)
  }

  method FileVersion(env: Setting, ghost jars: seq<string>, jar: string, versionsOf: map<Artifact, seq<string>>)
    returns (next: map<Artifact, seq<string>>)
    requires env.Accepts(jar) && VersionsFiled(env, jars, versionsOf)
    ensures VersionsFiled(env, jars + [jar], next)
  {
    var c := CoordinatesOf(jar).value;
    assert (jars + [jar])[..|jars|] == jars;
    if c.artifact in versionsOf {
      if c.version !in versionsOf[c.artifact] {
        next := versionsOf[c.artifact := versionsOf[c.artifact] + [c.version]];
      } else {
        next := versionsOf;
      }
    } else {
      next := versionsOf[c.artifact := [c.version]];
    }
  }

  method FileJar(env: Setting, ghost jars: seq<string>, jar: string, jarsOf: map<Coordinates, set<string>>)
    returns (next: map<Coordinates, set<string>>)
    requires env.Accepts(jar) && JarsFiled(env, jars, jarsOf)
    ensures JarsFiled(env, jars + [jar], next)
  {
    var c := CoordinatesOf(jar).value;
    if c in jarsOf {
      next := jarsOf[c := jarsOf[c] + {jar}];
    } else {
      next := jarsOf[c := {jar}];
    }
    forall x | x in next ensures next[x] == (set j | j in jars + [jar] && IsOf(env, j, x)) {
      assert x != c ==> next[x] == jarsOf[x];
    }
  }

  lemma FileNothing(env: Setting, jars: seq<string>, jar: string, versionsOf: map<Artifact, seq<string>>,
                    jarsOf: map<Coordinates, set<string>>)
    requires !env.Accepts(jar) && VersionsFiled(env, jars, versionsOf) && JarsFiled(env, jars, jarsOf)
    ensures VersionsFiled(env, jars + [jar], versionsOf) && JarsFiled(env, jars + [jar], jarsOf)
  {
    assert (jars + [jar])[..|jars|] == jars;
    forall c | c in jarsOf ensures jarsOf[c] == (set j | j in jars + [jar] && IsOf(env, j, c)) {}
  }

  /** The jars to keep, in ascending order: of each artifact those of the version picked. */
  method DetectMavenConflictedDeps(env: Setting, depJars: seq<string>) returns (jars: seq<string>)
    ensures Ascending(jars) && forall jar :: jar in jars <==> jar in depJars && Kept(env, depJars, jar)
    ensures forall jar :: jar in jars ==> env.onDisk(jar) && CoordinatesOf(jar).Some?
  {
    var versionsOf: map<Artifact, seq<string>> := map[];
    var jarsOf: map<Coordinates, set<string>> := map[];
    for i := 0 to |depJars|
      invariant VersionsFiled(env, depJars[..i], versionsOf) && JarsFiled(env, depJars[..i], jarsOf)
    {
      assert depJars[..i + 1] == depJars[..i] + [depJars[i]];
      if env.Accepts(depJars[i]) {
        versionsOf := FileVersion(env, depJars[..i], depJars[i], versionsOf);
        jarsOf := FileJar(env, depJars[..i], depJars[i], jarsOf);
      } else {
        FileNothing(env, depJars[..i], depJars[i], versionsOf, jarsOf);
      }
    }
    assert depJars[..|depJars|] == depJars;
    var picked := CollectPicked(env, depJars, versionsOf, jarsOf);
    jars := Sorted(picked);
  }

  method CollectPicked(env: Setting, ghost depJars: seq<string>, versionsOf: map<Artifact, seq<string>>,
                       jarsOf: map<Coordinates, set<string>>)
    returns (jars: set<string>)
    requires VersionsFiled(env, depJars, versionsOf) && JarsFiled(env, depJars, jarsOf)
    ensures forall jar :: jar in jars <==> jar in depJars && Kept(env, depJars, jar)
  {
    jars := {};
    var todo := versionsOf.Keys;
    while todo != {}
      invariant todo <= versionsOf.Keys
      invariant forall jar :: jar in jars <==>
        jar in depJars && Kept(env, depJars, jar) && CoordinatesOf(jar).value.artifact !in todo
    {
      var a :| a in todo;
      todo := todo - {a};
      var picked := PickVersion(env, a, versionsOf[a]);
      ScanPicksListed(env, a, versionsOf[a], None);
      VersionsAreOfJars(env, depJars, a);
      jars := jars + jarsOf[Coordinates(a, picked.value)];
    }
    forall jar | jar in depJars && Kept(env, depJars, jar) ensures jar in jars {}
  }

  /** Of its artifact the jar's version is the one picked. */
  ghost predicate Kept(env: Setting, depJars: seq<string>, jar: string) {
    env.Accepts(jar) &&
    var c := CoordinatesOf(jar).value;
    Pick(env, c.artifact, Versions(env, depJars, c.artifact)) == Some(c.version)
  }

  /** No artifact is lost, and what is kept of it is all jars of a single candidate version. */
  lemma EveryArtifactIsKept(env: Setting, depJars: seq<string>, jar: string)
    requires WeakOrder(env.newer) && jar in depJars && env.Accepts(jar)
    ensures var a := CoordinatesOf(jar).value.artifact;
      exists v :: Candidate(env, a, Versions(env, depJars, a), v)
        && (exists j :: j in depJars && IsOf(env, j, Coordinates(a, v)))
        && forall j :: j in depJars && env.Accepts(j) && CoordinatesOf(j).value.artifact == a ==>
             (Kept(env, depJars, j) <==> CoordinatesOf(j).value.version == v)
  {
    var c := CoordinatesOf(jar).value;
    VersionsAreOfJars(env, depJars, c.artifact);
    assert IsOf(env, jar, c);
    PickIsCandidate(env, c.artifact, Versions(env, depJars, c.artifact));
  }

  // ---------------------------------------------------------------- the order of the jars

  /** Two lists are orders of the same jars. */
  ghost predicate SameJars(jars: seq<string>, other: seq<string>) {
    NoDup(jars) && NoDup(other) && forall jar :: jar in jars <==> jar in other
  }

  lemma SameJarsSameVersions(env: Setting, jars: seq<string>, other: seq<string>, a: Artifact)
    requires SameJars(jars, other)
    ensures SameVersions(Versions(env, jars, a), Versions(env, other, a))
  {
    VersionsAreOfJars(env, jars, a);
    VersionsAreOfJars(env, other, a);
  }

  /** The version of the first jar comes first. */
  lemma {:induction false} FirstVersion(env: Setting, jar: string, rest: seq<string>, c: Coordinates)
    requires IsOf(env, jar, c)
    ensures Versions(env, [jar] + rest, c.artifact) != []
    ensures Versions(env, [jar] + rest, c.artifact)[0] == c.version
    decreases |rest|
  {
    var jars := [jar] + rest;
    if rest == [] {
      assert jars[..0] == [];
    } else {
      assert jars[..|jars| - 1] == [jar] + rest[..|rest| - 1];
      FirstVersion(env, jar, rest[..|rest| - 1], c);
    }
  }

  /** For every candidate there is an order of the jars in which it is the version picked. */
  lemma EveryCandidateIsKeptOnce(env: Setting, jars: seq<string>, a: Artifact, v: string) returns (other: seq<string>)
    requires WeakOrder(env.newer) && NoDup(jars) && Candidate(env, a, Versions(env, jars, a), v)
    ensures SameJars(jars, other) && Pick(env, a, Versions(env, other, a)) == Some(v)
  {
    VersionsAreOfJars(env, jars, a);
    var jar :| jar in jars && IsOf(env, jar, Coordinates(a, v));
    var i :| 0 <= i < |jars| && jars[i] == jar;
    var rest := jars[..i] + jars[i + 1..];
    other := [jar] + rest;
    MovedToFront(jars, i);
    SameJarsSameVersions(env, jars, other, a);
    FirstVersion(env, jar, rest, Coordinates(a, v));
    FirstCandidateIsPicked(env, a, Versions(env, jars, a), Versions(env, other, a), v);
  }

  lemma FirstCandidateIsPicked(env: Setting, a: Artifact, vs: seq<string>, ws: seq<string>, v: string)
    requires WeakOrder(env.newer) && Candidate(env, a, vs, v) && SameVersions(vs, ws)
    requires ws != [] && ws[0] == v
    ensures Pick(env, a, ws) == Some(v)
  {
    assert ws == [v] + ws[1..];
    CandidateFirstIsPicked(env, a, vs, v, ws[1..]);
  }

  lemma MovedToFront(s: seq<string>, i: nat)
    requires NoDup(s) && i < |s|
    ensures SameJars(s, [s[i]] + (s[..i] + s[i + 1..]))
  {
    var t := [s[i]] + (s[..i] + s[i + 1..]);
    forall x ensures x in s <==> x in t {
      if x in s {
        var j :| 0 <= j < |s| && s[j] == x;
        assert t[if j == i then 0 else if j < i then j + 1 else j] == x;
      }
    }
  }

  /** Which jars of an artifact are kept does not depend on the order in which the jars are
      met exactly when the artifact has a single candidate version. */
  lemma ResolutionIsOrderIndependentIff(env: Setting, jars: seq<string>, a: Artifact)
    requires WeakOrder(env.newer) && NoDup(jars) && Versions(env, jars, a) != []
    ensures (forall other, jar :: SameJars(jars, other) && IsJarOf(env, jars, jar, a) ==>
              (Kept(env, other, jar) <==> Kept(env, jars, jar))) <==>
            HasSingleCandidate(env, a, Versions(env, jars, a))
  {
    var vs := Versions(env, jars, a);
    VersionsAreOfJars(env, jars, a);
    if HasSingleCandidate(env, a, vs) {
      OrderIndependentIff(env, a, vs);
      forall other, jar | SameJars(jars, other) && IsJarOf(env, jars, jar, a)
        ensures Kept(env, other, jar) <==> Kept(env, jars, jar)
      {
        SameJarsSameVersions(env, jars, other, a);
      }
    } else {
      var u, v :| Candidate(env, a, vs, u) && Candidate(env, a, vs, v) && u != v;
      var jar :| jar in jars && IsOf(env, jar, Coordinates(a, u));
      var first := EveryCandidateIsKeptOnce(env, jars, a, u);
      var second := EveryCandidateIsKeptOnce(env, jars, a, v);
      assert IsJarOf(env, jars, jar, a) && Kept(env, first, jar) && !Kept(env, second, jar);
    }
  }

  /** If every artifact has a single candidate, the list returned is the same for every order of
      the jars. */
  lemma ResultIsOrderIndependent(env: Setting, jars: seq<string>, other: seq<string>, r: seq<string>, r': seq<string>)
    requires WeakOrder(env.newer) && SameJars(jars, other)
    requires forall a :: HasSingleCandidate(env, a, Versions(env, jars, a))
    requires Ascending(r) && forall jar :: jar in r <==> jar in jars && Kept(env, jars, jar)
    requires Ascending(r') && forall jar :: jar in r' <==> jar in other && Kept(env, other, jar)
    ensures r == r'
  {
    forall jar | jar in jars && env.Accepts(jar) ensures Kept(env, other, jar) <==> Kept(env, jars, jar) {
      var a := CoordinatesOf(jar).value.artifact;
      VersionsAreOfJars(env, jars, a);
      assert IsOf(env, jar, CoordinatesOf(jar).value) && IsJarOf(env, jars, jar, a);
      ResolutionIsOrderIndependentIff(env, jars, a);
    }
    AscendingIsUnique(r, r');
  }

  ghost predicate IsJarOf(env: Setting, jars: seq<string>, jar: string, a: Artifact) {
    jar in jars && env.Accepts(jar) && CoordinatesOf(jar).value.artifact == a
  }

  /** Of two versions named directly, or two incomparable ones, the one met first is picked. */
  lemma OrderMatters(env: Setting, a: Artifact)
    ensures env.directIds == {"g:a:1", "g:a:2"} && a == Artifact("g", "a") ==>
      Pick(env, a, ["1", "2"]) == Some("1") && Pick(env, a, ["2", "1"]) == Some("2")
    ensures env.directIds == {} && !env.newer("1.0", "1.00") && !env.newer("1.00", "1.0") ==>
      Pick(env, a, ["1.0", "1.00"]) == Some("1.0") && Pick(env, a, ["1.00", "1.0"]) == Some("1.00")
  {
    if env.directIds == {"g:a:1", "g:a:2"} && a == Artifact("g", "a") {
      assert a.group + ":" + a.name + ":" + "1" == "g:a:1" && a.group + ":" + a.name + ":" + "2" == "g:a:2";
      assert env.Direct(a, "1") && env.Direct(a, "2");
    }
    assert ["1.0", "1.00"][1..] == ["1.00"] && ["1.00", "1.0"][1..] == ["1.0"];
  }

  // ---------------------------------------------------------------- jars by their paths

  /** A jar in the local repository: its directories are the group, the name and the version. */
  lemma CoordinatesOfJar(pre: string, groups: seq<string>, name: string, version: string, file: string)
    requires groups != [] && forall part :: part in groups + [name, version, file] ==> '/' !in part
    requires forall i: nat :: i < |pre| ==>
      !Occurs(pre + (".m2/repository/" + Join(groups + [name, version, file], '/')), ".m2/repository/", i)
    ensures CoordinatesOf(pre + (".m2/repository/" + Join(groups + [name, version, file], '/'))) ==
      Some(Coordinates(Artifact(Join(groups, '.'), name), version))
  {
    var parts := groups + [name, version, file];
    var tail := Join(parts, '/');
    var jar := pre + (MAVEN_REPO + tail);
    FoundAfter(pre, MAVEN_REPO, tail);
    assert jar[|pre| + |MAVEN_REPO|..] == tail;
    SplitOfJoin(parts, '/');
    var n := |parts|;
    assert parts[..n - 3] == groups && parts[n - 3] == name && parts[n - 2] == version;
  }

  lemma FoundAfter(pre: string, sub: string, tail: string)
    requires forall i: nat :: i < |pre| ==> !Occurs(pre + (sub + tail), sub, i)
    ensures Find(pre + (sub + tail), sub) == Some(|pre|)
  {
    var s := pre + (sub + tail);
    FindIsFirst(s, sub);
    assert Occurs(s, sub, |pre|);
  }

  /** Other paths have no coordinates: those outside the repository, and those with fewer than
      four parts in it. */
  lemma NoCoordinates(jar: string, pre: string, parts: seq<string>)
    ensures (forall i: nat :: !Occurs(jar, ".m2/repository/", i)) ==> CoordinatesOf(jar) == None
    ensures parts != [] && |parts| < 4 && (forall part :: part in parts ==> '/' !in part)
      && (forall i: nat :: i < |pre| ==> !Occurs(pre + (".m2/repository/" + Join(parts, '/')), ".m2/repository/", i))
      ==> CoordinatesOf(pre + (".m2/repository/" + Join(parts, '/'))) == None
  {
    FindIsFirst(jar, MAVEN_REPO);
    if parts != [] && |parts| < 4 && (forall part :: part in parts ==> '/' !in part)
      && (forall i: nat :: i < |pre| ==> !Occurs(pre + (MAVEN_REPO + Join(parts, '/')), MAVEN_REPO, i))
    {
      var tail := Join(parts, '/');
      FoundAfter(pre, MAVEN_REPO, tail);
      assert (pre + (MAVEN_REPO + tail))[|pre| + |MAVEN_REPO|..] == tail;
      SplitOfJoin(parts, '/');
    }
  }

  /** Of two versions on disk, met in either order, the one named directly is kept, or else the
      greater one. */
  lemma OneOfTwoVersions(env: Setting, jars: seq<string>, jar: string, other: string, group: string, name: string,
                         v: string, u: string)
    requires WeakOrder(env.newer) && v != u && env.onDisk(jar) && env.onDisk(other)
    requires forall j :: j in jars <==> j == jar || j == other
    requires CoordinatesOf(jar) == Some(Coordinates(Artifact(group, name), v))
    requires CoordinatesOf(other) == Some(Coordinates(Artifact(group, name), u))
    requires group + ":" + name + ":" + u !in env.directIds
    requires group + ":" + name + ":" + v in env.directIds || env.newer(v, u)
    ensures Kept(env, jars, jar) && !Kept(env, jars, other)
  {
    var a := Artifact(group, name);
    var vs := Versions(env, jars, a);
    VersionsAreOfJars(env, jars, a);
    assert jar in jars && IsOf(env, jar, Coordinates(a, v)) && other in jars && IsOf(env, other, Coordinates(a, u));
    assert v in vs && u in vs;
    PickIsCandidate(env, a, vs);
    forall w | w in vs ensures w == v || w == u {
      var j :| j in jars && IsOf(env, j, Coordinates(a, w));
    }
    assert env.Direct(a, v) || env.newer(v, u);
  }
}
