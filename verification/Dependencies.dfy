/**
 The version-level dependency graph: every edge goes to an older row, so the graph has no cycle and
 collecting transitive dependencies terminates.
 */
module Dependencies {
  import opened Version

  type Pk = nat

  datatype PackageKey = PackageKey(owner: string, name: string)

  /** A row of the version table. Stored numbers are canonical texts, so they are kept as the numbers they spell. */
  datatype VersionRow = VersionRow(package: PackageKey, number: StrictVersion, active: bool, deps: set<Pk>)

  type Versions = map<Pk, VersionRow>

  /** A row's dependencies exist, are older, belong to other packages, and are one per package at most. */
  ghost predicate SoundRow(versions: Versions, v: Pk, row: VersionRow) {
    && (forall d :: d in row.deps ==> d in versions && d < v && versions[d].package != row.package)
    && (forall d, e :: d in row.deps && e in row.deps && versions[d].package == versions[e].package ==> d == e)
  }

  ghost predicate SoundDeps(versions: Versions) {
    forall v :: v in versions ==> SoundRow(versions, v, versions[v])
  }

  /** A walk along dependency edges. */
  ghost predicate IsPath(versions: Versions, path: seq<Pk>) {
    && path != []
    && forall i :: 0 <= i < |path| - 1 ==> path[i] in versions && path[i + 1] in versions[path[i]].deps
  }

  lemma {:induction false} PathsDescend(versions: Versions, path: seq<Pk>)
    requires SoundDeps(versions) && IsPath(versions, path)
    ensures path[|path| - 1] <= path[0]
    ensures |path| > 1 ==> path[|path| - 1] < path[0]
  {
    if |path| > 1 {
      assert path[0] in versions && path[0 + 1] in versions[path[0]].deps;
      TailIsPath(versions, path);
      PathsDescend(versions, path[1..]);
      assert SoundRow(versions, path[0], versions[path[0]]);
      assert path[1..][|path| - 2] == path[|path| - 1];
    }
  }

  lemma TailIsPath(versions: Versions, path: seq<Pk>)
    requires IsPath(versions, path) && |path| > 1
    ensures IsPath(versions, path[1..])
  {
  }

  /** No version depends on itself through any chain of dependencies. */
  ghost predicate Acyclic(versions: Versions) {
    forall path :: IsPath(versions, path) && |path| > 1 ==> path[0] != path[|path| - 1]
  }

  lemma SoundIsAcyclic(versions: Versions)
    requires SoundDeps(versions)
    ensures Acyclic(versions)
  {
    forall path | IsPath(versions, path) && |path| > 1
      ensures path[0] != path[|path| - 1]
    {
      PathsDescend(versions, path);
    }
  }

  /** Everything a version needs, collected recursively; it terminates because edges go to older rows. */
  ghost function Closure(versions: Versions, v: Pk): set<Pk>
    requires SoundDeps(versions)
    decreases v
  {
    if v !in versions then {}
    else
      var deps := versions[v].deps;
      assert SoundRow(versions, v, versions[v]);
      deps + set d, e | d in deps && e in Closure(versions, d) :: e
  }

  /** The closure is exactly what can be reached along dependency edges. */
  lemma {:induction false} ClosureIsReachable(versions: Versions, v: Pk, e: Pk)
    requires SoundDeps(versions)
    ensures e in Closure(versions, v) <==>
            exists path :: IsPath(versions, path) && |path| > 1 && path[0] == v && path[|path| - 1] == e
    decreases v
  {
    if e in Closure(versions, v) {
      var _ := PathTo(versions, v, e);
    }
    if path :| IsPath(versions, path) && |path| > 1 && path[0] == v && path[|path| - 1] == e {
      PathIsInClosure(versions, path);
    }
  }

  lemma {:induction false} PathTo(versions: Versions, v: Pk, e: Pk) returns (path: seq<Pk>)
    requires SoundDeps(versions) && e in Closure(versions, v)
    ensures IsPath(versions, path) && |path| > 1 && path[0] == v && path[|path| - 1] == e
    decreases v
  {
    var deps := versions[v].deps;
    if e in deps {
      path := [v, e];
    } else {
      var d :| d in deps && e in Closure(versions, d);
      assert SoundRow(versions, v, versions[v]);
      path := PathTo(versions, d, e);
      PrependIsPath(versions, v, path);
      path := [v] + path;
    }
  }

  lemma PrependIsPath(versions: Versions, v: Pk, path: seq<Pk>)
    requires IsPath(versions, path) && v in versions && path[0] in versions[v].deps
    ensures IsPath(versions, [v] + path)
  {
  }

  lemma {:induction false} PathIsInClosure(versions: Versions, path: seq<Pk>)
    requires SoundDeps(versions) && IsPath(versions, path) && |path| > 1
    ensures path[|path| - 1] in Closure(versions, path[0])
    decreases |path|
  {
    assert path[0] in versions && path[0 + 1] in versions[path[0]].deps;
    if |path| > 2 {
      TailIsPath(versions, path);
      PathIsInClosure(versions, path[1..]);
      assert path[1..][0] == path[1] && path[1..][|path| - 2] == path[|path| - 1];
    }
  }

  // ----- how the graph changes -----

  /** Adding a row whose dependencies are existing rows of distinct other packages. */
  lemma AddKeepsSound(versions: Versions, pk: Pk, row: VersionRow)
    requires SoundDeps(versions) && pk !in versions
    requires SoundRow(versions, pk, row)
    ensures SoundDeps(versions[pk := row])
  {
    var after := versions[pk := row];
    forall v | v in after
      ensures SoundRow(after, v, after[v])
    {
      assert SoundRow(versions, v, if v == pk then row else versions[v]);
    }
  }

  /** Deleting a row also deletes the edges into it. */
  function Delete(versions: Versions, pk: Pk): Versions {
    map v | v in versions && v != pk :: versions[v].(deps := versions[v].deps - {pk})
  }

  lemma DeleteKeepsSound(versions: Versions, pk: Pk)
    requires SoundDeps(versions)
    ensures SoundDeps(Delete(versions, pk))
  {
  }

  function Toggled(versions: Versions, pk: Pk, active: bool): Versions
    requires pk in versions
  {
    versions[pk := versions[pk].(active := active)]
  }

  /** Deactivating or reactivating a row leaves the graph alone. */
  lemma ToggleKeepsSound(versions: Versions, pk: Pk, active: bool)
    requires SoundDeps(versions) && pk in versions
    ensures SoundDeps(Toggled(versions, pk, active))
  {
    var after := Toggled(versions, pk, active);
    forall v | v in after
      ensures SoundRow(after, v, after[v])
    {
      assert SoundRow(versions, v, versions[v]);
    }
  }
}
