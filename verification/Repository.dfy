/**
 The package repository as a state machine: uploads add versions and dependency edges, saves and deletes
 change which versions are active, and every package caches its latest version.
 */
module Repository {
  import opened Prelude
  import opened Version
  import opened Reference
  import opened Dependencies
  import opened LatestVersion

  // ----- the manifest checks -----

  ghost predicate MentionsPackage(packages: seq<Reference>, package: Reference) {
    exists i :: 0 <= i < |packages| && packages[i].SamePackage(package)
  }

  /** `does_contain_package` */
  method DoesContainPackage(packages: seq<Reference>, package: Reference) returns (found: bool)
    ensures found <==> MentionsPackage(packages, package)
  {
    for i := 0 to |packages|
      invariant forall k :: 0 <= k < i ==> !packages[k].SamePackage(package)
    {
      if packages[i].WithoutVersion().SameVersion(package.WithoutVersion()) {
        return true;
      }
    }
    return false;
  }

  /** Two different references to one package. Repeating one and the same reference is not a conflict. */
  ghost predicate Conflict(a: Reference, b: Reference) {
    a != b && a.SamePackage(b)
  }

  ghost predicate HasConflict(packages: seq<Reference>) {
    exists i, j :: 0 <= i < |packages| && 0 <= j < |packages| && Conflict(packages[i], packages[j])
  }

  /** `has_duplicate_packages` */
  method HasDuplicatePackages(packages: seq<Reference>) returns (found: bool)
    ensures found <==> HasConflict(packages)
  {
    for i := 0 to |packages|
      invariant forall k, j :: 0 <= k < i && 0 <= j < |packages| ==> !Conflict(packages[k], packages[j])
    {
      for j := 0 to |packages|
        invariant forall k :: 0 <= k < j ==> !Conflict(packages[i], packages[k])
      {
        EqualIsIdentical(packages[i], packages[j]);
        if packages[i].SameVersion(packages[j]) {
          continue;
        }
        if packages[i].WithoutVersion().SameVersion(packages[j].WithoutVersion()) {
          assert Conflict(packages[i], packages[j]);
          return true;
        }
      }
    }
    return false;
  }

  /** `validate_unique_installers`: accepted iff no identifier occurs twice. */
  method ValidateUniqueInstallers(identifiers: seq<string>) returns (ok: bool)
    ensures ok <==> forall i, j :: 0 <= i < j < |identifiers| ==> identifiers[i] != identifiers[j]
  {
    var seen: set<string> := {};
    for i := 0 to |identifiers|
      invariant forall k :: 0 <= k < i ==> identifiers[k] in seen
      invariant forall s :: s in seen ==> exists k :: 0 <= k < i && identifiers[k] == s
      invariant forall k, j :: 0 <= k < j < i ==> identifiers[k] != identifiers[j]
    {
      if identifiers[i] in seen {
        return false;
      }
      seen := seen + {identifiers[i]};
    }
    return true;
  }

  // ----- resolving references -----

  /** `StrictVersion(number)` of a canonical number. */
  function NumberOf(number: string): StrictVersion
    requires Canonical(number)
  {
    ParseVersion(number).value
  }

  /** The version a version string spells once its suffix has been dropped. */
  function Plain(v: StrictVersion): StrictVersion { v.(pre := None) }

  /** Comparing version strings, as the version filter does, is comparing the numbers without suffixes. */
  lemma SameStrIffSamePlain(v: StrictVersion, w: StrictVersion)
    ensures VersionStr(v) == VersionStr(w) <==> Plain(v) == Plain(w)
  {
    CanonicalBijection(Plain(v), Plain(w));
  }

  /** The filter a versioned reference puts on the version table. */
  predicate Refers(versions: Versions, r: Reference, pk: Pk) {
    && r.version.Some? && pk in versions
    && versions[pk].package == PackageKey(r.namespace, r.name)
    && versions[pk].number == Plain(r.version.value)
  }

  ghost predicate Resolves(versions: Versions, r: Reference) {
    exists pk :: Refers(versions, r, pk)
  }

  lemma ReferentIsUnique(versions: Versions, r: Reference, a: Pk, b: Pk)
    requires NumbersUnique(versions) && Refers(versions, r, a) && Refers(versions, r, b)
    ensures a == b
  {
  }

  /** `reference.instance` of a versioned reference. */
  method Resolve(versions: Versions, r: Reference) returns (instance: Option<Pk>)
    requires r.version.Some?
    ensures instance.Some? ==> Refers(versions, r, instance.value)
    ensures instance.Some? <==> Resolves(versions, r)
  {
    var rest := versions.Keys;
    while rest != {}
      invariant rest <= versions.Keys
      invariant forall pk :: Refers(versions, r, pk) ==> pk in rest
      decreases rest
    {
      var pk :| pk in rest;
      if Refers(versions, r, pk) {
        return Some(pk);
      }
      rest := rest - {pk};
    }
    return None;
  }

  /** The rows a reference list names. */
  ghost function Targets(versions: Versions, references: seq<Reference>): set<Pk> {
    if references == [] then {}
    else (set pk | pk in versions && Refers(versions, references[0], pk)) + Targets(versions, references[1..])
  }

  lemma {:induction false} TargetIsReferred(versions: Versions, references: seq<Reference>, pk: Pk)
    ensures pk in Targets(versions, references) <==>
            exists i :: 0 <= i < |references| && Refers(versions, references[i], pk)
  {
    if references != [] {
      TargetIsReferred(versions, references[1..], pk);
      if i :| 0 <= i < |references| && Refers(versions, references[i], pk) {
        assert i > 0 ==> references[1..][i - 1] == references[i];
      }
      if j :| 0 <= j < |references[1..]| && Refers(versions, references[1..][j], pk) {
        assert references[j + 1] == references[1..][j];
      }
    }
  }

  /** `instance.dependencies.add(reference.instance)` for every reference. */
  method Instances(versions: Versions, references: seq<Reference>) returns (deps: set<Pk>)
    requires NumbersUnique(versions)
    requires forall i :: 0 <= i < |references| ==> references[i].version.Some? && Resolves(versions, references[i])
    ensures deps == Targets(versions, references)
  {
    deps := {};
    for i := 0 to |references|
      invariant Targets(versions, references) == deps + Targets(versions, references[i..])
    {
      var instance := Resolve(versions, references[i]);
      var pk := instance.value;
      forall other | Refers(versions, references[i], other)
        ensures other == pk
      {
        ReferentIsUnique(versions, references[i], other, pk);
      }
      assert references[i..][0] == references[i] && references[i..][1..] == references[i + 1..];
      assert (set p | p in versions && Refers(versions, references[i], p)) == {pk};
      deps := deps + {pk};
    }
    assert references[|references|..] == [];
  }

  /** A dependency text is accepted iff it parses, has a version, and a row matches. */
  ghost predicate ValidDependency(versions: Versions, text: string) {
    && Parse(text).Ok? && Parse(text).value.version.Some?
    && Resolves(versions, Parse(text).value)
  }

  ghost predicate ValidDependencies(versions: Versions, texts: seq<string>) {
    forall i :: 0 <= i < |texts| ==> ValidDependency(versions, texts[i])
  }

  ghost function Parsed(versions: Versions, texts: seq<string>): seq<Reference>
    requires ValidDependencies(versions, texts)
  {
    seq(|texts|, i requires 0 <= i < |texts| => Parse(texts[i]).value)
  }

  /** The references of a dependency list, if every entry is acceptable. */
  method ParseDependencies(versions: Versions, texts: seq<string>) returns (r: Option<seq<Reference>>)
    ensures r.Some? <==> ValidDependencies(versions, texts)
    ensures r.Some? ==> r.value == Parsed(versions, texts)
  {
    var references: seq<Reference> := [];
    for i := 0 to |texts|
      invariant |references| == i
      invariant forall k :: 0 <= k < i ==> ValidDependency(versions, texts[k]) && references[k] == Parse(texts[k]).value
    {
      var parsed := Parse(texts[i]);
      if parsed.Err? || parsed.value.version.None? {
        return None;
      }
      var instance := Resolve(versions, parsed.value);
      if instance.None? {
        return None;
      }
      references := references + [parsed.value];
    }
    return Some(references);
  }

  /** `re.match(r"^[a-zA-Z0-9\_]+$", name)` on a stripped name. */
  predicate ValidName(name: string) {
    name != "" && forall c | c in name :: 'a' <= c <= 'z' || 'A' <= c <= 'Z' || '0' <= c <= '9' || c == '_'
  }

  /** Case folding of the ASCII names a package can have. */
  function Folded(name: string): string {
    seq(|name|, i requires 0 <= i < |name| =>
      if 'A' <= name[i] <= 'Z' then (name[i] as int + 32) as char else name[i])
  }

  datatype Manifest = Manifest(name: string, number: string, dependencies: seq<string>)

  datatype UploadError =
    | InvalidField | MissingPrivileges | AlreadyExists | MultipleVersions | DependsOnItself | DifferentCase

  // ----- the repository -----

  datatype Op =
    | Upload(owner: string, privileged: bool, manifest: Manifest)
    | Save(pk: Pk, active: bool)
    | Delete(pk: Pk)

  /** The version table, the package table and the next primary key. */
  datatype Tables = Tables(versions: Versions, packages: set<PackageKey>, nextPk: Pk)

  predicate SameInAnyCase(p: PackageKey, owner: string, name: string) {
    p.owner == owner && Folded(p.name) == Folded(name)
  }

  /** Some package of the owner has this name, in whatever case. */
  ghost predicate NameTaken(packages: set<PackageKey>, owner: string, name: string) {
    exists p :: p in packages && SameInAnyCase(p, owner, name)
  }

  /** The manifest is well-formed in itself. */
  ghost predicate FieldsValid(versions: Versions, m: Manifest) {
    ValidName(m.name) && Canonical(m.number) && |m.dependencies| <= 1000 && ValidDependencies(versions, m.dependencies)
  }

  /** The version that an upload wants to add. */
  function Uploaded(owner: string, m: Manifest): Reference
    requires Canonical(m.number)
  {
    Reference(owner, m.name, Some(NumberOf(m.number)))
  }

  /** What an upload is refused for, by the order of the checks. */
  ghost function Refusal(t: Tables, owner: string, privileged: bool, m: Manifest): (e: Option<UploadError>)
    ensures e.None? ==> FieldsValid(t.versions, m)
  {
    if !FieldsValid(t.versions, m) then Some(InvalidField)
    else if !privileged then Some(MissingPrivileges)
    else
      var references := Parsed(t.versions, m.dependencies);
      if Resolves(t.versions, Uploaded(owner, m)) then Some(AlreadyExists)
      else if HasConflict(references) then Some(MultipleVersions)
      else if MentionsPackage(references, Uploaded(owner, m)) then Some(DependsOnItself)
      else if PackageKey(owner, m.name) !in t.packages && NameTaken(t.packages, owner, m.name) then Some(DifferentCase)
      else None
  }

  /** The tables with one more active version, which has exactly the rows its references name. */
  ghost function Added(t: Tables, self: Reference, references: seq<Reference>): Tables
    requires self.version.Some?
  {
    var package := PackageKey(self.namespace, self.name);
    var row := VersionRow(package, Plain(self.version.value), true, Targets(t.versions, references));
    Tables(t.versions[t.nextPk := row], t.packages + {package}, t.nextPk + 1)
  }

  /** What an operation does to the tables. */
  ghost function Step(t: Tables, op: Op): Tables {
    match op
    case Upload(owner, privileged, m) =>
      if Refusal(t, owner, privileged, m).Some? then t
      else Added(t, Uploaded(owner, m), Parsed(t.versions, m.dependencies))
    case Save(pk, active) =>
      if pk in t.versions then t.(versions := Toggled(t.versions, pk, active)) else t
    case Delete(pk) =>
      if pk in t.versions then t.(versions := Dependencies.Delete(t.versions, pk)) else t
  }

  /** The tables after a sequence of operations on an empty repository. */
  ghost function After(ops: seq<Op>): Tables
    decreases |ops|
  {
    if ops == [] then Tables(map[], {}, 0) else Step(After(ops[..|ops| - 1]), ops[|ops| - 1])
  }

  /** No two packages of an owner have names that differ in case only. */
  ghost predicate NamesUniqueInAnyCase(packages: set<PackageKey>) {
    forall p, q {:trigger SameInAnyCase(p, q.owner, q.name)} ::
      p in packages && q in packages && SameInAnyCase(p, q.owner, q.name) ==> p == q
  }

  /** The graph is sound and releases are unique. */
  ghost predicate Sound(t: Tables) {
    && SoundDeps(t.versions) && NumbersUnique(t.versions) && NamesUniqueInAnyCase(t.packages)
    && forall v :: v in t.versions ==> v < t.nextPk && t.versions[v].package in t.packages
  }

  /** Every package with its cached latest version. */
  type Caches = map<PackageKey, Option<Pk>>

  ghost predicate CachesAreRight(versions: Versions, packages: Caches) {
    forall p :: p in packages ==> IsLatest(versions, p, packages[p])
  }

  class Repository {
    var versions: Versions
    var packages: Caches
    var nextPk: Pk

    ghost function View(): Tables
      reads this
    {
      Tables(versions, packages.Keys, nextPk)
    }

    /** The tables are sound, and every cache holds its package's latest version. */
    ghost predicate Valid()
      reads this
    {
      Sound(View()) && CachesAreRight(versions, packages)
    }

    constructor ()
      ensures Valid() && View() == Tables(map[], {}, 0)
    {
      versions, packages, nextPk := map[], map[], 0;
    }

    /** The cache of one package, recomputed from the table; the others are left alone. */
    method RecacheLatest(package: PackageKey)
      requires package in packages && NumbersUnique(versions)
      modifies `packages
      ensures Refreshed(old(packages), packages, versions, package)
    {
      var oldLatest := packages[package];
      var rows := FetchActive(versions, package);
      var available := AvailableVersions(rows);
      HeadIsLatest(versions, package, rows);
      if oldLatest != Head(available) {
        packages := packages[package := Head(available)];
      }
    }

    method ExistsInAnyCase(owner: string, name: string) returns (found: bool)
      ensures found <==> NameTaken(packages.Keys, owner, name)
    {
      var rest := packages.Keys;
      while rest != {}
        invariant rest <= packages.Keys
        invariant forall p :: p in packages && SameInAnyCase(p, owner, name) ==> p in rest
        decreases rest
      {
        var p :| p in rest;
        if SameInAnyCase(p, owner, name) {
          return true;
        }
        rest := rest - {p};
      }
      return false;
    }

    /** The manifest check of an upload. */
    method ValidateManifest(owner: string, privileged: bool, m: Manifest)
      returns (r: Result<seq<Reference>, UploadError>)
      ensures match Refusal(View(), owner, privileged, m)
              case Some(e) => r == Err(e)
              case None =>
                && r == Ok(Parsed(versions, m.dependencies))
                && Admissible(View(), Uploaded(owner, m), r.value)
    {
      var references := ParseDependencies(versions, m.dependencies);
      if !ValidName(m.name) || !Canonical(m.number) || |m.dependencies| > 1000 || references.None? {
        return Err(InvalidField);
      }
      if !privileged {
        return Err(MissingPrivileges);
      }
      var reference := Reference(owner, m.name, Some(NumberOf(m.number)));
      var existing := Resolve(versions, reference);
      if existing.Some? {
        return Err(AlreadyExists);
      }
      var duplicates := HasDuplicatePackages(references.value);
      if duplicates {
        return Err(MultipleVersions);
      }
      var self := DoesContainPackage(references.value, reference);
      if self {
        return Err(DependsOnItself);
      }
      if PackageKey(owner, m.name) !in packages {
        var clash := ExistsInAnyCase(owner, m.name);
        if clash {
          return Err(DifferentCase);
        }
      }
      return Ok(references.value);
    }

    /** The save of an accepted upload: the new row, its dependency edges and the package's latest version. */
    method SaveUpload(reference: Reference, references: seq<Reference>) returns (pk: Pk)
      requires Valid() && Admissible(View(), reference, references)
      modifies this
      ensures Valid()
      ensures pk == old(nextPk) && View() == Added(old(View()), reference, references)
      ensures pk in versions && versions == old(versions)[pk := versions[pk]]
      ensures versions[pk].package == PackageKey(reference.namespace, reference.name) && versions[pk].active
      ensures versions[pk].number == Plain(reference.version.value)
      ensures forall d :: d in versions[pk].deps <==>
                exists i :: 0 <= i < |references| && Refers(old(versions), references[i], d)
    {
      ghost var before, caches := View(), packages;
      var package := PackageKey(reference.namespace, reference.name);
      var deps := Instances(versions, references);
      pk := nextPk;
      if package !in packages {
        packages := packages[package := None];
      }
      var after := versions[pk := VersionRow(package, Plain(reference.version.value), true, deps)];
      assert NumbersUnique(after) by { AddedIsSound(before, reference, references); }
      ghost var prepared := packages;
      versions, nextPk := after, pk + 1;
      RecacheLatest(package);
      assert Refreshed(prepared, packages, after, package);
      UploadKeepsValid(before, View(), caches, packages, reference, references);
      forall d
        ensures d in deps <==> exists i :: 0 <= i < |references| && Refers(before.versions, references[i], d)
      {
        TargetIsReferred(before.versions, references, d);
      }
    }

    /**
     An upload either is refused and changes nothing, or adds one active version with exactly the rows
     its dependencies name, creating its package if needed and refreshing that package's latest version.
     */
    method UploadPackage(owner: string, privileged: bool, m: Manifest) returns (r: Result<Pk, UploadError>)
      requires Valid()
      modifies this
      ensures Valid()
      ensures match Refusal(old(View()), owner, privileged, m)
              case Some(e) => r == Err(e) && View() == old(View()) && packages == old(packages)
              case None =>
                && r == Ok(old(nextPk)) && r.value !in old(versions)
                && View() == Added(old(View()), Uploaded(owner, m), Parsed(old(versions), m.dependencies))
                && versions == old(versions)[r.value := versions[r.value]]
                && forall d :: d in versions[r.value].deps <==>
                     exists i :: 0 <= i < |m.dependencies| && Refers(old(versions), Parse(m.dependencies[i]).value, d)
    {
      var validated := ValidateManifest(owner, privileged, m);
      if validated.Err? {
        return Err(validated.error);
      }
      ghost var before := versions;
      var pk := SaveUpload(Uploaded(owner, m), validated.value);
      forall d
        ensures d in versions[pk].deps <==>
                exists i :: 0 <= i < |m.dependencies| && Refers(before, Parse(m.dependencies[i]).value, d)
      {
        TargetsOfParsed(before, m.dependencies, d);
      }
      r := Ok(pk);
    }

    /** Saving a version with any activity, which refreshes its package's latest version. */
    method SaveVersion(pk: Pk, active: bool)
      requires Valid() && pk in versions
      modifies `versions, `packages
      ensures Valid()
      ensures versions == Toggled(old(versions), pk, active)
      ensures packages.Keys == old(packages.Keys)
    {
      ghost var before, caches := View(), packages;
      var package := versions[pk].package;
      var after := Toggled(versions, pk, active);
      assert NumbersUnique(after) by { ToggledIsSound(before, pk, active); }
      versions := after;
      RecacheLatest(package);
      assert Refreshed(caches, packages, after, package);
      SaveKeepsValid(before, View(), caches, packages, pk, active);
    }

    /** The database clears a cache that named the deleted version, and then the cache is recomputed. */
    method RecacheDeleted(package: PackageKey, pk: Pk)
      requires package in packages && NumbersUnique(versions)
      modifies `packages
      ensures Refreshed(old(packages), packages, versions, package)
    {
      if packages[package] == Some(pk) {
        packages := packages[package := None];
      }
      RecacheLatest(package);
    }

    /** Deleting a version removes the edges to it, clears a cache that named it, and refreshes the cache. */
    method DeleteVersion(pk: Pk)
      requires Valid() && pk in versions
      modifies `versions, `packages
      ensures Valid()
      ensures versions == Dependencies.Delete(old(versions), pk)
      ensures packages.Keys == old(packages.Keys)
    {
      ghost var before, caches := View(), packages;
      var package := versions[pk].package;
      var after := Dependencies.Delete(versions, pk);
      assert NumbersUnique(after) by { DeletedIsSound(before, pk); }
      versions := after;
      RecacheDeleted(package, pk);
      assert Refreshed(caches, packages, after, package);
      DeleteKeepsValid(before, View(), caches, packages, pk);
    }

    method Apply(op: Op)
      requires Valid()
      modifies this
      ensures Valid() && View() == Step(old(View()), op)
    {
      match op
      case Upload(owner, privileged, m) =>
        var _ := UploadPackage(owner, privileged, m);
      case Save(pk, active) =>
        if pk in versions {
          SaveVersion(pk, active);
        }
      case Delete(pk) =>
        if pk in versions {
          DeleteVersion(pk);
        }
    }
  }

  /**
   A repository that has gone through a sequence of uploads, saves and deletions holds exactly the tables
   these leave, and for every package the newest active version among them.
   */
  method Replay(ops: seq<Op>) returns (repository: Repository)
    ensures repository.View() == After(ops)
    ensures forall p :: p in After(ops).packages ==>
              p in repository.packages && IsLatest(After(ops).versions, p, repository.packages[p])
  {
    repository := new Repository();
    for i := 0 to |ops|
      invariant fresh(repository) && repository.Valid()
      invariant repository.View() == After(ops[..i])
    {
      assert ops[..i + 1][..i] == ops[..i];
      repository.Apply(ops[i]);
    }
    assert ops[..|ops|] == ops;
  }

  /** What the manifest check leaves true for the save. */
  ghost predicate Admissible(t: Tables, self: Reference, references: seq<Reference>) {
    && self.version.Some? && !Resolves(t.versions, self)
    && (forall i :: 0 <= i < |references| ==> references[i].version.Some? && Resolves(t.versions, references[i]))
    && !HasConflict(references) && !MentionsPackage(references, self)
    && (PackageKey(self.namespace, self.name) in t.packages || !NameTaken(t.packages, self.namespace, self.name))
  }

  /** Two tables have the same versions outside one package, up to dependency edges. */
  ghost predicate SameElsewhere(before: Versions, after: Versions, package: PackageKey) {
    && (forall v :: v in before && before[v].package != package ==>
          v in after && after[v].(deps := {}) == before[v].(deps := {}))
    && (forall v :: v in after && after[v].package != package ==>
          v in before && after[v].(deps := {}) == before[v].(deps := {}))
  }

  /** A row that passed the manifest check is sound and does not repeat a release. */
  lemma AddedIsSound(t: Tables, self: Reference, references: seq<Reference>)
    requires Sound(t) && Admissible(t, self, references)
    ensures Sound(Added(t, self, references))
    ensures SameElsewhere(t.versions, Added(t, self, references).versions, PackageKey(self.namespace, self.name))
  {
    var row := Added(t, self, references).versions[t.nextPk];
    NewRowIsSound(t, row, self, references);
    AddKeepsSound(t.versions, t.nextPk, row);
    NewRowIsNewRelease(t.versions, row, self);
    NewNameIsUnique(t.packages, row.package);
  }

  lemma NewRowIsSound(t: Tables, row: VersionRow, self: Reference, references: seq<Reference>)
    requires Sound(t) && Admissible(t, self, references)
    requires row.package == PackageKey(self.namespace, self.name) && row.deps == Targets(t.versions, references)
    ensures SoundRow(t.versions, t.nextPk, row)
  {
    forall d | d in row.deps
      ensures d in t.versions && t.versions[d].package != row.package
    {
      var i := Referrer(t.versions, references, d);
      assert !references[i].SamePackage(self);
    }
    forall d, e | d in row.deps && e in row.deps && t.versions[d].package == t.versions[e].package
      ensures d == e
    {
      var i := Referrer(t.versions, references, d);
      var j := Referrer(t.versions, references, e);
      assert !Conflict(references[i], references[j]);
      ReferentIsUnique(t.versions, references[i], d, e);
    }
  }

  lemma NewRowIsNewRelease(versions: Versions, row: VersionRow, self: Reference)
    requires self.version.Some? && !Resolves(versions, self)
    requires row.package == PackageKey(self.namespace, self.name) && row.number == Plain(self.version.value)
    ensures forall v :: v in versions ==> !SameRelease(versions[v], row) && !SameRelease(row, versions[v])
  {
    forall v | v in versions
      ensures !SameRelease(versions[v], row)
    {
      assert !Refers(versions, self, v);
    }
  }

  lemma NewNameIsUnique(packages: set<PackageKey>, package: PackageKey)
    requires NamesUniqueInAnyCase(packages)
    requires package in packages || !NameTaken(packages, package.owner, package.name)
    ensures NamesUniqueInAnyCase(packages + {package})
  {
  }

  lemma Referrer(versions: Versions, references: seq<Reference>, pk: Pk) returns (i: nat)
    requires pk in Targets(versions, references)
    ensures i < |references| && Refers(versions, references[i], pk)
  {
    TargetIsReferred(versions, references, pk);
    i :| 0 <= i < |references| && Refers(versions, references[i], pk);
  }

  lemma ToggledIsSound(t: Tables, pk: Pk, active: bool)
    requires Sound(t) && pk in t.versions
    ensures Sound(t.(versions := Toggled(t.versions, pk, active)))
    ensures SameElsewhere(t.versions, Toggled(t.versions, pk, active), t.versions[pk].package)
  {
    ToggleKeepsSound(t.versions, pk, active);
  }

  lemma DeletedIsSound(t: Tables, pk: Pk)
    requires Sound(t) && pk in t.versions
    ensures Sound(t.(versions := Dependencies.Delete(t.versions, pk)))
    ensures SameElsewhere(t.versions, Dependencies.Delete(t.versions, pk), t.versions[pk].package)
  {
    DeleteKeepsSound(t.versions, pk);
  }

  /** Every accepted upload is admissible. */
  lemma AcceptedIsAdmissible(t: Tables, owner: string, m: Manifest)
    requires Refusal(t, owner, true, m).None?
    ensures Admissible(t, Uploaded(owner, m), Parsed(t.versions, m.dependencies))
  {
  }

  /** After every sequence of uploads, saves and deletions: a sound table, and so no circular dependency. */
  lemma {:induction false} AfterIsSoundAndAcyclic(ops: seq<Op>)
    ensures Sound(After(ops)) && Acyclic(After(ops).versions)
    decreases |ops|
  {
    if ops != [] {
      var t, op := After(ops[..|ops| - 1]), ops[|ops| - 1];
      AfterIsSoundAndAcyclic(ops[..|ops| - 1]);
      match op
      case Upload(owner, privileged, m) =>
        if Refusal(t, owner, privileged, m).None? {
          AcceptedIsAdmissible(t, owner, m);
          AddedIsSound(t, Uploaded(owner, m), Parsed(t.versions, m.dependencies));
        }
      case Save(pk, active) =>
        if pk in t.versions {
          ToggledIsSound(t, pk, active);
        }
      case Delete(pk) =>
        if pk in t.versions {
          DeletedIsSound(t, pk);
        }
    }
    SoundIsAcyclic(After(ops).versions);
  }

  /** The cache of one package was refreshed and the others left alone. */
  ghost predicate Refreshed(caches: Caches, caches': Caches, after: Versions, package: PackageKey) {
    && package in caches && caches'.Keys == caches.Keys
    && (forall p :: p in caches && p != package ==> caches'[p] == caches[p])
    && IsLatest(after, package, caches'[package])
  }

  lemma LatestElsewhere(before: Versions, after: Versions, package: PackageKey, p: PackageKey, latest: Option<Pk>)
    requires SameElsewhere(before, after, package) && p != package && IsLatest(before, p, latest)
    ensures IsLatest(after, p, latest)
  {
    forall v
      ensures IsActiveOf(after, p, v) <==> IsActiveOf(before, p, v)
      ensures IsActiveOf(after, p, v) ==> after[v].number == before[v].number
    {
    }
  }

  /** A change confined to one package, whose cache is then refreshed, keeps every cache right. */
  lemma ChangeKeepsCaches(before: Versions, after: Versions, caches: Caches, caches': Caches, package: PackageKey)
    requires CachesAreRight(before, caches) && SameElsewhere(before, after, package)
    requires caches'.Keys == caches.Keys + {package}
    requires forall p :: p in caches && p != package ==> caches'[p] == caches[p]
    requires IsLatest(after, package, caches'[package])
    ensures CachesAreRight(after, caches')
  {
    forall p | p in caches'
      ensures IsLatest(after, p, caches'[p])
    {
      if p != package {
        LatestElsewhere(before, after, package, p, caches[p]);
      }
    }
  }

  /** Every cache is right after a change of one package's rows and the refresh of its cache. */
  lemma RefreshKeepsCaches(before: Versions, after: Versions, caches: Caches, caches': Caches, package: PackageKey)
    requires CachesAreRight(before, caches) && SameElsewhere(before, after, package)
    requires Refreshed(caches, caches', after, package)
    ensures CachesAreRight(after, caches')
  {
    assert caches.Keys + {package} == caches.Keys;
    ChangeKeepsCaches(before, after, caches, caches', package);
  }

  lemma UploadKeepsValid(t: Tables, t': Tables, caches: Caches, caches': Caches,
                         self: Reference, references: seq<Reference>)
    requires Sound(t) && t.packages == caches.Keys && CachesAreRight(t.versions, caches)
    requires Admissible(t, self, references) && t' == Added(t, self, references) && t'.packages == caches'.Keys
    requires var package := PackageKey(self.namespace, self.name);
             && IsLatest(t'.versions, package, caches'[package])
             && forall p :: p in caches && p != package ==> caches'[p] == caches[p]
    ensures Sound(t') && CachesAreRight(t'.versions, caches')
  {
    AddedIsSound(t, self, references);
    ChangeKeepsCaches(t.versions, t'.versions, caches, caches', PackageKey(self.namespace, self.name));
  }

  lemma SaveKeepsValid(t: Tables, t': Tables, caches: Caches, caches': Caches, pk: Pk, active: bool)
    requires Sound(t) && CachesAreRight(t.versions, caches) && pk in t.versions
    requires t' == t.(versions := Toggled(t.versions, pk, active))
    requires Refreshed(caches, caches', t'.versions, t.versions[pk].package)
    ensures Sound(t') && CachesAreRight(t'.versions, caches')
  {
    ToggledIsSound(t, pk, active);
    RefreshKeepsCaches(t.versions, t'.versions, caches, caches', t.versions[pk].package);
  }

  lemma DeleteKeepsValid(t: Tables, t': Tables, caches: Caches, caches': Caches, pk: Pk)
    requires Sound(t) && CachesAreRight(t.versions, caches) && pk in t.versions
    requires t' == t.(versions := Dependencies.Delete(t.versions, pk))
    requires Refreshed(caches, caches', t'.versions, t.versions[pk].package)
    ensures Sound(t') && CachesAreRight(t'.versions, caches')
  {
    DeletedIsSound(t, pk);
    RefreshKeepsCaches(t.versions, t'.versions, caches, caches', t.versions[pk].package);
  }

  // ----- what each operation does to the tables -----

  lemma AfterSnoc(ops: seq<Op>, op: Op)
    ensures After(ops + [op]) == Step(After(ops), op)
  {
    assert (ops + [op])[..|ops|] == ops;
  }

  lemma {:induction false} NextKeyIsNew(ops: seq<Op>)
    ensures After(ops).nextPk !in After(ops).versions
  {
    AfterIsSoundAndAcyclic(ops);
  }

  lemma {:induction false} TargetsOfParsed(versions: Versions, texts: seq<string>, d: Pk)
    requires ValidDependencies(versions, texts)
    ensures d in Targets(versions, Parsed(versions, texts)) <==>
            exists i :: 0 <= i < |texts| && Refers(versions, Parse(texts[i]).value, d)
  {
    var references := Parsed(versions, texts);
    TargetIsReferred(versions, references, d);
    if i :| 0 <= i < |texts| && Refers(versions, Parse(texts[i]).value, d) {
      assert Refers(versions, references[i], d);
    }
  }

  /**
   After any history an accepted upload adds one row under a new key: of the uploader's package, with the
   number that was written, active, and depending on exactly the rows that its dependency texts name.
   Every other row stays as it was.
   */
  lemma {:induction false} UploadAddsItsVersion(ops: seq<Op>, owner: string, m: Manifest)
    requires Refusal(After(ops), owner, true, m).None?
    ensures var t, u := After(ops), After(ops + [Upload(owner, true, m)]);
            && t.nextPk !in t.versions && u.nextPk == t.nextPk + 1
            && u.packages == t.packages + {PackageKey(owner, m.name)}
            && u.versions.Keys == t.versions.Keys + {t.nextPk}
            && (forall v :: v in t.versions ==> u.versions[v] == t.versions[v])
            && var row := u.versions[t.nextPk];
               && row.package == PackageKey(owner, m.name) && row.active
               && VersionStr(row.number) == m.number && row.number.pre.None?
               && forall d :: d in row.deps <==>
                    exists i :: 0 <= i < |m.dependencies| && Refers(t.versions, Parse(m.dependencies[i]).value, d)
  {
    var t := After(ops);
    AfterSnoc(ops, Upload(owner, true, m));
    NextKeyIsNew(ops);
    NumberIsPrinted(m.number);
    TargetsAreNamed(t.versions, m.dependencies);
  }

  lemma NumberIsPrinted(number: string)
    requires Canonical(number)
    ensures VersionStr(Plain(NumberOf(number))) == number
  {
  }

  lemma TargetsAreNamed(versions: Versions, texts: seq<string>)
    requires ValidDependencies(versions, texts)
    ensures forall d :: d in Targets(versions, Parsed(versions, texts)) <==>
              exists i :: 0 <= i < |texts| && Refers(versions, Parse(texts[i]).value, d)
  {
    forall d
      ensures d in Targets(versions, Parsed(versions, texts)) <==>
              exists i :: 0 <= i < |texts| && Refers(versions, Parse(texts[i]).value, d)
    {
      TargetsOfParsed(versions, texts, d);
    }
  }

  /** A dependency text of an accepted upload names one row and no other. */
  lemma {:induction false} DependencyNamesOneRow(ops: seq<Op>, owner: string, privileged: bool, m: Manifest, i: nat)
    requires Refusal(After(ops), owner, privileged, m).None? && i < |m.dependencies|
    ensures exists d :: Refers(After(ops).versions, Parse(m.dependencies[i]).value, d)
              && forall e :: Refers(After(ops).versions, Parse(m.dependencies[i]).value, e) ==> e == d
  {
    var versions := After(ops).versions;
    AfterIsSoundAndAcyclic(ops);
    assert ValidDependency(versions, m.dependencies[i]);
    var d :| Refers(versions, Parse(m.dependencies[i]).value, d);
    forall e | Refers(versions, Parse(m.dependencies[i]).value, e)
      ensures e == d
    {
      ReferentIsUnique(versions, Parse(m.dependencies[i]).value, e, d);
    }
  }

  /** A refused upload leaves no trace. */
  lemma {:induction false} RefusedUploadChangesNothing(ops: seq<Op>, owner: string, privileged: bool, m: Manifest)
    requires Refusal(After(ops), owner, privileged, m).Some?
    ensures After(ops + [Upload(owner, privileged, m)]) == After(ops)
  {
    AfterSnoc(ops, Upload(owner, privileged, m));
  }

  /** A save sets the activity of its row and changes nothing else. */
  lemma SaveSetsActivity(ops: seq<Op>, pk: Pk, active: bool)
    ensures var t, u := After(ops), After(ops + [Save(pk, active)]);
            && u.packages == t.packages && u.nextPk == t.nextPk && u.versions.Keys == t.versions.Keys
            && forall v :: v in t.versions ==>
                 && u.versions[v].package == t.versions[v].package && u.versions[v].number == t.versions[v].number
                 && u.versions[v].deps == t.versions[v].deps
                 && u.versions[v].active == if v == pk then active else t.versions[v].active
  {
    AfterSnoc(ops, Save(pk, active));
  }

  /** A deletion removes its row and the edges to it and changes nothing else. */
  lemma {:induction false} DeleteRemovesRow(ops: seq<Op>, pk: Pk)
    ensures var t, u := After(ops), After(ops + [Delete(pk)]);
            && u.packages == t.packages && u.nextPk == t.nextPk && u.versions.Keys == t.versions.Keys - {pk}
            && forall v :: v in u.versions ==>
                 && u.versions[v].package == t.versions[v].package && u.versions[v].number == t.versions[v].number
                 && u.versions[v].active == t.versions[v].active
                 && forall d :: d in u.versions[v].deps <==> d in t.versions[v].deps && d != pk
  {
    AfterSnoc(ops, Delete(pk));
    AfterIsSoundAndAcyclic(ops);
    var t := After(ops);
    if pk !in t.versions {
      forall v | v in t.versions
        ensures pk !in t.versions[v].deps
      {
        assert SoundRow(t.versions, v, t.versions[v]);
      }
    }
  }

  // ----- what an upload is refused for -----

  /** The same letter in upper or lower case, or the same character. */
  predicate SameLetter(a: char, b: char) {
    || a == b
    || ('A' <= a <= 'Z' && b as int == a as int + 32)
    || ('A' <= b <= 'Z' && a as int == b as int + 32)
  }

  /** Names clash if they are equally long and agree letter by letter in whatever case. */
  lemma FoldedIff(a: string, b: string)
    ensures Folded(a) == Folded(b) <==> |a| == |b| && forall i :: 0 <= i < |a| ==> SameLetter(a[i], b[i])
  {
    if Folded(a) == Folded(b) {
      assert |a| == |Folded(a)| == |Folded(b)| == |b|;
      forall i | 0 <= i < |a|
        ensures SameLetter(a[i], b[i])
      {
        assert Folded(a)[i] == Folded(b)[i];
      }
    }
  }

  /** The conditions for which an upload is refused, in the order of the checks. */
  const REFUSALS := [InvalidField, MissingPrivileges, AlreadyExists, MultipleVersions, DependsOnItself, DifferentCase]

  /** A dependency text that does not parse, has no version or names no row. */
  ghost predicate Unresolved(versions: Versions, text: string) {
    Parse(text).Err? || Parse(text).value.version.None? || forall d :: !Refers(versions, Parse(text).value, d)
  }

  /** The parsed references of two dependency texts. */
  predicate SamePackageText(a: string, b: string) {
    && Parse(a).Ok? && Parse(b).Ok?
    && Parse(a).value.namespace == Parse(b).value.namespace && Parse(a).value.name == Parse(b).value.name
  }

  predicate ForbiddenInName(c: char) {
    !('a' <= c <= 'z' || 'A' <= c <= 'Z' || '0' <= c <= '9' || c == '_')
  }

  /** The condition numbered `k`, read off the manifest and the tables. */
  ghost predicate Fails(t: Tables, owner: string, privileged: bool, m: Manifest, k: nat) {
    if k == 0 then
      || m.name == "" || (exists c :: c in m.name && ForbiddenInName(c))
      || (forall a: nat, b: nat, c: nat :: m.number != VersionStr(Release(a, b, c)))
      || |m.dependencies| > 1000 || (exists i :: 0 <= i < |m.dependencies| && Unresolved(t.versions, m.dependencies[i]))
    else if k == 1 then !privileged
    else if k == 2 then
      exists v :: v in t.versions && t.versions[v].package == PackageKey(owner, m.name)
        && VersionStr(t.versions[v].number) == m.number && t.versions[v].number.pre.None?
    else if k == 3 then
      exists i, j :: 0 <= i < |m.dependencies| && 0 <= j < |m.dependencies|
        && SamePackageText(m.dependencies[i], m.dependencies[j])
        && Parse(m.dependencies[i]) != Parse(m.dependencies[j])
    else if k == 4 then
      exists i :: 0 <= i < |m.dependencies| && SamePackageText(m.dependencies[i], m.dependencies[i])
        && Parse(m.dependencies[i]).value.namespace == owner && Parse(m.dependencies[i]).value.name == m.name
    else
      && PackageKey(owner, m.name) !in t.packages
      && exists p :: p in t.packages && p.owner == owner && Folded(p.name) == Folded(m.name)
  }

  lemma FieldsFailIff(t: Tables, owner: string, privileged: bool, m: Manifest)
    ensures Fails(t, owner, privileged, m, 0) <==> !FieldsValid(t.versions, m)
  {
    AcceptsExactlyCanonical(m.number);
    forall i | 0 <= i < |m.dependencies|
      ensures Unresolved(t.versions, m.dependencies[i]) <==> !ValidDependency(t.versions, m.dependencies[i])
    {
    }
    assert (exists c :: c in m.name && ForbiddenInName(c)) || m.name == "" <==> !ValidName(m.name);
  }

  lemma ExistingFailsIff(t: Tables, owner: string, privileged: bool, m: Manifest)
    requires FieldsValid(t.versions, m)
    ensures Fails(t, owner, privileged, m, 2) <==> Resolves(t.versions, Uploaded(owner, m))
  {
    var number := NumberOf(m.number);
    forall v | v in t.versions && t.versions[v].number.pre.None?
      ensures VersionStr(t.versions[v].number) == m.number <==> t.versions[v].number == Plain(number)
    {
      SameStrIffSamePlain(t.versions[v].number, number);
    }
    forall v | Refers(t.versions, Uploaded(owner, m), v)
      ensures Fails(t, owner, privileged, m, 2)
    {
      SameStrIffSamePlain(t.versions[v].number, number);
    }
    if v :| v in t.versions && t.versions[v].package == PackageKey(owner, m.name)
            && VersionStr(t.versions[v].number) == m.number && t.versions[v].number.pre.None? {
      assert Refers(t.versions, Uploaded(owner, m), v);
    }
  }

  lemma ReferencesFailIff(t: Tables, owner: string, privileged: bool, m: Manifest)
    requires FieldsValid(t.versions, m)
    ensures var references := Parsed(t.versions, m.dependencies);
            && (Fails(t, owner, privileged, m, 3) <==> HasConflict(references))
            && (Fails(t, owner, privileged, m, 4) <==> MentionsPackage(references, Uploaded(owner, m)))
  {
    var references := Parsed(t.versions, m.dependencies);
    forall i | 0 <= i < |m.dependencies|
      ensures Parse(m.dependencies[i]) == Ok(references[i])
    {
      assert ValidDependency(t.versions, m.dependencies[i]);
    }
    if i, j :| 0 <= i < |references| && 0 <= j < |references| && Conflict(references[i], references[j]) {
      assert SamePackageText(m.dependencies[i], m.dependencies[j]);
    }
    if i, j :| 0 <= i < |m.dependencies| && 0 <= j < |m.dependencies|
               && SamePackageText(m.dependencies[i], m.dependencies[j])
               && Parse(m.dependencies[i]) != Parse(m.dependencies[j]) {
      assert Conflict(references[i], references[j]);
    }
    if i :| 0 <= i < |references| && references[i].SamePackage(Uploaded(owner, m)) {
      assert SamePackageText(m.dependencies[i], m.dependencies[i]);
    }
  }

  /** The first check that fails. */
  ghost predicate FailsFirst(t: Tables, owner: string, privileged: bool, m: Manifest, k: nat) {
    Fails(t, owner, privileged, m, k) && forall j: nat :: j < k ==> !Fails(t, owner, privileged, m, j)
  }

  lemma RefusalIsFailure(t: Tables, owner: string, privileged: bool, m: Manifest)
    ensures var e := Refusal(t, owner, privileged, m);
            if Fails(t, owner, privileged, m, 0) then e == Some(InvalidField)
            else if Fails(t, owner, privileged, m, 1) then e == Some(MissingPrivileges)
            else if Fails(t, owner, privileged, m, 2) then e == Some(AlreadyExists)
            else if Fails(t, owner, privileged, m, 3) then e == Some(MultipleVersions)
            else if Fails(t, owner, privileged, m, 4) then e == Some(DependsOnItself)
            else if Fails(t, owner, privileged, m, 5) then e == Some(DifferentCase)
            else e == None
  {
    FieldsFailIff(t, owner, privileged, m);
    if FieldsValid(t.versions, m) {
      ExistingFailsIff(t, owner, privileged, m);
      ReferencesFailIff(t, owner, privileged, m);
    }
    assert Fails(t, owner, privileged, m, 5) <==>
        PackageKey(owner, m.name) !in t.packages && NameTaken(t.packages, owner, m.name);
  }

  /** An upload is refused for the first condition that fails, and accepted if none does. */
  lemma FirstFailureDecides(t: Tables, owner: string, privileged: bool, m: Manifest, k: nat)
    requires k < 6
    ensures Refusal(t, owner, privileged, m) == Some(REFUSALS[k]) <==> FailsFirst(t, owner, privileged, m, k)
    ensures Refusal(t, owner, privileged, m).None? <==> forall j: nat :: j < 6 ==> !Fails(t, owner, privileged, m, j)
  {
    RefusalIsFailure(t, owner, privileged, m);
  }
}
