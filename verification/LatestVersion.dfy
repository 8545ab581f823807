/**
 A package's active versions, newest first. Two pieces of code compute this list independently; both
 must agree whatever order the database returns rows in.
 */
module LatestVersion {
  import opened Prelude
  import opened Sorting
  import opened Version
  import opened Dependencies

  /** A row as `values_list("pk", "version_number")` gives it. */
  datatype Candidate = Candidate(pk: Pk, number: StrictVersion)

  function ByNumber(): (Candidate, Candidate) -> bool {
    (a: Candidate, b: Candidate) => Compare(a.number, b.number) <= 0
  }

  /** The primary keys of a package's active versions, and those rows. */
  ghost predicate IsActiveOf(versions: Versions, package: PackageKey, pk: Pk) {
    pk in versions && versions[pk].package == package && versions[pk].active
  }

  function ActiveRows(versions: Versions, package: PackageKey): set<Candidate> {
    set pk | pk in versions && versions[pk].package == package && versions[pk].active ::
      Candidate(pk, versions[pk].number)
  }

  predicate SameRelease(a: VersionRow, b: VersionRow) {
    a.package == b.package && a.number == b.number
  }

  /** No two rows of a package share a version number. */
  ghost predicate NumbersUnique(versions: Versions) {
    forall v, w :: v in versions && w in versions && SameRelease(versions[v], versions[w]) ==> v == w
  }

  /** The newest active version, or none when no version is active. */
  ghost predicate IsLatest(versions: Versions, package: PackageKey, latest: Option<Pk>) {
    match latest
    case None => forall v :: !IsActiveOf(versions, package, v)
    case Some(pk) =>
      && IsActiveOf(versions, package, pk)
      && forall v :: IsActiveOf(versions, package, v) && v != pk ==>
           Less(versions[v].number, versions[pk].number)
  }

  /** There is only one newest active version. */
  lemma LatestIsUnique(versions: Versions, package: PackageKey, a: Option<Pk>, b: Option<Pk>)
    requires IsLatest(versions, package, a) && IsLatest(versions, package, b)
    ensures a == b
  {
    if a.Some? && b.Some? && a != b {
      LessIsStrictTotal(versions[a.value].number, versions[b.value].number);
    }
  }

  // ----- the two lists -----

  /** `list(reversed(sorted(rows, key=...)))`, as the package's `available_versions` orders them. */
  function AvailableVersions(rows: seq<Candidate>): seq<Candidate> {
    Reverse(Sort(ByNumber(), rows))
  }

  /** `rows.sort(key=..., reverse=True)`, as the JSON cache orders them. */
  function SortedActiveVersions(rows: seq<Candidate>): seq<Candidate> {
    Reverse(Sort(ByNumber(), Reverse(rows)))
  }

  lemma NumberOrderIsTotal()
    ensures TotalPreorder(ByNumber())
  {
    forall x: Candidate, y: Candidate
      ensures ByNumber()(x, y) || ByNumber()(y, x)
    {
      LessIsStrictTotal(x.number, y.number);
    }
    forall x: Candidate, y: Candidate, z: Candidate | ByNumber()(x, y) && ByNumber()(y, z)
      ensures ByNumber()(x, z)
    {
      var a, b, c := x.number, y.number, z.number;
      LessIsStrictTotal(a, b);
      LessIsStrictTotal(b, c);
      if a != b && b != c {
        LessIsTransitive(a, b, c);
      }
    }
  }

  lemma RowsAreDistinct(versions: Versions, package: PackageKey, rows: seq<Candidate>)
    requires NumbersUnique(versions) && multiset(rows) == multiset(ActiveRows(versions, package))
    ensures DistinctKeys(ByNumber(), rows)
    ensures forall x :: x in rows <==> x in ActiveRows(versions, package)
  {
    forall x
      ensures x in rows <==> x in ActiveRows(versions, package)
    {
      assert x in rows <==> x in multiset(rows);
    }
    forall x, y | x in rows && y in rows && ByNumber()(x, y) && ByNumber()(y, x)
      ensures x == y
    {
      LessIsStrictTotal(x.number, y.number);
      assert SameRelease(versions[x.pk], versions[y.pk]);
    }
  }

  /** Both computations give the same list, whatever order each was given the rows in. */
  lemma ListsAgree(versions: Versions, package: PackageKey, a: seq<Candidate>, b: seq<Candidate>)
    requires NumbersUnique(versions)
    requires multiset(a) == multiset(b) == multiset(ActiveRows(versions, package))
    ensures AvailableVersions(a) == SortedActiveVersions(b)
  {
    NumberOrderIsTotal();
    ReverseMultiset(b);
    SortSorts(ByNumber(), a);
    SortSorts(ByNumber(), Reverse(b));
    RowsAreDistinct(versions, package, Sort(ByNumber(), a));
    SortedIsUnique(ByNumber(), Sort(ByNumber(), a), Sort(ByNumber(), Reverse(b)));
  }

  /** The list is the active versions, strictly newest first. */
  lemma AvailableIsDescending(versions: Versions, package: PackageKey, rows: seq<Candidate>)
    requires NumbersUnique(versions) && multiset(rows) == multiset(ActiveRows(versions, package))
    ensures var list := AvailableVersions(rows);
            && multiset(list) == multiset(rows)
            && (forall x :: x in list <==>
                  && x.pk in versions && versions[x.pk].package == package && versions[x.pk].active
                  && x.number == versions[x.pk].number)
            && forall i, j :: 0 <= i < j < |list| ==> Less(list[j].number, list[i].number)
  {
    NumberOrderIsTotal();
    SortSorts(ByNumber(), rows);
    var sorted := Sort(ByNumber(), rows);
    ReverseMultiset(sorted);
    RowsAreDistinct(versions, package, sorted);
    SortedIsStrict(versions, package, sorted);
    ListedIffActive(versions, package, AvailableVersions(rows));
  }

  lemma ListedIffActive(versions: Versions, package: PackageKey, list: seq<Candidate>)
    requires multiset(list) == multiset(ActiveRows(versions, package))
    ensures forall x :: x in list <==>
              && x.pk in versions && versions[x.pk].package == package && versions[x.pk].active
              && x.number == versions[x.pk].number
  {
    forall x
      ensures x in list <==> x in ActiveRows(versions, package)
    {
      assert x in list <==> x in multiset(list);
    }
  }

  /** What it takes to be a package's latest version, or to have none, spelled out over the rows. */
  lemma IsLatestIff(versions: Versions, package: PackageKey, latest: Option<Pk>)
    ensures IsLatest(versions, package, latest) <==>
            if latest.None? then forall v :: v in versions && versions[v].package == package ==> !versions[v].active
            else
              && latest.value in versions && versions[latest.value].package == package
              && versions[latest.value].active
              && forall v | v in versions && versions[v].package == package && versions[v].active ::
                   v != latest.value ==> Compare(versions[v].number, versions[latest.value].number) < 0
  {
    forall v
      ensures IsActiveOf(versions, package, v) <==>
              v in versions && versions[v].package == package && versions[v].active
    {
    }
    if latest.Some? {
      var pk := latest.value;
      if IsLatest(versions, package, latest) {
        forall v | v in versions && versions[v].package == package && versions[v].active && v != pk
          ensures Compare(versions[v].number, versions[pk].number) < 0
        {
          assert IsActiveOf(versions, package, v);
        }
      }
    } else if IsLatest(versions, package, latest) {
      forall v | v in versions && versions[v].package == package
        ensures !versions[v].active
      {
        assert !IsActiveOf(versions, package, v);
      }
    }
  }

  lemma SortedIsStrict(versions: Versions, package: PackageKey, sorted: seq<Candidate>)
    requires NumbersUnique(versions) && multiset(sorted) == multiset(ActiveRows(versions, package))
    requires SortedBy(ByNumber(), sorted) && DistinctKeys(ByNumber(), sorted)
    ensures forall i, j :: 0 <= i < j < |sorted| ==> Less(sorted[i].number, sorted[j].number)
  {
    forall i, j | 0 <= i < j < |sorted|
      ensures Less(sorted[i].number, sorted[j].number)
    {
      assert ByNumber()(sorted[i], sorted[j]);
      LessIsStrictTotal(sorted[i].number, sorted[j].number);
      if Compare(sorted[i].number, sorted[j].number) == 0 {
        assert sorted[i] == sorted[j];
        Twice(sorted, i, j);
        assert false;
      }
    }
  }

  lemma Twice(s: seq<Candidate>, i: nat, j: nat)
    requires i < j < |s| && s[i] == s[j]
    ensures multiset(s)[s[i]] >= 2
  {
    assert s == s[..i] + [s[i]] + s[i + 1..];
    assert s[i + 1..][j - i - 1] == s[j];
    assert s[j] in s[i + 1..];
  }

  function Head(list: seq<Candidate>): Option<Pk> {
    if list == [] then None else Some(list[0].pk)
  }

  /** The head of the list is the newest active version. */
  lemma HeadIsLatest(versions: Versions, package: PackageKey, rows: seq<Candidate>)
    requires NumbersUnique(versions) && multiset(rows) == multiset(ActiveRows(versions, package))
    ensures IsLatest(versions, package, Head(AvailableVersions(rows)))
  {
    var list := AvailableVersions(rows);
    AvailableIsDescending(versions, package, rows);
    assert forall x :: x in list <==> x in multiset(list);
    forall v | IsActiveOf(versions, package, v)
      ensures Candidate(v, versions[v].number) in list
    {
      assert Candidate(v, versions[v].number) in ActiveRows(versions, package);
    }
    if list != [] {
      assert list[0] in list && list[0] in ActiveRows(versions, package);
      forall v | IsActiveOf(versions, package, v) && v != list[0].pk
        ensures Less(versions[v].number, list[0].number)
      {
        var i :| 0 <= i < |list| && list[i] == Candidate(v, versions[v].number);
      }
    }
  }

  /** A query for a package's active versions: those rows, in the database's order. */
  method FetchActive(versions: Versions, package: PackageKey) returns (rows: seq<Candidate>)
    ensures multiset(rows) == multiset(ActiveRows(versions, package))
  {
    rows := [];
    var rest := ActiveRows(versions, package);
    while rest != {}
      invariant multiset(rows) + multiset(rest) == multiset(ActiveRows(versions, package))
      decreases rest
    {
      var row :| row in rest;
      assert multiset(rest) == multiset{row} + multiset(rest - {row});
      rows, rest := rows + [row], rest - {row};
    }
  }
}
