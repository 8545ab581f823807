/** Package references, `{namespace}-{name}` or `{namespace}-{name}-{version}`. */
module Reference {
  import opened Prelude
  import opened Text
  import opened Version

  datatype Reference = Reference(namespace: string, name: string, version: Option<StrictVersion>) {
    function WithoutVersion(): Reference {
      if version.Some? then Reference(namespace, name, None) else this
    }

    predicate SamePackage(other: Reference) {
      namespace == other.namespace && name == other.name
    }

    /** `__eq__`: a version is never equal to a missing one. */
    predicate SameVersion(other: Reference) {
      && SamePackage(other)
      && (version.None? <==> other.version.None?)
      && (version.Some? && other.version.Some? ==> Compare(version.value, other.version.value) == 0)
    }
  }

  datatype ParseError = InvalidFormat | InvalidVersion

  // ----- printing and parsing -----

  function Str(r: Reference): string {
    var package := r.namespace + "-" + r.name;
    if r.version.Some? then package + "-" + VersionStr(r.version.value) else package
  }

  /** `s[:-k]` */
  function DropRight(s: string, k: nat): string { s[..Max(0, |s| - k)] }

  function ParsePackage(s: string, version: Option<StrictVersion>): Result<Reference, ParseError> {
    var parts := Split(s, '-');
    var name := Last(parts);
    var namespace := Join(Front(parts), '-');
    if namespace == "" || name == "" then Err(InvalidFormat)
    else Ok(Reference(namespace, name, version))
  }

  function Parse(s: string): Result<Reference, ParseError> {
    var last := Last(Split(s, '-'));
    if Count(last, '.') == 0 then ParsePackage(s, None)
    else if Count(last, '.') != 2 || Count(s, '-') < 2 then Err(InvalidFormat)
    else
      match ParseVersion(last)
      case Err(_) => Err(InvalidVersion)
      case Ok(v) => ParsePackage(DropRight(s, |last| + 1), Some(v))
  }

  // ----- the printer and the parser undo each other -----

  lemma ParsePackageOfStr(namespace: string, name: string, version: Option<StrictVersion>)
    ensures '-' !in name && namespace != "" && name != "" ==>
              ParsePackage(namespace + "-" + name, version) == Ok(Reference(namespace, name, version))
  {
    if '-' !in name {
      SplitOfSuffix(namespace, name, '-');
      JoinOfSplit(namespace, '-');
      assert Front(Split(namespace, '-') + [name]) == Split(namespace, '-');
    }
  }

  /** Splitting a text that ends in a separator-free word. */
  lemma {:induction false} LastOfSuffix(s: string, p: string)
    requires '-' !in p
    ensures Last(Split(s + "-" + p, '-')) == p
    ensures Count(s + "-" + p, '-') == |Split(s, '-')|
    ensures DropRight(s + "-" + p, |p| + 1) == s
  {
    SplitOfSuffix(s, p, '-');
    CountIsParts(s + "-" + p, '-');
  }

  lemma VersionStrWord(v: StrictVersion)
    ensures '-' !in VersionStr(v) && Count(VersionStr(v), '.') == 2
  {
    SplitOfVersionStr(v);
    CountIsParts(VersionStr(v), '.');
  }

  /** The references that survive printing and parsing. */
  predicate Printable(r: Reference) {
    && r.namespace != ""
    && r.name != "" && '-' !in r.name
    && (r.version.None? ==> '.' !in r.name)
    && (r.version.Some? ==> r.version.value.pre.None?)
  }

  lemma ParseOfVersioned(r: Reference)
    requires r.version.Some?
    ensures Parse(Str(r)) ==
            if |Split(r.namespace + "-" + r.name, '-')| < 2 then Err(InvalidFormat)
            else ParsePackage(r.namespace + "-" + r.name, Some(r.version.value.(pre := None)))
  {
    var v := r.version.value;
    VersionStrWord(v);
    ParseOfVersionStr(v);
    LastOfSuffix(r.namespace + "-" + r.name, VersionStr(v));
  }

  /** Whatever the parser accepts as the package part has a non-empty, dash-free name. */
  lemma ParsePackageResult(s: string, version: Option<StrictVersion>)
    requires ParsePackage(s, version).Ok?
    ensures var r := ParsePackage(s, version).value;
            && r.namespace != "" && r.name != "" && '-' !in r.name && r.version == version
            && s == r.namespace + "-" + r.name
            && r.name == Last(Split(s, '-'))
  {
    var parts := Split(s, '-');
    assert Last(parts) in parts;
    FrontOfSplit(s, '-');
  }

  /** Parsing the printed form gives the reference back exactly for the printable ones. */
  lemma {:induction false} ParseOfStr(r: Reference)
    ensures Parse(Str(r)) == Ok(r) <==> Printable(r)
  {
    var package := r.namespace + "-" + r.name;
    if Printable(r) {
      ParsePackageOfStr(r.namespace, r.name, r.version);
      if r.version.Some? {
        ParseOfVersioned(r);
        SplitOfConcat(r.namespace, r.name, '-');
      } else {
        LastOfSuffix(r.namespace, r.name);
        CountZero(r.name, '.');
      }
    }
    if Parse(Str(r)) == Ok(r) {
      if r.version.Some? {
        ParseOfVersioned(r);
        ParsePackageResult(package, Some(r.version.value.(pre := None)));
      } else {
        ParsePackageResult(package, None);
        LastOfSuffix(r.namespace, r.name);
        CountZero(r.name, '.');
      }
    }
  }

  // ----- what is accepted -----

  lemma PackageAccepted(s: string, version: Option<StrictVersion>)
    ensures ParsePackage(s, version).Ok? <==> Last(Split(s, '-')) != "" && Join(Front(Split(s, '-')), '-') != ""
  {
  }

  /** Without the version part the dashed parts are the same but for the last. */
  lemma PackageParts(s: string)
    requires |Split(s, '-')| >= 3
    ensures var parts, package := Split(s, '-'), DropRight(s, |Last(Split(s, '-'))| + 1);
            Split(package, '-') == parts[..|parts| - 1] && Last(Split(package, '-')) == parts[|parts| - 2]
            && Front(Split(package, '-')) == parts[..|parts| - 2]
  {
    var parts, package := Split(s, '-'), DropRight(s, |Last(Split(s, '-'))| + 1);
    CountIsParts(s, '-');
    DropVersionPart(s);
    SplitOfSuffix(package, Last(parts), '-');
    assert Split(package, '-') + [Last(parts)] == parts;
    assert Split(package, '-') == parts[..|parts| - 1];
  }

  /**
   Exactly which texts are references, and what they refer to. Without a dot in its last part a text is
   a namespace and a name, neither empty. With one, the last part is the version: it has two dots and is
   a version number, and a namespace and a name come before it.
   */
  lemma {:induction false} ParseAcceptsIff(s: string)
    ensures var parts, last := Split(s, '-'), Last(Split(s, '-'));
            if '.' !in last then
              && (Parse(s).Ok? <==> last != "" && Join(Front(parts), '-') != "")
              && (Parse(s).Ok? ==> Parse(s).value == Reference(Join(Front(parts), '-'), last, None))
            else
              && (Parse(s).Ok? <==>
                    && |parts| >= 3 && Count(last, '.') == 2 && ParseVersion(last).Ok?
                    && parts[|parts| - 2] != "" && Join(parts[..|parts| - 2], '-') != "")
              && (Parse(s).Ok? ==>
                    Parse(s).value ==
                    Reference(Join(parts[..|parts| - 2], '-'), parts[|parts| - 2], Some(ParseVersion(last).value)))
  {
    var parts, last := Split(s, '-'), Last(Split(s, '-'));
    CountZero(last, '.');
    CountIsParts(s, '-');
    if '.' in last && |parts| >= 3 {
      PackageParts(s);
    }
  }

  /** A version part that is no version number is told from a text of the wrong form. */
  lemma ParseErrors(s: string)
    requires Parse(s).Err?
    ensures var parts, last := Split(s, '-'), Last(Split(s, '-'));
            Parse(s).error == InvalidVersion <==>
            '.' in last && |parts| >= 3 && Count(last, '.') == 2 && ParseVersion(last).Err?
  {
    CountZero(Last(Split(s, '-')), '.');
    CountIsParts(s, '-');
  }

  /** No two printable references print alike. */
  lemma StrIsInjective(r: Reference, q: Reference)
    requires Printable(r) && Printable(q) && Str(r) == Str(q)
    ensures r == q
  {
    ParseOfStr(r);
    ParseOfStr(q);
  }

  /**
   An accepted text is printed back unchanged exactly when it has no version part or its version part
   is canonical. A leading zero, a suffix or a trailing newline in the version is lost.
   */
  lemma StrOfParse(s: string)
    requires Parse(s).Ok?
    ensures Str(Parse(s).value) == s <==>
            Parse(s).value.version.None? || Canonical(Last(Split(s, '-')))
  {
    var r := Parse(s).value;
    if r.version.None? {
      ParsePackageResult(s, None);
    } else {
      var last := Last(Split(s, '-'));
      var package := DropRight(s, |last| + 1);
      ParsePackageResult(package, r.version);
      DropVersionPart(s);
      SameSuffix(package, VersionStr(r.version.value), last);
      CountZero(last, '.');
    }
  }

  lemma SameSuffix(p: string, x: string, y: string)
    ensures p + "-" + x == p + "-" + y <==> x == y
  {
    assert x == (p + "-" + x)[|p| + 1..] && y == (p + "-" + y)[|p| + 1..];
  }

  lemma DropVersionPart(s: string)
    requires Count(s, '-') >= 2
    ensures var last := Last(Split(s, '-')); s == DropRight(s, |last| + 1) + "-" + last
  {
    CountIsParts(s, '-');
    FrontOfSplit(s, '-');
    var parts := Split(s, '-');
    assert DropRight(s, |Last(parts)| + 1) == Join(Front(parts), '-');
  }

  /** Printing an accepted text once more changes nothing further. */
  lemma ParseIsStable(s: string)
    requires Parse(s).Ok?
    requires Parse(s).value.version.Some? ==> Parse(s).value.version.value.pre.None?
    ensures Parse(Str(Parse(s).value)) == Parse(s)
  {
    var r := Parse(s).value;
    var last := Last(Split(s, '-'));
    if r.version.None? {
      ParsePackageResult(s, None);
      CountZero(last, '.');
    } else {
      ParsePackageResult(DropRight(s, |last| + 1), r.version);
    }
    ParseOfStr(r);
  }

  // ----- equality, order and hash -----

  datatype OrderError = DifferentPackages | MissingVersion

  function LessThan(a: Reference, b: Reference): Result<bool, OrderError> {
    if !a.SamePackage(b) then Err(DifferentPackages)
    else if a.version.None? || b.version.None? then Err(MissingVersion)
    else Ok(Less(a.version.value, b.version.value))
  }

  function GreaterThan(a: Reference, b: Reference): Result<bool, OrderError> {
    if !a.SamePackage(b) then Err(DifferentPackages)
    else if a.version.None? || b.version.None? then Err(MissingVersion)
    else Ok(Compare(a.version.value, b.version.value) > 0)
  }

  /** The text that `__hash__` hashes. */
  function HashKey(r: Reference): string { Str(r) }

  /** Equality means the same reference, so equal references hash the same text. */
  lemma EqualIsIdentical(a: Reference, b: Reference)
    ensures a.SameVersion(b) <==> a == b
    ensures a.SameVersion(b) ==> HashKey(a) == HashKey(b)
  {
    if a.version.Some? && b.version.Some? {
      LessIsStrictTotal(a.version.value, b.version.value);
    }
  }

  /**
   On the versions of one package exactly one of <, == and > holds and > is the converse of <;
   on releases < is the lexicographic order of the three numbers.
   */
  lemma OrderIsStrictTotal(a: Reference, b: Reference)
    requires a.SamePackage(b) && a.version.Some? && b.version.Some?
    ensures LessThan(a, b).Ok? && GreaterThan(a, b) == LessThan(b, a)
    ensures LessThan(a, b) == Ok(true) ==> !a.SameVersion(b) && GreaterThan(a, b) == Ok(false)
    ensures LessThan(a, b) == Ok(false) ==> (a.SameVersion(b) <==> GreaterThan(a, b) == Ok(false))
    ensures a.version.value.pre.None? && b.version.value.pre.None? ==>
              (LessThan(a, b) == Ok(true) <==> LexLess(Triple(a.version.value), Triple(b.version.value)))
  {
    LessIsStrictTotal(a.version.value, b.version.value);
    TupleCompareIsLex(Triple(a.version.value), Triple(b.version.value));
  }

  /** Two references can be compared exactly if they name the same package and both have a version. */
  lemma ComparableIff(a: Reference, b: Reference)
    ensures LessThan(a, b).Ok? <==>
            a.namespace == b.namespace && a.name == b.name && a.version.Some? && b.version.Some?
    ensures GreaterThan(a, b).Ok? <==> LessThan(a, b).Ok?
    ensures LessThan(a, b) == Err(DifferentPackages) <==> a.namespace != b.namespace || a.name != b.name
  {
  }

  lemma OrderIsTransitive(a: Reference, b: Reference, c: Reference)
    requires LessThan(a, b) == Ok(true) && LessThan(b, c) == Ok(true)
    ensures LessThan(a, c) == Ok(true)
  {
    LessIsTransitive(a.version.value, b.version.value, c.version.value);
  }
}
