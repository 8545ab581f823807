/**
 Version numbers: Python's `StrictVersion` as the repository uses it, and
 `VersionNumberValidator`, which admits only the canonical decimal spelling.
 */
module Version {
  import opened Prelude
  import opened Text

  // ----- decimal numerals -----

  predicate IsDigit(c: char) { '0' <= c <= '9' }

  predicate AllDigits(s: string) { forall c | c in s :: IsDigit(c) }

  /** The regular expression `\d+` with ASCII digits. */
  predicate IsNumeral(s: string) {
    s != "" && AllDigits(s)
  }

  /** `int(s)` */
  function Value(s: string): nat
    requires AllDigits(s)
  {
    if s == "" then 0 else
      assert Last(s) in s;
      Value(Front(s)) * 10 + (Last(s) as int - '0' as int)
  }

  /** `str(n)` */
  function Dec(n: nat): string {
    if n < 10 then [(n + '0' as int) as char] else Dec(n / 10) + Dec(n % 10)
  }

  lemma {:induction false} ValueOfDec(n: nat)
    ensures IsNumeral(Dec(n)) && Value(Dec(n)) == n
    ensures Dec(n) == "0" || Dec(n)[0] != '0'
  {
    if n < 10 {
      assert Front(Dec(n)) == "";
    } else {
      ValueOfDec(n / 10);
      assert Front(Dec(n)) == Dec(n / 10);
    }
  }

  lemma {:induction false} DecOfValue(s: string)
    requires IsNumeral(s) && (s == "0" || s[0] != '0')
    ensures Dec(Value(s)) == s
  {
    if |s| == 1 {
      assert Front(s) == "" && Last(s) in s && Value(Front(s)) == 0;
    } else {
      assert Front(s)[0] == s[0] != '0' && Last(s) in s;
      ValueIsPositive(Front(s));
      DecOfValue(Front(s));
      assert s == Front(s) + [Last(s)];
    }
  }

  lemma {:induction false} ValueIsPositive(s: string)
    requires IsNumeral(s) && s[0] != '0'
    ensures Value(s) > 0
  {
    assert s[0] in s && Last(s) in s;
    if |s| == 1 {
      assert Value(Front(s)) == 0;
    } else {
      assert Front(s)[0] == s[0];
      ValueIsPositive(Front(s));
    }
  }

  // ----- StrictVersion -----

  datatype Prerelease = Prerelease(tag: char, num: nat)

  datatype StrictVersion = StrictVersion(major: nat, minor: nat, patch: nat, pre: Option<Prerelease>)

  datatype VersionError = InvalidVersionNumber

  /** How many digits a text starts with. */
  function DigitRun(s: string): (n: nat)
    ensures n <= |s|
    ensures AllDigits(s[..n])
    ensures n < |s| ==> !IsDigit(s[n])
  {
    if s == "" || !IsDigit(s[0]) then 0 else
      assert s[1..][..DigitRun(s[1..])] == s[..1 + DigitRun(s[1..])][1..];
      1 + DigitRun(s[1..])
  }

  /** The last component, `\d+` with an optional `a` or `b` suffix that has its own number. */
  function ParseTail(s: string): Option<(nat, Option<Prerelease>)> {
    var n := DigitRun(s);
    if n == 0 then None
    else if n == |s| then Some((Value(s[..n]), Option<Prerelease>.None))
    else if (s[n] == 'a' || s[n] == 'b') && IsNumeral(s[n + 1..]) then
      Some((Value(s[..n]), Option.Some(Prerelease(s[n], Value(s[n + 1..])))))
    else None
  }

  /** The pattern's `$` also matches before one trailing newline. */
  function DropNewline(s: string): string {
    if s != "" && Last(s) == '\n' then Front(s) else s
  }

  /** `StrictVersion(s)` for non-empty `s`: two or three dotted numbers and an optional suffix. */
  function ParseVersion(s: string): Result<StrictVersion, VersionError> {
    var parts := Split(DropNewline(s), '.');
    var tail := ParseTail(Last(parts));
    if tail.None? then Err(InvalidVersionNumber)
    else if |parts| == 3 && IsNumeral(parts[0]) && IsNumeral(parts[1]) then
      Ok(StrictVersion(Value(parts[0]), Value(parts[1]), tail.value.0, tail.value.1))
    else if |parts| == 2 && IsNumeral(parts[0]) then
      Ok(StrictVersion(Value(parts[0]), tail.value.0, 0, tail.value.1))
    else Err(InvalidVersionNumber)
  }

  /** `".".join(str(x) for x in version.version)`: the suffix is not printed. */
  function VersionStr(v: StrictVersion): string {
    Join([Dec(v.major), Dec(v.minor), Dec(v.patch)], '.')
  }

  function Release(a: nat, b: nat, c: nat): StrictVersion { StrictVersion(a, b, c, None) }

  lemma SplitOfVersionStr(v: StrictVersion)
    ensures Split(VersionStr(v), '.') == [Dec(v.major), Dec(v.minor), Dec(v.patch)]
    ensures VersionStr(v) != "" && IsDigit(Last(VersionStr(v)))
    ensures forall c | c in VersionStr(v) :: IsDigit(c) || c == '.'
  {
    var parts := [Dec(v.major), Dec(v.minor), Dec(v.patch)];
    ValueOfDec(v.major);
    ValueOfDec(v.minor);
    ValueOfDec(v.patch);
    SplitOfJoin(parts, '.');
    JoinOfThree(Dec(v.major), Dec(v.minor), Dec(v.patch));
  }

  lemma {:induction false} DigitRunOfDigits(s: string)
    requires AllDigits(s)
    ensures DigitRun(s) == |s|
  {
  }

  /** Reading back a printed version gives the same numbers and no suffix. */
  lemma ParseOfVersionStr(v: StrictVersion)
    ensures ParseVersion(VersionStr(v)) == Ok(v.(pre := None))
  {
    SplitOfVersionStr(v);
    ValueOfDec(v.major);
    ValueOfDec(v.minor);
    ValueOfDec(v.patch);
    DigitRunOfDigits(Dec(v.patch));
    assert Dec(v.patch)[..|Dec(v.patch)|] == Dec(v.patch);
  }

  /** A suffix is read with its letter and number. */
  lemma {:induction false} ParseOfPrerelease(v: StrictVersion, tag: char, n: nat)
    requires tag == 'a' || tag == 'b'
    ensures ParseVersion(VersionStr(v) + [tag] + Dec(n)) == Ok(v.(pre := Some(Prerelease(tag, n))))
  {
    var tail := Dec(v.patch) + [tag] + Dec(n);
    ValueOfDec(v.major);
    ValueOfDec(v.minor);
    ParseTailOfSuffix(v.patch, tag, n);
    SplitOfPrerelease(v, tag, n);
    assert Last([Dec(v.major), Dec(v.minor), tail]) == tail;
  }

  lemma SplitOfPrerelease(v: StrictVersion, tag: char, n: nat)
    requires tag == 'a' || tag == 'b'
    ensures var s := VersionStr(v) + [tag] + Dec(n);
            DropNewline(s) == s && Split(s, '.') == [Dec(v.major), Dec(v.minor), Dec(v.patch) + [tag] + Dec(n)]
  {
    var a, b, c := Dec(v.major), Dec(v.minor), Dec(v.patch);
    ValueOfDec(v.major);
    ValueOfDec(v.minor);
    ParseTailOfSuffix(v.patch, tag, n);
    AppendToThree(a, b, c, [tag], Dec(n));
    SplitOfJoin([a, b, c + [tag] + Dec(n)], '.');
    NumeralEnds(VersionStr(v) + [tag], n);
  }

  lemma AppendToThree(a: string, b: string, c: string, x: string, y: string)
    ensures Join([a, b, c], '.') + x + y == Join([a, b, c + x + y], '.')
  {
    JoinOfThree(a, b, c);
    JoinOfThree(a, b, c + x + y);
  }

  lemma NumeralEnds(s: string, n: nat)
    ensures DropNewline(s + Dec(n)) == s + Dec(n)
  {
  }

  /** One trailing newline is ignored. */
  lemma ParseIgnoresNewline(s: string)
    requires s != "" && Last(s) != '\n'
    ensures ParseVersion(s + "\n") == ParseVersion(s)
  {
  }

  lemma JoinOfThree(a: string, b: string, c: string)
    ensures Join([a, b, c], '.') == a + ['.'] + (b + ['.'] + c)
  {
    assert [a, b, c][1..] == [b, c] && [b, c][1..] == [c];
    assert Join([b, c], '.') == b + ['.'] + Join([c], '.');
  }

  lemma {:induction false} ParseTailOfSuffix(p: nat, tag: char, n: nat)
    requires tag == 'a' || tag == 'b'
    ensures ParseTail(Dec(p) + [tag] + Dec(n)) == Some((p, Option.Some(Prerelease(tag, n))))
    ensures '.' !in Dec(p) + [tag] + Dec(n)
  {
    ValueOfDec(p);
    ValueOfDec(n);
    SuffixSplits(Dec(p), tag, Dec(n));
  }

  lemma SuffixSplits(digits: string, tag: char, more: string)
    requires IsNumeral(digits) && IsNumeral(more) && !IsDigit(tag)
    ensures var s := digits + [tag] + more;
            && DigitRun(s) == |digits| && s[..|digits|] == digits && s[|digits|] == tag && s[|digits| + 1..] == more
    ensures tag != '.' ==> '.' !in digits + [tag] + more
  {
  }

  // ----- which texts are version numbers -----

  /** Two or three numerals, and a letter with a numeral. */
  datatype Spelling = Spelling(numbers: seq<string>, suffix: Option<(char, string)>) {
    predicate Valid() {
      && (|numbers| == 2 || |numbers| == 3) && (forall i :: 0 <= i < |numbers| ==> IsNumeral(numbers[i]))
      && (suffix.Some? ==> (suffix.value.0 == 'a' || suffix.value.0 == 'b') && IsNumeral(suffix.value.1))
    }

    function Ending(): string { if suffix.Some? then [suffix.value.0] + suffix.value.1 else "" }

    function Text(): string { Join(numbers, '.') + Ending() }

    /** A missing third number is zero. */
    function Meaning(): StrictVersion
      requires Valid()
    {
      StrictVersion(Value(numbers[0]), Value(numbers[1]), if |numbers| == 3 then Value(numbers[2]) else 0,
                    if suffix.Some? then Some(Prerelease(suffix.value.0, Value(suffix.value.1))) else None)
    }
  }

  lemma {:induction false} JoinAppend(parts: seq<string>, x: string)
    requires parts != []
    ensures Join(parts, '.') + x == Join(Front(parts) + [Last(parts) + x], '.')
  {
    if |parts| == 1 {
      assert Front(parts) + [Last(parts) + x] == [parts[0] + x];
    } else {
      JoinAppend(parts[1..], x);
      assert (Front(parts) + [Last(parts) + x])[1..] == Front(parts[1..]) + [Last(parts[1..]) + x];
    }
  }

  /** The last part of a spelling is read as its last number and its suffix. */
  lemma TailOfSpelling(sp: Spelling)
    requires sp.Valid()
    ensures var last, pre := Last(sp.numbers), sp.Meaning().pre;
            && ParseTail(last + sp.Ending()) == Some((Value(last), pre))
            && '.' !in last + sp.Ending() && IsDigit(Last(last + sp.Ending()))
  {
    var last := Last(sp.numbers);
    if sp.suffix.Some? {
      SuffixSplits(last, sp.suffix.value.0, sp.suffix.value.1);
      assert last + sp.Ending() == last + [sp.suffix.value.0] + sp.suffix.value.1;
      assert Last(last + sp.Ending()) == Last(sp.suffix.value.1);
    } else {
      DigitRunOfDigits(last);
      assert last + "" == last && last[..|last|] == last;
    }
  }

  lemma SplitOfSpelling(sp: Spelling)
    requires sp.Valid()
    ensures Split(sp.Text(), '.') == Front(sp.numbers) + [Last(sp.numbers) + sp.Ending()]
    ensures sp.Text() != "" && IsDigit(Last(sp.Text()))
  {
    var parts := Front(sp.numbers) + [Last(sp.numbers) + sp.Ending()];
    TailOfSpelling(sp);
    JoinAppend(sp.numbers, sp.Ending());
    forall p | p in parts
      ensures '.' !in p
    {
      var i :| 0 <= i < |parts| && parts[i] == p;
      assert i < |parts| - 1 ==> p == sp.numbers[i];
    }
    SplitOfJoin(parts, '.');
    JoinSnoc(Front(sp.numbers), Last(sp.numbers) + sp.Ending(), '.');
    assert Last(sp.Text()) == Last(Last(sp.numbers) + sp.Ending());
  }

  /** Every spelling is read as what it means, with or without a newline after it. */
  lemma SpellingIsRead(sp: Spelling)
    requires sp.Valid()
    ensures ParseVersion(sp.Text()) == Ok(sp.Meaning()) && ParseVersion(sp.Text() + "\n") == Ok(sp.Meaning())
  {
    SplitOfSpelling(sp);
    TailOfSpelling(sp);
    ParseIgnoresNewline(sp.Text());
    var parts := Split(sp.Text(), '.');
    assert parts[0] == sp.numbers[0] && (|parts| == 3 ==> parts[1] == sp.numbers[1]);
  }

  /** The spelling of a text that was read. */
  lemma SpellingOf(s: string) returns (sp: Spelling)
    requires ParseVersion(s).Ok?
    ensures sp.Valid() && sp.Text() == DropNewline(s)
  {
    var parts := Split(DropNewline(s), '.');
    var last := Last(parts);
    var n := DigitRun(last);
    var suffix := if n == |last| then None else Some((last[n], last[n + 1..]));
    sp := Spelling(Front(parts) + [last[..n]], suffix);
    assert last == last[..n] + sp.Ending();
    JoinAppend(sp.numbers, sp.Ending());
    JoinOfSplit(DropNewline(s), '.');
    assert Front(parts) + [last] == parts;
  }

  /** Exactly which texts are version numbers: the spellings, one trailing newline aside. */
  lemma ParseVersionIff(s: string)
    ensures ParseVersion(s).Ok? <==> exists sp: Spelling :: sp.Valid() && (s == sp.Text() || s == sp.Text() + "\n")
  {
    if ParseVersion(s).Ok? {
      var sp := SpellingOf(s);
      assert s == DropNewline(s) || s == DropNewline(s) + "\n";
      assert s == sp.Text() || s == sp.Text() + "\n";
    }
    if sp: Spelling :| sp.Valid() && (s == sp.Text() || s == sp.Text() + "\n") {
      SpellingIsRead(sp);
    }
  }

  // ----- VersionNumberValidator -----

  /** `StrictVersion("")` parses nothing, so reading its numbers raises an attribute error. */
  datatype Verdict = Accepted | Rejected | AttributeMissing

  function ValidateVersionNumber(s: string): Verdict {
    if s == "" then AttributeMissing
    else
      match ParseVersion(s)
      case Err(_) => Rejected
      case Ok(v) => if VersionStr(v) == s then Accepted else Rejected
  }

  /** An empty text is the only one that fails otherwise than by being rejected. */
  lemma RejectedIff(s: string)
    ensures ValidateVersionNumber(s) == AttributeMissing <==> s == ""
    ensures ValidateVersionNumber(s) == Rejected <==> s != "" && !Canonical(s)
  {
  }

  predicate Canonical(s: string) { ValidateVersionNumber(s).Accepted? }

  /** The validator accepts exactly the spellings dec(a).dec(b).dec(c). */
  lemma AcceptsExactlyCanonical(s: string)
    ensures Canonical(s) <==> exists a: nat, b: nat, c: nat :: s == VersionStr(Release(a, b, c))
  {
    if Canonical(s) {
      var v := ParseVersion(s).value;
      assert s == VersionStr(Release(v.major, v.minor, v.patch));
    }
    if a: nat, b: nat, c: nat :| s == VersionStr(Release(a, b, c)) {
      ParseOfVersionStr(Release(a, b, c));
      SplitOfVersionStr(Release(a, b, c));
    }
  }

  /** Numbers and accepted spellings are in bijection. */
  lemma CanonicalBijection(v: StrictVersion, w: StrictVersion)
    requires v.pre == w.pre == None
    ensures Canonical(VersionStr(v)) && ParseVersion(VersionStr(v)) == Ok(v)
    ensures VersionStr(v) == VersionStr(w) ==> v == w
  {
    ParseOfVersionStr(v);
    ParseOfVersionStr(w);
    SplitOfVersionStr(v);
  }

  predicate CanonicalShape(parts: seq<string>) {
    |parts| == 3 && forall p | p in parts :: IsNumeral(p) && (p == "0" || p[0] != '0')
  }

  /**
   Spelled out: a text is accepted iff it is three dot-separated numerals, none with a leading zero.
   */
  lemma {:induction false} AcceptsByShape(s: string)
    ensures Canonical(s) <==> CanonicalShape(Split(s, '.'))
  {
    if Canonical(s) {
      ShapeOfVersionStr(ParseVersion(s).value);
    }
    if CanonicalShape(Split(s, '.')) {
      ShapeIsCanonical(s);
    }
  }

  lemma ShapeOfVersionStr(v: StrictVersion)
    ensures CanonicalShape(Split(VersionStr(v), '.'))
  {
    SplitOfVersionStr(v);
    ValueOfDec(v.major);
    ValueOfDec(v.minor);
    ValueOfDec(v.patch);
  }

  lemma {:induction false} ShapeIsCanonical(s: string)
    requires CanonicalShape(Split(s, '.'))
    ensures Canonical(s)
  {
    var parts := Split(s, '.');
    var a, b, c := parts[0], parts[1], parts[2];
    assert a in parts && b in parts && c in parts;
    DecOfValue(a);
    DecOfValue(b);
    DecOfValue(c);
    JoinOfSplit(s, '.');
    assert parts == [a, b, c];
    AcceptsExactlyCanonical(s);
    assert s == VersionStr(Release(Value(a), Value(b), Value(c)));
  }

  // ----- order -----

  /** Python's tuple comparison. */
  function TupleCompare(a: seq<int>, b: seq<int>): int
    requires |a| == |b|
  {
    if a == [] then 0
    else if a[0] != b[0] then (if a[0] < b[0] then -1 else 1)
    else TupleCompare(a[1..], b[1..])
  }

  function Triple(v: StrictVersion): seq<int> { [v.major, v.minor, v.patch] }

  /** `StrictVersion._cmp`: numbers first; a version with a suffix precedes the one without. */
  function Compare(a: StrictVersion, b: StrictVersion): int {
    if Triple(a) != Triple(b) then TupleCompare(Triple(a), Triple(b))
    else if a.pre.None? && b.pre.None? then 0
    else if b.pre.None? then -1
    else if a.pre.None? then 1
    else TupleCompare([a.pre.value.tag as int, a.pre.value.num], [b.pre.value.tag as int, b.pre.value.num])
  }

  predicate Less(a: StrictVersion, b: StrictVersion) { Compare(a, b) < 0 }

  ghost predicate LexLess(a: seq<int>, b: seq<int>)
    requires |a| == |b|
  {
    exists i :: 0 <= i < |a| && a[..i] == b[..i] && a[i] < b[i]
  }

  lemma {:induction false} TupleCompareIsLex(a: seq<int>, b: seq<int>)
    requires |a| == |b|
    ensures TupleCompare(a, b) < 0 <==> LexLess(a, b)
    ensures TupleCompare(a, b) == 0 <==> a == b
    ensures TupleCompare(b, a) == -TupleCompare(a, b)
  {
    if a != [] {
      TupleCompareIsLex(a[1..], b[1..]);
      assert a == [a[0]] + a[1..] && b == [b[0]] + b[1..];
      if a[0] == b[0] && LexLess(a[1..], b[1..]) {
        var i :| 0 <= i < |a[1..]| && a[1..][..i] == b[1..][..i] && a[1..][i] < b[1..][i];
        assert a[..i + 1] == [a[0]] + a[1..][..i] && b[..i + 1] == [b[0]] + b[1..][..i];
        assert a[i + 1] < b[i + 1];
      }
      if a[0] < b[0] {
        assert a[..0] == b[..0];
      }
      if LexLess(a, b) {
        var i :| 0 <= i < |a| && a[..i] == b[..i] && a[i] < b[i];
        if i > 0 {
          assert a[0] == a[..i][0] == b[..i][0] == b[0];
          assert a[1..][..i - 1] == a[..i][1..] == b[..i][1..] == b[1..][..i - 1];
          assert a[1..][i - 1] < b[1..][i - 1];
        }
      }
    }
  }

  lemma {:induction false} TupleCompareTransitive(a: seq<int>, b: seq<int>, c: seq<int>)
    requires |a| == |b| == |c|
    requires TupleCompare(a, b) < 0 && TupleCompare(b, c) < 0
    ensures TupleCompare(a, c) < 0
  {
    if a != [] && a[0] == b[0] == c[0] {
      TupleCompareTransitive(a[1..], b[1..], c[1..]);
    }
  }

  /** On releases the order is the lexicographic order of the triples. */
  lemma LessIsLexicographic(a: StrictVersion, b: StrictVersion)
    requires a.pre == b.pre == None
    ensures Less(a, b) <==> LexLess(Triple(a), Triple(b))
  {
    TupleCompareIsLex(Triple(a), Triple(b));
  }

  /** A strict total order on all versions, suffixes included: exactly one of <, ==, > holds. */
  lemma LessIsStrictTotal(a: StrictVersion, b: StrictVersion)
    ensures Compare(a, b) == 0 <==> a == b
    ensures Compare(b, a) == -Compare(a, b)
  {
    TupleCompareIsLex(Triple(a), Triple(b));
    if a.pre.Some? && b.pre.Some? {
      var p, q := [a.pre.value.tag as int, a.pre.value.num], [b.pre.value.tag as int, b.pre.value.num];
      TupleCompareIsLex(p, q);
      assert p == q ==> p[0] == q[0] && p[1] == q[1];
    }
    assert Triple(a) == Triple(b) ==>
        Triple(a)[0] == Triple(b)[0] && Triple(a)[1] == Triple(b)[1] && Triple(a)[2] == Triple(b)[2];
  }

  lemma LessIsTransitive(a: StrictVersion, b: StrictVersion, c: StrictVersion)
    requires Less(a, b) && Less(b, c)
    ensures Less(a, c)
  {
    TupleCompareIsLex(Triple(a), Triple(b));
    TupleCompareIsLex(Triple(b), Triple(c));
    TupleCompareIsLex(Triple(a), Triple(c));
    if Triple(a) != Triple(b) && Triple(b) != Triple(c) {
      TupleCompareTransitive(Triple(a), Triple(b), Triple(c));
    } else if Triple(a) == Triple(b) == Triple(c) && a.pre.Some? && b.pre.Some? && c.pre.Some? {
      TupleCompareTransitive([a.pre.value.tag as int, a.pre.value.num],
                             [b.pre.value.tag as int, b.pre.value.num],
                             [c.pre.value.tag as int, c.pre.value.num]);
    }
  }

  /**
   The order spelled out: by the first number that differs; with equal numbers a version with a suffix
   comes before the one without, and suffixes are ordered by letter and then by number.
   */
  lemma LessIff(a: StrictVersion, b: StrictVersion)
    ensures Less(a, b) <==>
            || a.major < b.major
            || (a.major == b.major && a.minor < b.minor)
            || (a.major == b.major && a.minor == b.minor && a.patch < b.patch)
            || (a.major == b.major && a.minor == b.minor && a.patch == b.patch && a.pre.Some?
                && (b.pre.None?
                    || a.pre.value.tag < b.pre.value.tag
                    || (a.pre.value.tag == b.pre.value.tag && a.pre.value.num < b.pre.value.num)))
  {
    assert Triple(a) == Triple(b) <==> a.major == b.major && a.minor == b.minor && a.patch == b.patch by {
      assert Triple(a) == Triple(b) ==>
          Triple(a)[0] == Triple(b)[0] && Triple(a)[1] == Triple(b)[1] && Triple(a)[2] == Triple(b)[2];
    }
    CompareThree(Triple(a), Triple(b));
    if a.pre.Some? && b.pre.Some? {
      CompareTwo([a.pre.value.tag as int, a.pre.value.num], [b.pre.value.tag as int, b.pre.value.num]);
    }
  }

  lemma CompareTwo(a: seq<int>, b: seq<int>)
    requires |a| == |b| == 2
    ensures TupleCompare(a, b) < 0 <==> a[0] < b[0] || (a[0] == b[0] && a[1] < b[1])
  {
    assert a[1..] == [a[1]] && b[1..] == [b[1]];
    assert TupleCompare([a[1]], [b[1]]) == if a[1] == b[1] then 0 else if a[1] < b[1] then -1 else 1;
  }

  lemma CompareThree(a: seq<int>, b: seq<int>)
    requires |a| == |b| == 3
    ensures TupleCompare(a, b) < 0 <==>
            a[0] < b[0] || (a[0] == b[0] && (a[1] < b[1] || (a[1] == b[1] && a[2] < b[2])))
  {
    CompareTwo(a[1..], b[1..]);
  }
}
