/** File path sanitising for storage prefixes. */
module Filepath {
  import opened Prelude
  import opened Text

  predicate AllowedChar(c: char) {
    'a' <= c <= 'z' || 'A' <= c <= 'Z' || '0' <= c <= '9' || c == '_' || c == '-' || c == '.'
  }

  /** `re.sub(r"[^a-zA-Z0-9\_\-\.]+", "", name)` */
  function SanitizeFilename(s: string): string {
    if s == "" then "" else
      (if AllowedChar(s[0]) then [s[0]] else "") + SanitizeFilename(s[1..])
  }

  /** `s.replace(".", "")` */
  function WithoutDots(s: string): string {
    if s == "" then "" else (if s[0] == '.' then "" else [s[0]]) + WithoutDots(s[1..])
  }

  /** `s.replace("\\", "/")` */
  function ForwardSlashes(s: string): string {
    seq(|s|, i requires 0 <= i < |s| => if s[i] == '\\' then '/' else s[i])
  }

  /** The list comprehension: sanitise the segments that keep something besides dots. */
  function KeptSegments(segments: seq<string>): seq<string> {
    if segments == [] then [] else
      (if SanitizeFilename(WithoutDots(segments[0])) != "" then [SanitizeFilename(segments[0])] else [])
      + KeptSegments(segments[1..])
  }

  function SanitizeFilepath(s: string): string {
    Join(KeptSegments(Split(ForwardSlashes(s), '/')), '/')
  }

  function SanitizeOptional(path: Option<string>): Option<string> {
    if path.None? then None else Some(SanitizeFilepath(path.value))
  }

  datatype ValidationError = InvalidPrefix(should: Option<string>)

  function ValidateFilepathPrefix(path: Option<string>): Result<Option<string>, ValidationError> {
    var stripped := SanitizeOptional(path);
    if stripped != path then Err(InvalidPrefix(stripped)) else Ok(stripped)
  }

  // ----- what a sanitised path looks like -----

  predicate CleanSegment(s: string) {
    && (forall c | c in s :: AllowedChar(c))
    && (exists c | c in s :: c != '.')
  }

  predicate CleanPath(s: string) {
    s == "" || forall segment | segment in Split(s, '/') :: CleanSegment(segment)
  }

  lemma {:induction false} SanitizedChars(s: string)
    ensures forall c :: c in SanitizeFilename(s) <==> c in s && AllowedChar(c)
  {
    if s != "" {
      SanitizedChars(s[1..]);
      assert s == [s[0]] + s[1..];
    }
  }

  lemma {:induction false} UndottedChars(s: string)
    ensures forall c :: c in WithoutDots(s) <==> c in s && c != '.'
  {
    if s != "" {
      UndottedChars(s[1..]);
      assert s == [s[0]] + s[1..];
    }
  }

  lemma {:induction false} AllowedIsFixed(s: string)
    requires forall c | c in s :: AllowedChar(c)
    ensures SanitizeFilename(s) == s
  {
    if s != "" {
      assert s[0] in s;
      AllowedIsFixed(s[1..]);
    }
  }

  /** A segment is kept iff its sanitised form has a character other than a dot. */
  lemma KeptIffClean(s: string)
    ensures SanitizeFilename(WithoutDots(s)) != "" <==> CleanSegment(SanitizeFilename(s))
  {
    SanitizedChars(s);
    UndottedChars(s);
    SanitizedChars(WithoutDots(s));
    var kept := SanitizeFilename(WithoutDots(s));
    if kept != "" {
      assert kept[0] in kept;
    }
  }

  lemma {:induction false} KeptAreClean(segments: seq<string>)
    ensures forall segment | segment in KeptSegments(segments) :: CleanSegment(segment)
  {
    if segments != [] {
      KeptIffClean(segments[0]);
      KeptAreClean(segments[1..]);
    }
  }

  lemma {:induction false} CleanAreKept(segments: seq<string>)
    requires forall segment | segment in segments :: CleanSegment(segment)
    ensures KeptSegments(segments) == segments
  {
    if segments != [] {
      assert segments[0] in segments;
      AllowedIsFixed(segments[0]);
      KeptIffClean(segments[0]);
      CleanAreKept(segments[1..]);
    }
  }

  /** The segments of a joined list of clean segments are those segments. */
  lemma SplitOfClean(segments: seq<string>)
    requires segments != [] && forall segment | segment in segments :: CleanSegment(segment)
    ensures Split(Join(segments, '/'), '/') == segments
  {
    SplitOfJoin(segments, '/');
  }

  /** Every output is the empty text or slash-separated non-empty segments, none made of dots only. */
  lemma SanitizedIsClean(s: string)
    ensures CleanPath(SanitizeFilepath(s)) && '\\' !in SanitizeFilepath(s)
    ensures forall c | c in SanitizeFilepath(s) ::
              'a' <= c <= 'z' || 'A' <= c <= 'Z' || '0' <= c <= '9' || c in {'_', '-', '.', '/'}
  {
    var segments := KeptSegments(Split(ForwardSlashes(s), '/'));
    KeptAreClean(Split(ForwardSlashes(s), '/'));
    if segments != [] {
      SplitOfClean(segments);
    }
    CleanHasNoBackslash(SanitizeFilepath(s));
    forall c | c in SanitizeFilepath(s)
      ensures AllowedChar(c) || c == '/'
    {
      JoinChars(segments, '/', c);
    }
  }

  lemma {:induction false} JoinChars(parts: seq<string>, sep: char, c: char)
    requires c in Join(parts, sep)
    ensures c == sep || exists p | p in parts :: c in p
  {
    if |parts| == 1 {
      assert parts[0] in parts;
    } else if |parts| > 1 {
      assert parts[0] in parts;
      if c in Join(parts[1..], sep) {
        JoinChars(parts[1..], sep, c);
      }
    }
  }

  lemma CleanHasNoBackslash(s: string)
    requires CleanPath(s)
    ensures '\\' !in s
  {
    if '\\' in s {
      JoinOfSplit(s, '/');
      JoinChars(Split(s, '/'), '/', '\\');
    }
  }

  /** A clean path is left alone. */
  lemma CleanIsFixed(s: string)
    requires CleanPath(s)
    ensures SanitizeFilepath(s) == s
  {
    CleanHasNoBackslash(s);
    assert ForwardSlashes(s) == s;
    if s != "" {
      CleanAreKept(Split(s, '/'));
      JoinOfSplit(s, '/');
    }
  }

  lemma SanitizeIsIdempotent(s: string)
    ensures SanitizeFilepath(SanitizeFilepath(s)) == SanitizeFilepath(s)
  {
    SanitizedIsClean(s);
    CleanIsFixed(SanitizeFilepath(s));
  }

  /** The prefix check accepts exactly the clean paths, which are exactly the possible outputs. */
  lemma ValidatorAcceptsImage(s: string)
    ensures ValidateFilepathPrefix(Some(s)).Ok? <==> CleanPath(s)
    ensures CleanPath(s) <==> exists t: string :: SanitizeFilepath(t) == s
    ensures ValidateFilepathPrefix(Some(s)).Err? ==>
              ValidateFilepathPrefix(ValidateFilepathPrefix(Some(s)).error.should).Ok?
    ensures match ValidateFilepathPrefix(Some(s))
            case Ok(path) => path == Some(s)
            case Err(e) => e.should == Some(SanitizeFilepath(s)) && SanitizeFilepath(s) != s
    ensures ValidateFilepathPrefix(None) == Ok(None)
  {
    if CleanPath(s) {
      CleanIsFixed(s);
    }
    SanitizedIsClean(s);
    SanitizeIsIdempotent(s);
    if t: string :| SanitizeFilepath(t) == s {
      SanitizedIsClean(t);
    }
  }

  // ----- what is kept -----

  /** A file name is cleaned character by character: letters, digits, `_`, `-`, `.` stay. */
  lemma {:induction false} FilenameIsCharByChar(a: string, b: string)
    ensures SanitizeFilename(a + b) == SanitizeFilename(a) + SanitizeFilename(b)
    ensures |a| == 1 ==>
              var c := a[0];
              SanitizeFilename(a) ==
              if 'a' <= c <= 'z' || 'A' <= c <= 'Z' || '0' <= c <= '9' || c == '_' || c == '-' || c == '.' then a
              else ""
  {
    if |a| == 1 {
      assert a[1..] == "" && [a[0]] == a;
    }
    if a == "" {
      assert a + b == b;
    } else {
      FilenameIsCharByChar(a[1..], b);
      assert (a + b)[1..] == a[1..] + b && (a + b)[0] == a[0];
      ConcatIsAssociative(if AllowedChar(a[0]) then [a[0]] else "", SanitizeFilename(a[1..]), SanitizeFilename(b));
    }
  }

  lemma ConcatIsAssociative(a: string, b: string, c: string)
    ensures a + (b + c) == a + b + c
  {
  }

  lemma {:induction false} KeptOfConcat(a: seq<string>, b: seq<string>)
    ensures KeptSegments(a + b) == KeptSegments(a) + KeptSegments(b)
  {
    if a == [] {
      assert a + b == b;
    } else {
      KeptOfConcat(a[1..], b);
      assert (a + b)[1..] == a[1..] + b && (a + b)[0] == a[0];
      var head := if SanitizeFilename(WithoutDots(a[0])) != "" then [SanitizeFilename(a[0])] else [];
      assert head + (KeptSegments(a[1..]) + KeptSegments(b))
          == head + KeptSegments(a[1..]) + KeptSegments(b);
    }
  }

  lemma {:induction false} JoinOfConcat(a: seq<string>, b: seq<string>, sep: char)
    requires a != [] && b != []
    ensures Join(a + b, sep) == Join(a, sep) + [sep] + Join(b, sep)
  {
    if |a| == 1 {
      assert (a + b)[1..] == b;
    } else {
      JoinOfConcat(a[1..], b, sep);
      assert (a + b)[1..] == a[1..] + b;
    }
  }

  /** Two path texts side by side, with a slash only where both say something. */
  function Glue(a: string, b: string): string {
    if a == "" then b else if b == "" then a else a + "/" + b
  }

  lemma JoinIsEmpty(s: string)
    ensures SanitizeFilepath(s) == "" <==> KeptSegments(Split(ForwardSlashes(s), '/')) == []
  {
    KeptAreClean(Split(ForwardSlashes(s), '/'));
    var kept := KeptSegments(Split(ForwardSlashes(s), '/'));
    if kept != [] {
      assert kept[0] in kept;
      SplitOfClean(kept);
    }
  }

  /** Sanitising works segment by segment: either slash separates, and each side is cleaned alone. */
  lemma SanitizeOfConcat(a: string, b: string, slash: char)
    requires slash == '/' || slash == '\\'
    ensures SanitizeFilepath(a + [slash] + b) == Glue(SanitizeFilepath(a), SanitizeFilepath(b))
  {
    assert ForwardSlashes(a + [slash] + b) == ForwardSlashes(a) + ['/'] + ForwardSlashes(b);
    SplitOfConcat(ForwardSlashes(a), ForwardSlashes(b), '/');
    JoinIsEmpty(a);
    JoinIsEmpty(b);
    JoinOfKept(Split(ForwardSlashes(a), '/'), Split(ForwardSlashes(b), '/'));
  }

  lemma JoinOfKept(a: seq<string>, b: seq<string>)
    ensures var l, r := KeptSegments(a), KeptSegments(b);
            Join(KeptSegments(a + b), '/') ==
            if l == [] then Join(r, '/') else if r == [] then Join(l, '/') else Join(l, '/') + "/" + Join(r, '/')
  {
    var l, r := KeptSegments(a), KeptSegments(b);
    KeptOfConcat(a, b);
    if l == [] {
      assert l + r == r;
    } else if r == [] {
      assert l + r == l;
    } else {
      JoinOfConcat(l, r, '/');
    }
  }

  /** A single segment loses its other characters, and vanishes if only dots would remain. */
  lemma {:induction false} SanitizeOfSegment(s: string)
    requires '/' !in s && '\\' !in s
    ensures SanitizeFilepath(s) == if CleanSegment(SanitizeFilename(s)) then SanitizeFilename(s) else ""
  {
    assert ForwardSlashes(s) == s;
    SplitOfWord(s, '/');
    KeptIffClean(s);
    assert [s][1..] == [] && KeptSegments([s][1..]) == [];
  }
}
