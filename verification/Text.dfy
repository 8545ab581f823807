/**
 Splitting on a separator and joining with one, as `str.split(sep)` and `sep.join(parts)` do.
 The two are inverse to each other, which the reference parser, the path normaliser and the
 package-list chunks all rely on.
 */
module Text {

  function Join<T>(parts: seq<seq<T>>, sep: T): seq<T> {
    if |parts| == 0 then [] else if |parts| == 1 then parts[0]
    else parts[0] + [sep] + Join(parts[1..], sep)
  }

  /** The step of `Split` that puts one element in front of the rest. */
  function Cons<T(==)>(x: T, rest: seq<seq<T>>, sep: T): seq<seq<T>>
    requires |rest| >= 1
  {
    if x == sep then [[]] + rest else [[x] + rest[0]] + rest[1..]
  }

  function Split<T(==)>(s: seq<T>, sep: T): (parts: seq<seq<T>>)
    ensures |parts| >= 1
    ensures forall p | p in parts :: sep !in p
  {
    if s == [] then [[]] else Cons(s[0], Split(s[1..], sep), sep)
  }

  function Last<T>(s: seq<T>): T
    requires s != []
  {
    s[|s| - 1]
  }

  function Front<T>(s: seq<T>): seq<T>
    requires s != []
  {
    s[..|s| - 1]
  }

  function Count<T(==)>(s: seq<T>, c: T): nat {
    if s == [] then 0 else (if s[0] == c then 1 else 0) + Count(s[1..], c)
  }

  lemma {:induction false} JoinOfSplit<T>(s: seq<T>, sep: T)
    ensures Join(Split(s, sep), sep) == s
  {
    if s != [] {
      JoinOfSplit(s[1..], sep);
      var rest := Split(s[1..], sep);
      if s[0] == sep {
        assert ([[]] + rest)[1..] == rest;
      } else if |rest| > 1 {
        assert ([[s[0]] + rest[0]] + rest[1..])[1..] == rest[1..];
      }
    }
  }

  /** A separator between two texts splits them apart. */
  lemma {:induction false} SplitOfConcat<T>(a: seq<T>, b: seq<T>, sep: T)
    ensures Split(a + [sep] + b, sep) == Split(a, sep) + Split(b, sep)
  {
    var w := a + [sep] + b;
    if a == [] {
      assert w[1..] == b;
    } else {
      SplitOfConcat(a[1..], b, sep);
      assert w[1..] == a[1..] + [sep] + b && w[0] == a[0];
      ConsOfConcat(w[0], Split(a[1..], sep), Split(b, sep), sep);
    }
  }

  lemma ConsOfConcat<T>(x: T, front: seq<seq<T>>, back: seq<seq<T>>, sep: T)
    requires |front| >= 1
    ensures Cons(x, front + back, sep) == Cons(x, front, sep) + back
  {
  }

  lemma {:induction false} SplitOfWord<T>(p: seq<T>, sep: T)
    requires sep !in p
    ensures Split(p, sep) == [p]
  {
    if p != [] {
      SplitOfWord(p[1..], sep);
      assert p == [p[0]] + p[1..];
    }
  }

  /** Splitting undoes joining when there is a part and no part holds the separator. */
  lemma {:induction false} SplitOfJoin<T>(parts: seq<seq<T>>, sep: T)
    requires |parts| >= 1
    requires forall p | p in parts :: sep !in p
    ensures Split(Join(parts, sep), sep) == parts
  {
    if |parts| == 1 {
      SplitOfWord(parts[0], sep);
    } else {
      SplitOfJoin(parts[1..], sep);
      SplitOfConcat(parts[0], Join(parts[1..], sep), sep);
      SplitOfWord(parts[0], sep);
    }
  }

  lemma {:induction false} JoinSnoc<T>(parts: seq<seq<T>>, p: seq<T>, sep: T)
    requires |parts| >= 1
    ensures Join(parts + [p], sep) == Join(parts, sep) + [sep] + p
  {
    if |parts| > 1 {
      JoinSnoc(parts[1..], p, sep);
      assert (parts + [p])[1..] == parts[1..] + [p];
    }
  }

  /** Appending a separator-free word appends one part. */
  lemma SplitOfSuffix<T>(s: seq<T>, p: seq<T>, sep: T)
    requires sep !in p
    ensures Split(s + [sep] + p, sep) == Split(s, sep) + [p]
  {
    SplitOfConcat(s, p, sep);
    SplitOfWord(p, sep);
  }

  /** What is left of a text once its last part is dropped. */
  lemma {:induction false} FrontOfSplit<T>(s: seq<T>, sep: T)
    requires |Split(s, sep)| >= 2
    ensures var parts := Split(s, sep);
            && s == Join(Front(parts), sep) + [sep] + Last(parts)
            && Split(Join(Front(parts), sep), sep) == Front(parts)
  {
    var parts := Split(s, sep);
    JoinOfSplit(s, sep);
    assert parts == Front(parts) + [Last(parts)];
    JoinSnoc(Front(parts), Last(parts), sep);
    SplitOfJoin(Front(parts), sep);
  }

  /** A separator splits off exactly one more part. */
  lemma {:induction false} CountIsParts<T>(s: seq<T>, c: T)
    ensures |Split(s, c)| == Count(s, c) + 1
  {
    if s != [] {
      CountIsParts(s[1..], c);
    }
  }

  lemma {:induction false} CountZero<T>(s: seq<T>, c: T)
    ensures Count(s, c) == 0 <==> c !in s
  {
    if s != [] {
      CountZero(s[1..], c);
      assert s == [s[0]] + s[1..];
    }
  }
}
