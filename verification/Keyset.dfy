/**
 `chunked_enumerate`: pages through a table ordered by (date_created, id) with the cursor
 "date_created >= last date and id > last id".
 */
module Keyset {
  import opened Prelude
  import opened Sorting

  datatype Row = Row(date: int, id: int)

  function ByDateThenId(): (Row, Row) -> bool {
    (a: Row, b: Row) => a.date < b.date || (a.date == b.date && a.id <= b.id)
  }

  predicate Before(a: Row, b: Row) {
    a.date < b.date || (a.date == b.date && a.id < b.id)
  }

  /** No two rows share a primary key. */
  ghost predicate DistinctIds(table: seq<Row>) {
    forall i, j :: 0 <= i < j < |table| ==> table[i].id != table[j].id
  }

  ghost predicate Ascending(s: seq<Row>) {
    forall i, j :: 0 <= i < j < |s| ==> Before(s[i], s[j])
  }

  predicate Matches(cursor: Option<Row>, row: Row) {
    cursor.None? || (row.date >= cursor.value.date && row.id > cursor.value.id)
  }

  function Filter(s: seq<Row>, cursor: Option<Row>): (f: seq<Row>)
    ensures |f| <= |s|
  {
    if s == [] then []
    else if Matches(cursor, s[0]) then [s[0]] + Filter(s[1..], cursor)
    else Filter(s[1..], cursor)
  }

  /** `self.order_by("date_created", "id")` */
  function Ordered(table: seq<Row>): seq<Row> { Sort(ByDateThenId(), table) }

  /** `[:chunk_size]` */
  function Page(matching: seq<Row>, chunkSize: nat): seq<Row> {
    matching[..Min(chunkSize, |matching|)]
  }

  /** What the loop yields from the rows its current cursor matches. */
  function Yielded(matching: seq<Row>, chunkSize: nat): seq<Row>
    requires chunkSize >= 1
    decreases |matching|
  {
    if matching == [] then []
    else
      var n := Min(chunkSize, |matching|);
      Page(matching, chunkSize) + Yielded(Filter(matching[n..], Some(matching[n - 1])), chunkSize)
  }

  method ChunkedEnumerate(table: seq<Row>, chunkSize: nat) returns (yielded: seq<Row>)
    requires DistinctIds(table) && chunkSize >= 1
    ensures yielded == Yielded(Ordered(table), chunkSize)
  {
    var qs := Ordered(table);
    var cursor: Option<Row> := None;
    FilterNone(qs);
    yielded := [];
    var page := Page(Filter(qs, cursor), chunkSize);
    ghost var remaining := Yielded(qs, chunkSize);
    ghost var all := remaining;
    while page != []
      invariant page == Page(Filter(qs, cursor), chunkSize)
      invariant remaining == Yielded(Filter(qs, cursor), chunkSize)
      invariant all == yielded + remaining
      decreases |Filter(qs, cursor)|
    {
      NextPage(table, cursor, chunkSize, page);
      cursor := Some(page[|page| - 1]);
      ghost var next := Yielded(Filter(qs, cursor), chunkSize);
      ConcatIsAssociative(yielded, page, next);
      yielded, remaining := yielded + page, next;
      page := Page(Filter(qs, cursor), chunkSize);
    }
  }

  lemma ConcatIsAssociative(a: seq<Row>, b: seq<Row>, c: seq<Row>)
    ensures a + (b + c) == a + b + c
  {
  }

  lemma {:induction false} FilterNone(s: seq<Row>)
    ensures Filter(s, None) == s
  {
    if s != [] {
      FilterNone(s[1..]);
    }
  }

  lemma {:induction false} FilterMembers(s: seq<Row>, cursor: Option<Row>)
    ensures forall row :: row in Filter(s, cursor) <==> row in s && Matches(cursor, row)
  {
    if s != [] {
      FilterMembers(s[1..], cursor);
      assert s == [s[0]] + s[1..];
    }
  }

  lemma OrderedIsAscending(table: seq<Row>)
    requires DistinctIds(table)
    ensures Ascending(Ordered(table)) && multiset(Ordered(table)) == multiset(table)
  {
    SortSorts(ByDateThenId(), table);
    OnceEach(table);
    OnceIsAscending(Ordered(table));
  }

  lemma {:induction false} OnceIsAscending(s: seq<Row>)
    requires SortedBy(ByDateThenId(), s) && forall row :: multiset(s)[row] <= 1
    ensures Ascending(s)
  {
    if s != [] {
      Tail(ByDateThenId(), s);
      OnceIsAscending(s[1..]);
      forall j | 1 <= j < |s|
        ensures Before(s[0], s[j])
      {
        assert multiset(s)[s[0]] == 1 + multiset(s[1..])[s[0]];
        assert s[j] in s[1..] && s[0] !in multiset(s[1..]);
        assert ByDateThenId()(s[0], s[j]);
      }
    }
  }

  lemma {:induction false} OnceEach(table: seq<Row>)
    requires DistinctIds(table)
    ensures forall row :: multiset(table)[row] <= 1
  {
    if table != [] {
      OnceEach(table[1..]);
      assert table == [table[0]] + table[1..];
      assert table[0] !in table[1..];
    }
  }

  lemma {:induction false} FilterIsAscending(s: seq<Row>, cursor: Option<Row>)
    requires Ascending(s)
    ensures Ascending(Filter(s, cursor))
  {
    if s != [] {
      FilterIsAscending(s[1..], cursor);
      FilterMembers(s[1..], cursor);
      var f := Filter(s[1..], cursor);
      forall j | 0 <= j < |f|
        ensures Before(s[0], f[j])
      {
        assert f[j] in f && f[j] in s[1..];
      }
    }
  }

  lemma {:induction false} FilterOfConcat(a: seq<Row>, b: seq<Row>, cursor: Option<Row>)
    ensures Filter(a + b, cursor) == Filter(a, cursor) + Filter(b, cursor)
  {
    if a == [] {
      assert a + b == b;
    } else {
      FilterOfConcat(a[1..], b, cursor);
      assert (a + b)[1..] == a[1..] + b && (a + b)[0] == a[0];
      var front, back := Filter(a[1..], cursor), Filter(b, cursor);
      ConcatIsAssociative([a[0]], front, back);
    }
  }

  /** A later cursor subsumes an earlier one. */
  lemma {:induction false} FilterTwice(s: seq<Row>, cursor: Option<Row>, next: Row)
    requires Matches(cursor, next)
    ensures Filter(Filter(s, cursor), Some(next)) == Filter(s, Some(next))
  {
    if s != [] {
      FilterTwice(s[1..], cursor, next);
      var f := Filter(s[1..], cursor);
      if Matches(cursor, s[0]) {
        assert ([s[0]] + f)[1..] == f && ([s[0]] + f)[0] == s[0];
      }
    }
  }

  lemma {:induction false} FilterNothing(s: seq<Row>, cursor: Row)
    requires forall i :: 0 <= i < |s| ==> !Matches(Some(cursor), s[i])
    ensures Filter(s, Some(cursor)) == []
  {
    if s != [] {
      FilterNothing(s[1..], cursor);
    }
  }

  /** Re-querying the table with the new cursor matches exactly the later rows with a larger id. */
  lemma NextPage(table: seq<Row>, cursor: Option<Row>, chunkSize: nat, page: seq<Row>)
    requires DistinctIds(table) && chunkSize >= 1
    requires page == Page(Filter(Ordered(table), cursor), chunkSize) && page != []
    ensures var next := Filter(Ordered(table), Some(page[|page| - 1]));
            && |next| < |Filter(Ordered(table), cursor)|
            && Yielded(Filter(Ordered(table), cursor), chunkSize) == page + Yielded(next, chunkSize)
  {
    var qs := Ordered(table);
    OrderedIsAscending(table);
    var matching := Filter(qs, cursor);
    var n := Min(chunkSize, |matching|);
    FilterIsAscending(qs, cursor);
    FilterMembers(qs, cursor);
    assert page[|page| - 1] == matching[n - 1] && matching[n - 1] in matching;
    FilterTwice(qs, cursor, matching[n - 1]);
    SkipPage(matching, n);
  }

  lemma SkipPage(matching: seq<Row>, n: nat)
    requires Ascending(matching) && 1 <= n <= |matching|
    ensures Filter(matching, Some(matching[n - 1])) == Filter(matching[n..], Some(matching[n - 1]))
  {
    var last, page, rest := matching[n - 1], matching[..n], matching[n..];
    forall i | 0 <= i < n
      ensures !Matches(Some(last), page[i])
    {
      assert i < n - 1 ==> Before(matching[i], matching[n - 1]);
    }
    FilterNothing(page, last);
    FilterOfConcat(page, rest, Some(last));
    assert page + rest == matching;
  }

  // ----- what is yielded -----

  /** Rows come out strictly increasing by (date, id), so none repeats, and all are table rows. */
  lemma {:induction false} YieldedIsAscending(matching: seq<Row>, chunkSize: nat)
    requires chunkSize >= 1 && Ascending(matching)
    ensures Ascending(Yielded(matching, chunkSize))
    ensures forall row | row in Yielded(matching, chunkSize) :: row in matching
    decreases |matching|
  {
    if matching != [] {
      var n := Min(chunkSize, |matching|);
      var rest := Filter(matching[n..], Some(matching[n - 1]));
      FilterIsAscending(matching[n..], Some(matching[n - 1]));
      FilterMembers(matching[n..], Some(matching[n - 1]));
      YieldedIsAscending(rest, chunkSize);
      var later := Yielded(rest, chunkSize);
      forall i, j | 0 <= i < n && 0 <= j < |later|
        ensures Before(matching[i], later[j])
      {
        assert later[j] in later && later[j] in matching[n..];
      }
    }
  }

  /** `i` rows are a whole number of pages, counted off rather than divided: `EndsPageIff` says so. */
  ghost predicate EndsPage(i: nat, chunkSize: nat)
    requires chunkSize >= 1
  {
    if i < chunkSize then i == 0 else EndsPage(i - chunkSize, chunkSize)
  }

  lemma {:induction false} EndsPageIff(i: nat, chunkSize: nat)
    requires chunkSize >= 1
    ensures EndsPage(i, chunkSize) <==> exists pages: nat :: i == pages * chunkSize
  {
    if i >= chunkSize {
      EndsPageIff(i - chunkSize, chunkSize);
      if pages: nat :| i - chunkSize == pages * chunkSize {
        assert i == (pages + 1) * chunkSize;
      }
      if pages: nat :| i == pages * chunkSize {
        assert i - chunkSize == (pages - 1) * chunkSize;
      }
    } else {
      assert i == 0 ==> i == 0 * chunkSize;
      MultipleBelow(i, chunkSize);
    }
  }

  lemma MultipleBelow(i: nat, chunkSize: nat)
    requires i < chunkSize
    ensures (exists pages: nat :: i == pages * chunkSize) ==> i == 0
  {
    if pages: nat :| i == pages * chunkSize {
      assert pages >= 1 ==> pages * chunkSize >= chunkSize;
    }
  }

  /** At every page boundary all later rows have a larger id than the page's last row. */
  ghost predicate IdsPassBoundaries(s: seq<Row>, chunkSize: nat)
    requires chunkSize >= 1
  {
    forall i, j :: 0 < i <= j < |s| && EndsPage(i, chunkSize) ==> s[i - 1].id < s[j].id
  }

  ghost predicate AllAfter(s: seq<Row>, n: nat, row: Row) {
    forall j :: n <= j < |s| ==> row.id < s[j].id
  }

  lemma {:induction false} FilterKeepsAll(s: seq<Row>, cursor: Row)
    requires forall j :: 0 <= j < |s| ==> cursor.date <= s[j].date
    ensures |Filter(s, Some(cursor))| == |s| <==> AllAfter(s, 0, cursor)
    ensures |Filter(s, Some(cursor))| == |s| ==> Filter(s, Some(cursor)) == s
  {
    if s != [] {
      FilterKeepsAll(s[1..], cursor);
      assert forall j :: 1 <= j < |s| ==> s[j] == s[1..][j - 1];
    }
  }

  lemma BoundariesAfterPage(s: seq<Row>, c: nat)
    requires 1 <= c <= |s|
    ensures IdsPassBoundaries(s, c) <==> IdsPassBoundaries(s[c..], c) && AllAfter(s[c..], 0, s[c - 1])
  {
    var t := s[c..];
    if IdsPassBoundaries(s, c) {
      forall i, j | 0 < i <= j < |t| && EndsPage(i, c)
        ensures t[i - 1].id < t[j].id
      {
        assert EndsPage(i + c, c) && s[i + c - 1].id < s[j + c].id;
      }
      forall j | 0 <= j < |t|
        ensures s[c - 1].id < t[j].id
      {
        assert EndsPage(0, c) && EndsPage(c, c);
        assert s[j + c] == t[j];
      }
    }
    if IdsPassBoundaries(t, c) && AllAfter(t, 0, s[c - 1]) {
      forall i, j | 0 < i <= j < |s| && EndsPage(i, c)
        ensures s[i - 1].id < s[j].id
      {
        assert s[j] == t[j - c];
        if i > c {
          assert EndsPage(i - c, c) && t[i - c - 1].id < t[j - c].id;
        }
      }
    }
  }

  lemma {:induction false} YieldsAllIff(matching: seq<Row>, chunkSize: nat)
    requires chunkSize >= 1 && Ascending(matching)
    ensures |Yielded(matching, chunkSize)| <= |matching|
    ensures |Yielded(matching, chunkSize)| == |matching| <==> IdsPassBoundaries(matching, chunkSize)
    decreases |matching|
  {
    if |matching| > chunkSize {
      var last, tail := matching[chunkSize - 1], matching[chunkSize..];
      FilterIsAscending(tail, Some(last));
      FilterKeepsAll(tail, last);
      YieldsAllIff(Filter(tail, Some(last)), chunkSize);
      BoundariesAfterPage(matching, chunkSize);
    } else if matching != [] {
      assert matching[|matching|..] == [];
    }
  }

  ghost predicate YieldsEveryRow(table: seq<Row>, chunkSize: nat)
    requires chunkSize >= 1
  {
    multiset(Yielded(Ordered(table), chunkSize)) == multiset(table)
  }

  lemma AllMeansSameLength(table: seq<Row>, chunkSize: nat)
    requires chunkSize >= 1 && DistinctIds(table)
    ensures YieldsEveryRow(table, chunkSize) <==> |Yielded(Ordered(table), chunkSize)| == |table|
  {
    var y, s := Yielded(Ordered(table), chunkSize), Ordered(table);
    OrderedIsAscending(table);
    YieldedIsAscending(s, chunkSize);
    assert |multiset(s)| == |s| && |multiset(table)| == |table| && |multiset(y)| == |y|;
    OnceEach(table);
    AscendingOnce(y);
    forall row
      ensures multiset(y)[row] <= multiset(table)[row]
    {
      if row in y {
        assert row in s && row in multiset(s);
      }
    }
    assert multiset(y) <= multiset(table);
    if |y| == |table| {
      assert |multiset(table) - multiset(y)| == 0;
    }
  }

  lemma {:induction false} AscendingOnce(s: seq<Row>)
    requires Ascending(s)
    ensures forall row :: multiset(s)[row] <= 1
  {
    if s != [] {
      AscendingOnce(s[1..]);
      assert s == [s[0]] + s[1..];
      assert s[0] !in s[1..];
    }
  }

  /**
   The enumeration yields every row exactly once precisely when, at each page boundary of the ordered
   table, no later row has a smaller id.
   */
  lemma CompleteIff(table: seq<Row>, chunkSize: nat)
    requires chunkSize >= 1 && DistinctIds(table)
    ensures YieldsEveryRow(table, chunkSize) <==> IdsPassBoundaries(Ordered(table), chunkSize)
  {
    OrderedIsAscending(table);
    assert |multiset(Ordered(table))| == |Ordered(table)| && |multiset(table)| == |table|;
    YieldsAllIff(Ordered(table), chunkSize);
    AllMeansSameLength(table, chunkSize);
  }

  /** Ids are handed out in order of creation date. */
  ghost predicate IdsFollowDates(table: seq<Row>) {
    forall a, b :: a in table && b in table && a.date < b.date ==> a.id < b.id
  }

  lemma FollowingIsComplete(table: seq<Row>, c: nat)
    requires DistinctIds(table) && c >= 1 && IdsFollowDates(table)
    ensures YieldsEveryRow(table, c)
  {
    var s := Ordered(table);
    OrderedIsAscending(table);
    forall i, j | 0 <= i < j < |s|
      ensures s[i].id < s[j].id
    {
      assert s[i] in multiset(s) && s[j] in multiset(s);
      assert s[i] in table && s[j] in table && Before(s[i], s[j]);
    }
    CompleteIff(table, c);
  }

  lemma IndexOf(s: seq<Row>, row: Row) returns (i: nat)
    requires row in s
    ensures i < |s| && s[i] == row
  {
    i :| 0 <= i < |s| && s[i] == row;
  }

  lemma CompleteIsFollowing(table: seq<Row>, a: Row, b: Row)
    requires DistinctIds(table) && YieldsEveryRow(table, 1)
    requires a in table && b in table && a.date < b.date
    ensures a.id < b.id
  {
    var s := Ordered(table);
    OrderedIsAscending(table);
    CompleteIff(table, 1);
    assert a in multiset(s) && b in multiset(s);
    var i := IndexOf(s, a);
    var j := IndexOf(s, b);
    EndsPageIff(i + 1, 1);
    assert i + 1 == (i + 1) * 1;
    assert i < j by { assert j < i ==> Before(b, a); }
    assert s[i + 1 - 1].id < s[j].id;
  }

  /** It is complete for every page size exactly when ids increase with the creation date. */
  lemma CompleteForAllSizesIff(table: seq<Row>)
    requires DistinctIds(table)
    ensures IdsFollowDates(table) <==> forall c: nat :: c >= 1 ==> YieldsEveryRow(table, c)
  {
    if IdsFollowDates(table) {
      forall c: nat | c >= 1
        ensures YieldsEveryRow(table, c)
      {
        FollowingIsComplete(table, c);
      }
    }
    if forall c: nat :: c >= 1 ==> YieldsEveryRow(table, c) {
      forall a, b | a in table && b in table && a.date < b.date
        ensures a.id < b.id
      {
        CompleteIsFollowing(table, a, b);
      }
    }
  }

  /** A row is missed when an older row has the larger id: pages of one yield only the first. */
  lemma RowCanBeMissed()
    ensures !YieldsEveryRow([Row(1, 2), Row(2, 1)], 1)
  {
  }
}
