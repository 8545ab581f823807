/**
 The chunked package-list cache: listings are read in batches, put back into query order, and packed
 greedily into JSON array blobs under a byte limit.
 */
module ChunkedCache {
  import opened Prelude
  import opened Text
  import opened Sorting
  import opened Batching
  import opened Json

  // ----- reading listings in query order -----

  /** A package listing row, with the JSON text that is written for it. */
  datatype Listing = Listing(id: int, json: Bytes)

  /** The rows of the listing table by primary key. */
  type Table = map<int, Bytes>

  ghost predicate Distinct<T>(s: seq<T>) {
    forall i, j :: 0 <= i < j < |s| ==> s[i] != s[j]
  }

  /** The rows with the given ids that exist, in the order of the ids. */
  function RowsOf(table: Table, ids: seq<int>): seq<Listing> {
    if ids == [] then [] else RowOf(table, ids[0]) + RowsOf(table, ids[1..])
  }

  function RowOf(table: Table, id: int): seq<Listing> {
    if id in table then [Listing(id, table[id])] else []
  }

  /** `enumerate`'s position of an id; past the end when it is missing. */
  function Position(ids: seq<int>, id: int): nat {
    if ids == [] || ids[0] == id then 0 else 1 + Position(ids[1..], id)
  }

  function ByPosition(ids: seq<int>): (Listing, Listing) -> bool {
    (a: Listing, b: Listing) => Position(ids, a.id) <= Position(ids, b.id)
  }

  function Wanted(table: Table, ids: seq<int>): set<Listing> {
    set id | id in ids && id in table :: Listing(id, table[id])
  }

  predicate IsRow(table: Table, row: Listing) {
    row.id in table && row.json == table[row.id]
  }

  lemma {:induction false} RowsOfMembers(table: Table, ids: seq<int>)
    ensures forall row :: row in RowsOf(table, ids) <==> row.id in ids && IsRow(table, row)
  {
    if ids != [] {
      RowsOfMembers(table, ids[1..]);
      assert ids == [ids[0]] + ids[1..];
    }
  }

  lemma {:induction false} RowsOfMultiset(table: Table, ids: seq<int>)
    requires Distinct(ids)
    ensures multiset(RowsOf(table, ids)) == multiset(Wanted(table, ids))
  {
    if ids != [] {
      var id, tail := ids[0], ids[1..];
      RowsOfMultiset(table, tail);
      if id in table {
        WantedFirst(table, ids);
      } else {
        WantedRest(table, ids);
        assert RowsOf(table, ids) == RowsOf(table, tail);
      }
    }
  }

  lemma WantedFirst(table: Table, ids: seq<int>)
    requires Distinct(ids) && ids != [] && ids[0] in table
    ensures multiset(Wanted(table, ids)) == multiset{Listing(ids[0], table[ids[0]])} + multiset(Wanted(table, ids[1..]))
  {
    var first, rest := Listing(ids[0], table[ids[0]]), Wanted(table, ids[1..]);
    assert ids == [ids[0]] + ids[1..];
    assert Wanted(table, ids) == {first} + rest;
    assert first !in rest;
  }

  lemma WantedRest(table: Table, ids: seq<int>)
    requires ids != [] && ids[0] !in table
    ensures Wanted(table, ids) == Wanted(table, ids[1..])
  {
    assert ids == [ids[0]] + ids[1..];
  }

  lemma {:induction false} RowsOfSorted(table: Table, ids: seq<int>)
    requires Distinct(ids)
    ensures SortedBy(ByPosition(ids), RowsOf(table, ids))
  {
    if ids != [] {
      var tail, rows := ids[1..], RowsOf(table, ids[1..]);
      RowsOfSorted(table, tail);
      RowsOfMembers(table, tail);
      forall i, j | 0 <= i < j < |rows|
        ensures ByPosition(ids)(rows[i], rows[j])
      {
        assert rows[i] in rows && rows[j] in rows;
        assert rows[i].id in tail && rows[j].id in tail && ids[0] !in tail;
        assert ByPosition(tail)(rows[i], rows[j]);
      }
    }
  }

  lemma {:induction false} PositionIsInjective(ids: seq<int>, a: int, b: int)
    requires a in ids && Position(ids, a) == Position(ids, b)
    ensures a == b
  {
    if ids[0] != a {
      PositionIsInjective(ids[1..], a, b);
    }
  }

  /** `filter(id__in=ids)`: the matching rows, in whatever order the database likes. */
  method FetchRows(table: Table, ids: seq<int>) returns (rows: seq<Listing>)
    ensures multiset(rows) == multiset(Wanted(table, ids))
  {
    rows := [];
    var rest := Wanted(table, ids);
    while rest != {}
      invariant multiset(rows) + multiset(rest) == multiset(Wanted(table, ids))
      decreases rest
    {
      var row :| row in rest;
      assert multiset(rest) == multiset{row} + multiset(rest - {row});
      rows := rows + [row];
      rest := rest - {row};
    }
  }

  /** Sorting by position undoes the database's order: rows come back as the ids were given. */
  method GetPackageListingChunk(table: Table, ids: seq<int>) returns (listings: seq<Listing>)
    requires Distinct(ids)
    ensures listings == RowsOf(table, ids)
  {
    var rows := FetchRows(table, ids);
    listings := Sort(ByPosition(ids), rows);
    SortByPositionRestores(table, ids, rows);
  }

  lemma SortByPositionRestores(table: Table, ids: seq<int>, rows: seq<Listing>)
    requires Distinct(ids) && multiset(rows) == multiset(Wanted(table, ids))
    ensures Sort(ByPosition(ids), rows) == RowsOf(table, ids)
  {
    var s := RowsOf(table, ids);
    RowsOfMembers(table, ids);
    RowsOfMultiset(table, ids);
    RowsOfSorted(table, ids);
    forall x, y | x in s && y in s && ByPosition(ids)(x, y) && ByPosition(ids)(y, x)
      ensures x == y
    {
      PositionIsInjective(ids, x.id, y.id);
    }
    SortRestores(ByPosition(ids), rows, s);
  }

  // ----- packing -----

  const UNCOMPRESSED_CHUNK_LIMIT := 14000000

  /** `chunk_size_limit or UNCOMPRESSED_CHUNK_LIMIT`: zero counts as not given. */
  function ChunkLimit(chunkSizeLimit: Option<int>): int {
    if chunkSizeLimit.None? || chunkSizeLimit.value == 0 then UNCOMPRESSED_CHUNK_LIMIT else chunkSizeLimit.value
  }

  function Content(run: seq<Bytes>): Bytes { Join(run, COMMA) }

  function Blob(run: seq<Bytes>): Bytes { [LBRACKET] + Content(run) + [RBRACKET] }

  /** The code's test for closing the chunk rather than adding `x` to it. */
  predicate Exceeds(limit: int, content: Bytes, x: Bytes) { |content| + |x| + 2 > limit }

  /** The runs of listings the packer forms from a started run and the listings still to come. */
  function PackFrom(limit: int, cur: seq<Bytes>, rest: seq<Bytes>): seq<seq<Bytes>>
    decreases |rest|
  {
    if rest == [] then [cur]
    else if Exceeds(limit, Content(cur), rest[0]) then [cur] + PackFrom(limit, [rest[0]], rest[1..])
    else PackFrom(limit, cur + [rest[0]], rest[1..])
  }

  function Pack(limit: int, items: seq<Bytes>): seq<seq<Bytes>> {
    if items == [] then [] else PackFrom(limit, [items[0]], items[1..])
  }

  function Blobs(runs: seq<seq<Bytes>>): seq<Bytes> {
    seq(|runs|, i requires 0 <= i < |runs| => Blob(runs[i]))
  }

  /** A community without listings still gets one chunk, the empty array. */
  function Chunks(limit: int, items: seq<Bytes>): seq<Bytes> {
    if items == [] then [Blob([])] else Blobs(Pack(limit, items))
  }

  function JsonOf(listings: seq<Listing>): seq<Bytes> {
    seq(|listings|, i requires 0 <= i < |listings| => listings[i].json)
  }

  datatype GroupError = GroupIsComplete

  class DataBlobGroup {
    var entries: seq<Bytes>
    var isComplete: bool

    constructor ()
      ensures entries == [] && !isComplete
    {
      entries, isComplete := [], false;
    }

    method AddEntry(data: Bytes) returns (r: Result<(), GroupError>)
      modifies this
      ensures isComplete == old(isComplete)
      ensures r == if isComplete then Err(GroupIsComplete) else Ok(())
      ensures entries == if isComplete then old(entries) else old(entries) + [data]
    {
      if isComplete {
        return Err(GroupIsComplete);
      }
      entries := entries + [data];
      return Ok(());
    }

    method SetComplete()
      modifies this
      ensures isComplete && entries == old(entries)
    {
      isComplete := true;
    }
  }

  /**
   Writes the chunks of the community whose listing query returns `order`. Listings have non-empty
   text; the limit may be anything.
   */
  method UpdateForCommunity(table: Table, order: seq<int>, chunkSizeLimit: Option<int>)
    returns (group: DataBlobGroup)
    requires Distinct(order)
    requires forall id | id in table :: table[id] != []
    ensures fresh(group) && group.isComplete
    ensures chunkSizeLimit.None? || chunkSizeLimit.value == 0 ==>
              group.entries == Chunks(14000000, JsonOf(RowsOf(table, order)))
    ensures chunkSizeLimit.Some? && chunkSizeLimit.value != 0 ==>
              group.entries == Chunks(chunkSizeLimit.value, JsonOf(RowsOf(table, order)))
  {
    var limit := ChunkLimit(chunkSizeLimit);
    ghost var items := JsonOf(RowsOf(table, order));
    group := new DataBlobGroup();
    var content: Bytes := [];
    ghost var runs: seq<seq<Bytes>>, cur: seq<Bytes> := [], [];
    var batches := Batch(1000, order);
    assert batches[0..] == batches;
    for i := 0 to |batches|
      invariant Packing(limit, items, runs, cur, JsonOf(RowsOf(table, Flatten(batches[i..]))))
      invariant !group.isComplete && group.entries == Blobs(runs) && content == Content(cur)
    {
      BatchIsDistinct(batches, i);
      var listings := GetPackageListingChunk(table, batches[i]);
      ghost var later := JsonOf(RowsOf(table, Flatten(batches[i + 1..])));
      NextBatch(table, batches, i);
      assert listings[0..] == listings;
      for j := 0 to |listings|
        invariant Packing(limit, items, runs, cur, JsonOf(listings[j..]) + later)
        invariant !group.isComplete && group.entries == Blobs(runs) && content == Content(cur)
      {
        var json := listings[j].json;
        RowsOfMembers(table, batches[i]);
        assert listings[j] in RowsOf(table, batches[i]) && json != [];
        NextListing(listings, j, later);
        PackingStep(limit, items, runs, cur, json, JsonOf(listings[j + 1..]) + later);
        if content == [] {
          content := json;
          cur := [json];
        } else if |content| + |json| + 2 > limit {
          var _ := group.AddEntry([LBRACKET] + content + [RBRACKET]);
          content := json;
          runs, cur := runs + [cur], [json];
        } else {
          content := content + ([COMMA] + json);
          cur := cur + [json];
        }
      }
      assert JsonOf(listings[|listings|..]) + later == later;
    }
    if |content| > 0 || group.entries == [] {
      var _ := group.AddEntry([LBRACKET] + content + [RBRACKET]);
    }
    PackingDone(limit, items, runs, cur);
    group.SetComplete();
  }

  // ----- the loop's invariant -----

  /** Closed runs, the run being built and what is still to come account for the whole packing. */
  ghost predicate Packing(limit: int, items: seq<Bytes>, runs: seq<seq<Bytes>>, cur: seq<Bytes>, rest: seq<Bytes>) {
    && (forall x | x in cur :: x != [])
    && if cur == [] then runs == [] && rest == items
       else Pack(limit, items) == runs + PackFrom(limit, cur, rest)
  }

  lemma ContentIsEmpty(cur: seq<Bytes>)
    requires forall x | x in cur :: x != []
    ensures Content(cur) == [] <==> cur == []
  {
    if cur != [] {
      assert cur[0] in cur;
    }
  }

  lemma PackingStep(limit: int, items: seq<Bytes>, runs: seq<seq<Bytes>>, cur: seq<Bytes>, x: Bytes, rest: seq<Bytes>)
    requires Packing(limit, items, runs, cur, [x] + rest) && x != []
    ensures Content(cur) == [] <==> cur == []
    ensures cur == [] ==> Packing(limit, items, runs, [x], rest) && Content([x]) == x
    ensures cur != [] && Exceeds(limit, Content(cur), x) ==>
              && Packing(limit, items, runs + [cur], [x], rest)
              && Blobs(runs + [cur]) == Blobs(runs) + [Blob(cur)]
    ensures cur != [] && !Exceeds(limit, Content(cur), x) ==>
              && Packing(limit, items, runs, cur + [x], rest)
              && Content(cur + [x]) == Content(cur) + ([COMMA] + x)
  {
    ContentIsEmpty(cur);
    assert ([x] + rest)[1..] == rest;
    if cur != [] {
      if Exceeds(limit, Content(cur), x) {
        assert runs + ([cur] + PackFrom(limit, [x], rest)) == runs + [cur] + PackFrom(limit, [x], rest);
      } else {
        JoinSnoc(cur, x, COMMA);
      }
    }
  }

  lemma PackingDone(limit: int, items: seq<Bytes>, runs: seq<seq<Bytes>>, cur: seq<Bytes>)
    requires Packing(limit, items, runs, cur, [])
    ensures Content(cur) == [] <==> cur == []
    ensures Chunks(limit, items) ==
            if Content(cur) != [] || runs == [] then Blobs(runs) + [Blob(cur)] else Blobs(runs)
  {
    ContentIsEmpty(cur);
    if cur != [] {
      assert Pack(limit, items) == runs + [cur];
    }
  }

  lemma {:induction false} RowsOfConcat(table: Table, a: seq<int>, b: seq<int>)
    ensures RowsOf(table, a + b) == RowsOf(table, a) + RowsOf(table, b)
  {
    if a == [] {
      assert a + b == b;
    } else {
      RowsOfConcat(table, a[1..], b);
      assert (a + b)[1..] == a[1..] + b && (a + b)[0] == a[0];
      var head := RowOf(table, a[0]);
      assert head + (RowsOf(table, a[1..]) + RowsOf(table, b)) == head + RowsOf(table, a[1..]) + RowsOf(table, b);
    }
  }

  lemma NextBatch(table: Table, batches: seq<seq<int>>, i: nat)
    requires i < |batches|
    ensures JsonOf(RowsOf(table, Flatten(batches[i..]))) ==
            JsonOf(RowsOf(table, batches[i])) + JsonOf(RowsOf(table, Flatten(batches[i + 1..])))
  {
    assert batches[i..][1..] == batches[i + 1..];
    RowsOfConcat(table, batches[i], Flatten(batches[i + 1..]));
  }

  lemma NextListing(listings: seq<Listing>, j: nat, later: seq<Bytes>)
    requires j < |listings|
    ensures JsonOf(listings[j..]) + later == [listings[j].json] + (JsonOf(listings[j + 1..]) + later)
  {
  }

  lemma {:induction false} BatchIsDistinct(batches: seq<seq<int>>, i: nat)
    requires i < |batches| && Distinct(Flatten(batches))
    ensures Distinct(batches[i])
  {
    var head, tail := batches[0], Flatten(batches[1..]);
    if i == 0 {
      assert head == Flatten(batches)[..|head|];
    } else {
      assert tail == Flatten(batches)[|head|..];
      BatchIsDistinct(batches[1..], i - 1);
    }
  }

  // ----- nothing lost: splitting the chunks gives the listings back -----

  function SplitAll(blobs: seq<Bytes>): Option<seq<Bytes>> {
    if blobs == [] then Some([])
    else
      var first, rest := SplitArray(blobs[0]), SplitAll(blobs[1..]);
      if first.None? || rest.None? then None else Some(first.value + rest.value)
  }

  lemma {:induction false} PackFromKeepsOrder(limit: int, cur: seq<Bytes>, rest: seq<Bytes>)
    requires cur != []
    ensures Flatten(PackFrom(limit, cur, rest)) == cur + rest
    ensures forall run | run in PackFrom(limit, cur, rest) :: run != []
    decreases |rest|
  {
    if rest == [] {
      assert [cur][1..] == [];
    } else if Exceeds(limit, Content(cur), rest[0]) {
      PackFromKeepsOrder(limit, [rest[0]], rest[1..]);
      var p := PackFrom(limit, [rest[0]], rest[1..]);
      assert ([cur] + p)[1..] == p;
    } else {
      PackFromKeepsOrder(limit, cur + [rest[0]], rest[1..]);
      assert cur + [rest[0]] + rest[1..] == cur + rest;
    }
  }

  /** The runs, end to end, are the listings; none is empty. */
  lemma PackKeepsOrder(limit: int, items: seq<Bytes>)
    ensures Flatten(Pack(limit, items)) == items
    ensures forall run | run in Pack(limit, items) :: run != []
  {
    if items != [] {
      PackFromKeepsOrder(limit, [items[0]], items[1..]);
    }
  }

  lemma {:induction false} SplitOfBlobs(runs: seq<seq<Bytes>>)
    requires forall x | x in Flatten(runs) :: IsObject(x)
    ensures SplitAll(Blobs(runs)) == Some(Flatten(runs))
  {
    if runs != [] {
      assert forall x | x in runs[0] :: x in Flatten(runs);
      assert forall x | x in Flatten(runs[1..]) :: x in Flatten(runs);
      SplitOfArray(runs[0]);
      SplitOfBlobs(runs[1..]);
      assert Blobs(runs)[1..] == Blobs(runs[1..]);
    }
  }

  /**
   Reading every chunk as a JSON array and concatenating gives exactly the listings in query order,
   each once.
   */
  lemma ChunksRoundTrip(limit: int, items: seq<Bytes>)
    requires forall x | x in items :: IsObject(x)
    ensures SplitAll(Chunks(limit, items)) == Some(items)
  {
    PackKeepsOrder(limit, items);
    if items == [] {
      var none: seq<seq<Bytes>> := [[]];
      assert none[1..] == [] && Flatten(none) == [];
      SplitOfBlobs(none);
      assert Blobs(none) == Chunks(limit, items);
    } else {
      SplitOfBlobs(Pack(limit, items));
    }
  }

  // ----- the packing is as small as any -----

  function TotalSize(run: seq<Bytes>): nat {
    if run == [] then 0 else |run[0]| + TotalSize(run[1..])
  }

  /** A run the code could have built: one listing, or a total the size test lets through. */
  predicate Fits(limit: int, run: seq<Bytes>) {
    |run| <= 1 || TotalSize(run) + |run| <= limit
  }

  lemma {:induction false} ContentSize(run: seq<Bytes>)
    requires run != []
    ensures |Content(run)| == TotalSize(run) + |run| - 1
  {
    if |run| > 1 {
      ContentSize(run[1..]);
    }
  }

  lemma {:induction false} TotalSizeOfConcat(a: seq<Bytes>, b: seq<Bytes>)
    ensures TotalSize(a + b) == TotalSize(a) + TotalSize(b)
  {
    if a == [] {
      assert a + b == b;
    } else {
      assert (a + b)[1..] == a[1..] + b;
      TotalSizeOfConcat(a[1..], b);
    }
  }

  /** The size test, in terms of the run it would extend. */
  lemma ExceedsIsNotFits(limit: int, cur: seq<Bytes>, x: Bytes)
    requires cur != []
    ensures Exceeds(limit, Content(cur), x) <==> !Fits(limit, cur + [x])
  {
    ContentSize(cur);
    TotalSizeOfConcat(cur, [x]);
    assert [x][1..] == [];
  }

  /** Part of a fitting run fits. */
  lemma SubRunFits(limit: int, a: seq<Bytes>, b: seq<Bytes>, c: seq<Bytes>)
    requires Fits(limit, a + b + c)
    ensures Fits(limit, b)
  {
    TotalSizeOfConcat(a + b, c);
    TotalSizeOfConcat(a, b);
  }

  lemma {:induction false} PackFromFits(limit: int, cur: seq<Bytes>, rest: seq<Bytes>)
    requires cur != [] && Fits(limit, cur)
    ensures forall run | run in PackFrom(limit, cur, rest) :: Fits(limit, run)
    decreases |rest|
  {
    if rest != [] {
      ExceedsIsNotFits(limit, cur, rest[0]);
      if Exceeds(limit, Content(cur), rest[0]) {
        PackFromFits(limit, [rest[0]], rest[1..]);
      } else {
        PackFromFits(limit, cur + [rest[0]], rest[1..]);
      }
    }
  }

  /**
   Greedy is never behind: any fitting split of the listings from before the current run's start
   onwards has as many runs as the packer still produces.
   */
  lemma {:induction false} GreedyStaysAhead(limit: int, before: seq<Bytes>, cur: seq<Bytes>, rest: seq<Bytes>,
                                            other: seq<seq<Bytes>>)
    requires cur != []
    requires Flatten(other) == before + cur + rest
    requires forall run | run in other :: Fits(limit, run)
    ensures |PackFrom(limit, cur, rest)| <= |other|
    decreases |rest|
  {
    if rest != [] {
      var x := rest[0];
      if !Exceeds(limit, Content(cur), x) {
        assert before + (cur + [x]) + rest[1..] == before + cur + rest;
        GreedyStaysAhead(limit, before, cur + [x], rest[1..], other);
      } else {
        var started := before + cur;
        FirstRunEndsBefore(limit, before, cur, rest, other);
        assert Flatten(other[1..]) == Flatten(other)[|other[0]|..] == (started + rest)[|other[0]|..];
        assert Flatten(other[1..]) == started[|other[0]|..] + [x] + rest[1..];
        GreedyStaysAhead(limit, started[|other[0]|..], [x], rest[1..], other[1..]);
      }
    }
  }

  /** When the packer must close its run, the other split's first run has ended too. */
  lemma FirstRunEndsBefore(limit: int, before: seq<Bytes>, cur: seq<Bytes>, rest: seq<Bytes>, other: seq<seq<Bytes>>)
    requires cur != [] && rest != [] && Exceeds(limit, Content(cur), rest[0])
    requires Flatten(other) == before + cur + rest
    requires forall run | run in other :: Fits(limit, run)
    ensures other != [] && |other[0]| <= |before + cur|
  {
    var first, lo, hi := other[0], |before|, |before| + |cur| + 1;
    if |first| >= hi {
      SliceOfPrefix(first, Flatten(other[1..]), before, cur, rest);
      assert first[..lo] + first[lo..hi] + first[hi..] == first && first in other;
      SubRunFits(limit, first[..lo], first[lo..hi], first[hi..]);
      ExceedsIsNotFits(limit, cur, rest[0]);
    }
  }

  lemma SliceOfPrefix(first: seq<Bytes>, later: seq<Bytes>, before: seq<Bytes>, cur: seq<Bytes>, rest: seq<Bytes>)
    requires first + later == before + cur + rest && rest != []
    requires |first| >= |before| + |cur| + 1
    ensures first[|before|..|before| + |cur| + 1] == cur + [rest[0]]
  {
    var lo, hi := |before|, |before| + |cur| + 1;
    assert first[lo..hi] == (first + later)[lo..hi];
  }

  /**
   The packer uses the fewest chunks: its own runs fit, and every order-preserving split of the
   listings into runs that fit has at least as many.
   */
  lemma {:induction false} PackIsMinimal(limit: int, items: seq<Bytes>, other: seq<seq<Bytes>>)
    requires Flatten(other) == items
    requires forall run | run in other :: Fits(limit, run)
    ensures forall run | run in Pack(limit, items) :: Fits(limit, run)
    ensures |Pack(limit, items)| <= |other|
  {
    if items != [] {
      PackFromFits(limit, [items[0]], items[1..]);
      assert [] + [items[0]] + items[1..] == items;
      GreedyStaysAhead(limit, [], [items[0]], items[1..], other);
    }
  }

  // ----- how large a chunk gets -----

  /**
   A chunk with several listings is at most one byte over the limit: the test counts the brackets but
   not the comma it adds. It is over exactly when the run's own total meets the limit.
   */
  lemma BlobSize(limit: int, items: seq<Bytes>, run: seq<Bytes>)
    requires run in Pack(limit, items)
    ensures |run| >= 2 ==> |Blob(run)| <= limit + 1
    ensures |run| >= 2 ==> (|Blob(run)| > limit <==> TotalSize(run) + |run| == limit)
    ensures |Blob(run)| > limit + 1 ==> |run| == 1
  {
    PackKeepsOrder(limit, items);
    PackFromFits(limit, [items[0]], items[1..]);
    ContentSize(run);
  }

  /** The extra byte does occur: two listings of six bytes and a limit of fourteen. */
  lemma LimitIsExceededByOne()
    ensures exists items: seq<Bytes> :: |Pack(14, items)| == 1 && |Blob(Pack(14, items)[0])| == 15
  {
    var x: Bytes := [LBRACE, QUOTE, QUOTE, COLON, 0x31, RBRACE];
    assert [x, x][1..] == [x] && [x][1..] == [];
    assert PackFrom(14, [x, x], []) == [[x, x]];
    assert [x] + [x] == [x, x];
    assert |Pack(14, [x, x])| == 1 && |Blob(Pack(14, [x, x])[0])| == 15;
  }

  lemma {:induction false} PackFromBoundary(limit: int, cur: seq<Bytes>, rest: seq<Bytes>, i: nat)
    requires cur != [] && i + 1 < |PackFrom(limit, cur, rest)|
    ensures var runs := PackFrom(limit, cur, rest);
            runs[i + 1] != [] && Exceeds(limit, Content(runs[i]), runs[i + 1][0])
    decreases |rest|
  {
    if Exceeds(limit, Content(cur), rest[0]) {
      if i > 0 {
        PackFromBoundary(limit, [rest[0]], rest[1..], i - 1);
      } else {
        PackFromKeepsOrder(limit, [rest[0]], rest[1..]);
        var p := PackFrom(limit, [rest[0]], rest[1..]);
        assert p[0] in p;
        FirstOfPackFrom(limit, [rest[0]], rest[1..]);
      }
    } else {
      PackFromBoundary(limit, cur + [rest[0]], rest[1..], i);
    }
  }

  lemma {:induction false} FirstOfPackFrom(limit: int, cur: seq<Bytes>, rest: seq<Bytes>)
    requires cur != []
    ensures PackFrom(limit, cur, rest) != []
    ensures PackFrom(limit, cur, rest)[0] != [] && PackFrom(limit, cur, rest)[0][0] == cur[0]
    decreases |rest|
  {
    if rest != [] && !Exceeds(limit, Content(cur), rest[0]) {
      FirstOfPackFrom(limit, cur + [rest[0]], rest[1..]);
    }
  }

  /** No chunk was closed early: the next chunk's first listing would not have passed the test. */
  lemma ChunksAreFull(limit: int, items: seq<Bytes>, i: nat)
    requires i + 1 < |Pack(limit, items)|
    ensures var runs := Pack(limit, items);
            runs[i + 1] != [] && Exceeds(limit, Content(runs[i]), runs[i + 1][0])
  {
    PackFromBoundary(limit, [items[0]], items[1..], i);
  }
}
