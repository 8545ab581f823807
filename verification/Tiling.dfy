/**
 Multipart upload plan: the server cuts a file size into parts, the browser slices the file by that
 plan and uploads the slices, and S3 joins the parts it is given.
 */
module Tiling {
  import opened Prelude
  import opened Sorting

  const UPLOAD_PART_SIZE: int := 1024 * 1024 * 50

  /** `part_number`, `offset` and `length` of one planned part; the length is signed into its URL. */
  datatype Part = Part(number: int, offset: int, length: int)

  /** S3 answers an uploaded part with a tag that identifies its content. */
  datatype CompletedPart = CompletedPart(etag: Bytes, number: int)

  // ----- the plan -----

  /** `-(-size // part_size)` */
  function CeilDiv(size: int, partSize: int): int
    requires partSize > 0
  {
    -((-size) / partSize)
  }

  lemma CeilDivBounds(size: int, partSize: int)
    requires partSize > 0
    ensures (CeilDiv(size, partSize) - 1) * partSize < size <= CeilDiv(size, partSize) * partSize
  {
  }

  lemma CeilDivNonNegative(size: int, partSize: int)
    requires partSize > 0 && size >= 0
    ensures CeilDiv(size, partSize) >= 0 && (CeilDiv(size, partSize) == 0 <==> size == 0)
  {
  }

  /**
   The parts tile the file from `offset` to its end: they are numbered consecutively, each starts where
   the one before it ended, and all but the last are full.
   */
  ghost predicate Tiles(parts: seq<Part>, number: int, offset: int, size: int, partSize: int) {
    if parts == [] then offset == size
    else
      && parts[0].number == number && parts[0].offset == offset
      && 1 <= parts[0].length <= partSize
      && (|parts| > 1 ==> parts[0].length == partSize)
      && Tiles(parts[1..], number + 1, offset + parts[0].length, size, partSize)
  }

  ghost predicate Full(parts: seq<Part>, partSize: int) {
    forall i :: 0 <= i < |parts| ==> parts[i].length == partSize
  }

  lemma {:induction false} TilesSnoc(parts: seq<Part>, number: int, offset: int, reached: int, partSize: int,
                                     length: int)
    requires Tiles(parts, number, offset, reached, partSize) && Full(parts, partSize) && 1 <= length <= partSize
    ensures Tiles(parts + [Part(number + |parts|, reached, length)], number, offset, reached + length, partSize)
  {
    var last := Part(number + |parts|, reached, length);
    if parts == [] {
      assert [last][1..] == [];
    } else {
      TilesSnoc(parts[1..], number + 1, offset + partSize, reached, partSize, length);
      assert (parts + [last])[1..] == parts[1..] + [last];
    }
  }

  /** Where the part with this number starts and how long it is. */
  lemma PartBounds(size: int, partSize: int, number: int, count: int)
    requires partSize > 0 && (count - 1) * partSize < size <= count * partSize
    requires 1 <= number <= count
    ensures var offset := (number - 1) * partSize;
            var length := Min(partSize, size - offset);
            && 1 <= length <= partSize
            && (number < count ==> length == partSize && offset + length == number * partSize)
            && (number == count ==> offset + length == size)
  {
  }

  /** The loop of `get_signed_upload_urls`. */
  method PlanParts(size: int, partSize: int) returns (parts: seq<Part>)
    requires size >= 0 && partSize > 0
    ensures Tiles(parts, 1, 0, size, partSize)
    ensures |parts| == CeilDiv(size, partSize)
  {
    var count := CeilDiv(size, partSize);
    CeilDivBounds(size, partSize);
    CeilDivNonNegative(size, partSize);
    parts := [];
    ghost var reached := 0;
    for number := 1 to count + 1
      invariant |parts| == number - 1
      invariant Tiles(parts, 1, 0, reached, partSize)
      invariant number <= count ==> Full(parts, partSize) && reached == (number - 1) * partSize
      invariant number > count ==> reached == size
    {
      PartBounds(size, partSize, number, count);
      var offset := (number - 1) * partSize;
      var length := Min(partSize, size - offset);
      TilesSnoc(parts, 1, 0, reached, partSize, length);
      parts := parts + [Part(number, offset, length)];
      reached := offset + length;
    }
  }

  // ----- slicing, storing, joining -----

  /** `Blob.slice(start, end)`, which clips to the blob. */
  function Slice(s: Bytes, start: int, end: int): Bytes {
    var from := Min(Max(start, 0), |s|);
    var to := Max(from, Min(end, |s|));
    s[from..to]
  }

  /** The browser's slice for a part. */
  function SliceOf(file: Bytes, part: Part): Bytes {
    var end := part.offset + part.length;
    if end < |file| then Slice(file, part.offset, end) else Slice(file, part.offset, |file|)
  }

  /** A part upload is accepted only with the signed length; the last accepted body of a number counts. */
  function PutPart(stored: map<int, Bytes>, part: Part, body: Bytes): map<int, Bytes> {
    if |body| == part.length then stored[part.number := body] else stored
  }

  ghost predicate Planned(puts: seq<nat>, count: nat) {
    forall i :: 0 <= i < |puts| ==> puts[i] < count
  }

  /** Uploading the slices of the planned parts in the order `puts`, repeats included. */
  ghost function PutAll(stored: map<int, Bytes>, file: Bytes, parts: seq<Part>, puts: seq<nat>): map<int, Bytes>
    requires Planned(puts, |parts|)
    decreases |puts|
  {
    if puts == [] then stored
    else PutAll(PutPart(stored, parts[puts[0]], SliceOf(file, parts[puts[0]])), file, parts, puts[1..])
  }

  /** S3 joins the listed parts, if there are any, they ascend strictly, and each was uploaded as tagged. */
  predicate Joinable(stored: map<int, Bytes>, parts: seq<CompletedPart>) {
    && parts != []
    && (forall i :: 0 <= i < |parts| - 1 ==> parts[i].number < parts[i + 1].number)
    && (forall i :: 0 <= i < |parts| ==> parts[i].number in stored && stored[parts[i].number] == parts[i].etag)
  }

  function Joined(stored: map<int, Bytes>, parts: seq<CompletedPart>): Bytes
    requires forall i :: 0 <= i < |parts| ==> parts[i].number in stored
  {
    if parts == [] then [] else stored[parts[0].number] + Joined(stored, parts[1..])
  }

  function ByNumber(): (CompletedPart, CompletedPart) -> bool {
    (a: CompletedPart, b: CompletedPart) => a.number <= b.number
  }

  /** What the browser reports once every planned part has been uploaded, in plan order. */
  function Completions(file: Bytes, parts: seq<Part>): seq<CompletedPart> {
    seq(|parts|, i requires 0 <= i < |parts| => CompletedPart(SliceOf(file, parts[i]), parts[i].number))
  }

  /** A part's number, and that it lies within the file. */
  lemma {:induction false} PartInFile(parts: seq<Part>, number: int, offset: int, size: int, partSize: int, i: nat)
    requires Tiles(parts, number, offset, size, partSize) && i < |parts| && 0 <= offset
    ensures parts[i].number == number + i
    ensures 0 <= parts[i].offset && parts[i].length >= 1 && parts[i].offset + parts[i].length <= size
  {
    if i > 0 {
      PartInFile(parts[1..], number + 1, offset + parts[0].length, size, partSize, i - 1);
    } else if |parts| > 1 {
      PartInFile(parts[1..], number + 1, offset + parts[0].length, size, partSize, 0);
    }
  }

  /** A slice has exactly its planned length and place, so its signed length matches. */
  lemma SliceIsExact(file: Bytes, part: Part)
    requires 0 <= part.offset && part.length >= 1 && part.offset + part.length <= |file|
    ensures SliceOf(file, part) == file[part.offset..part.offset + part.length]
  {
  }

  /** The parts uploaded so far hold their slices. */
  ghost predicate HoldsSlices(stored: map<int, Bytes>, file: Bytes, parts: seq<Part>, done: set<nat>) {
    forall i: nat :: i in done && i < |parts| ==>
      parts[i].number in stored && stored[parts[i].number] == SliceOf(file, parts[i])
  }

  lemma {:induction false} PutOne(stored: map<int, Bytes>, file: Bytes, parts: seq<Part>, partSize: int,
                                  done: set<nat>, k: nat)
    requires Tiles(parts, 1, 0, |file|, partSize) && k < |parts| && HoldsSlices(stored, file, parts, done)
    ensures HoldsSlices(PutPart(stored, parts[k], SliceOf(file, parts[k])), file, parts, done + {k})
  {
    PartInFile(parts, 1, 0, |file|, partSize, k);
    SliceIsExact(file, parts[k]);
    forall i: nat | i < |parts|
      ensures parts[i].number == 1 + i
    {
      PartInFile(parts, 1, 0, |file|, partSize, i);
    }
  }

  /** Whatever the order and however often parts are retried, each uploaded number holds its slice. */
  lemma {:induction false} PutAllStores(stored: map<int, Bytes>, file: Bytes, parts: seq<Part>, partSize: int,
                                        puts: seq<nat>, done: set<nat>)
    requires Tiles(parts, 1, 0, |file|, partSize) && Planned(puts, |parts|)
    requires HoldsSlices(stored, file, parts, done)
    ensures HoldsSlices(PutAll(stored, file, parts, puts), file, parts, done + Members(puts))
    decreases |puts|
  {
    if puts == [] {
      assert done + Members(puts) == done;
    } else {
      var k := puts[0];
      PutOne(stored, file, parts, partSize, done, k);
      PutAllStores(PutPart(stored, parts[k], SliceOf(file, parts[k])), file, parts, partSize, puts[1..], done + {k});
      assert done + {k} + Members(puts[1..]) == done + Members(puts);
    }
  }

  ghost function Members(puts: seq<nat>): set<nat> {
    if puts == [] then {} else {puts[0]} + Members(puts[1..])
  }

  lemma {:induction false} MemberOf(puts: seq<nat>, k: nat)
    requires k in puts
    ensures k in Members(puts)
  {
    if k != puts[0] {
      MemberOf(puts[1..], k);
    }
  }

  /** Joining the slices of parts that tile the rest of the file gives the rest of the file. */
  lemma {:induction false} JoinedSlices(stored: map<int, Bytes>, file: Bytes, parts: seq<Part>, partSize: int,
                                        number: int, offset: int)
    requires Tiles(parts, number, offset, |file|, partSize) && 0 <= offset
    requires forall i :: 0 <= i < |parts| ==>
               parts[i].number in stored && stored[parts[i].number] == SliceOf(file, parts[i])
    ensures offset <= |file|
    ensures Joined(stored, Completions(file, parts)) == file[offset..]
  {
    if parts != [] {
      PartInFile(parts, number, offset, |file|, partSize, 0);
      SliceIsExact(file, parts[0]);
      JoinedSlices(stored, file, parts[1..], partSize, number + 1, offset + parts[0].length);
      assert Completions(file, parts)[1..] == Completions(file, parts[1..]);
    }
  }

  /** Sorting by part number puts any arrangement of the completions back in plan order. */
  lemma {:induction false} SortedCompletions(file: Bytes, parts: seq<Part>, partSize: int, reported: seq<CompletedPart>)
    requires Tiles(parts, 1, 0, |file|, partSize)
    requires multiset(reported) == multiset(Completions(file, parts))
    ensures Sort(ByNumber(), reported) == Completions(file, parts)
    ensures forall i :: 0 <= i < |parts| ==> Completions(file, parts)[i].number == i + 1
  {
    var c := Completions(file, parts);
    forall i | 0 <= i < |parts|
      ensures c[i].number == i + 1
    {
      PartInFile(parts, 1, 0, |file|, partSize, i);
    }
    SortRestores(ByNumber(), reported, c);
  }

  /** Every planned part has its slice stored. */
  ghost predicate HoldsAllSlices(stored: map<int, Bytes>, file: Bytes, parts: seq<Part>) {
    forall i :: 0 <= i < |parts| ==> parts[i].number in stored && stored[parts[i].number] == SliceOf(file, parts[i])
  }

  /**
   S3 accepts the sorted completions, reported in any order, exactly if there is a part and every slice is
   stored, and then what it joins is the file.
   */
  lemma {:induction false} JoinableIff(stored: map<int, Bytes>, file: Bytes, parts: seq<Part>, partSize: int,
                                       reported: seq<CompletedPart>)
    requires Tiles(parts, 1, 0, |file|, partSize)
    requires multiset(reported) == multiset(Completions(file, parts))
    ensures var sorted := Sort(ByNumber(), reported);
            && (Joinable(stored, sorted) <==> parts != [] && HoldsAllSlices(stored, file, parts))
            && (Joinable(stored, sorted) ==> Joined(stored, sorted) == file)
  {
    var c := Completions(file, parts);
    SortedCompletions(file, parts, partSize, reported);
    if Joinable(stored, c) {
      forall i | 0 <= i < |parts|
        ensures parts[i].number in stored && stored[parts[i].number] == SliceOf(file, parts[i])
      {
        assert c[i].number in stored && stored[c[i].number] == c[i].etag;
      }
      JoinedSlices(stored, file, parts, partSize, 1, 0);
      assert file[0..] == file;
    }
  }

  lemma {:induction false} AscendsThroughout(parts: seq<CompletedPart>, i: nat, j: nat)
    requires i < j < |parts| && forall k :: 0 <= k < |parts| - 1 ==> parts[k].number < parts[k + 1].number
    ensures parts[i].number < parts[j].number
    decreases j
  {
    if i + 1 < j {
      AscendsThroughout(parts, i, j - 1);
    }
    assert parts[j - 1].number < parts[j - 1 + 1].number;
  }

  /** Without the sort only a report that already is in plan order would be accepted. */
  lemma {:induction false} OnlyPlanOrderIsAccepted(stored: map<int, Bytes>, file: Bytes, parts: seq<Part>,
                                                   partSize: int, reported: seq<CompletedPart>)
    requires Tiles(parts, 1, 0, |file|, partSize) && parts != [] && HoldsAllSlices(stored, file, parts)
    requires multiset(reported) == multiset(Completions(file, parts))
    ensures Joinable(stored, reported) <==> reported == Completions(file, parts)
  {
    SortedCompletions(file, parts, partSize, reported);
    JoinableIff(stored, file, parts, partSize, reported);
    if Joinable(stored, reported) {
      forall i, j | 0 <= i < j < |reported|
        ensures reported[i].number < reported[j].number
      {
        AscendsThroughout(reported, i, j);
      }
      SortRestores(ByNumber(), reported, reported);
    }
  }

  /**
   End to end: for a file of at least one byte and any part size, if every planned part was uploaded
   at least once, in any order and with any repeats, and the completions are reported in any order,
   then S3 accepts the sorted list and the object it joins is the file.
   */
  lemma {:induction false} UploadReproducesFile(file: Bytes, parts: seq<Part>, partSize: int, puts: seq<nat>, reported: seq<CompletedPart>)
    requires |file| >= 1 && Tiles(parts, 1, 0, |file|, partSize)
    requires Planned(puts, |parts|) && forall k: nat :: k < |parts| ==> k in puts
    requires multiset(reported) == multiset(Completions(file, parts))
    ensures var stored := PutAll(map[], file, parts, puts);
            var sorted := Sort(ByNumber(), reported);
            Joinable(stored, sorted) && Joined(stored, sorted) == file
  {
    var stored := PutAll(map[], file, parts, puts);
    PutAllStores(map[], file, parts, partSize, puts, {});
    forall i | 0 <= i < |parts|
      ensures parts[i].number in stored && stored[parts[i].number] == SliceOf(file, parts[i])
    {
      MemberOf(puts, i);
    }
    JoinableIff(stored, file, parts, partSize, reported);
  }

  // ----- whatever a client sends -----

  /** Every stored body belongs to a planned part and has the length that was signed for it. */
  ghost predicate HasSignedLengths(stored: map<int, Bytes>, parts: seq<Part>) {
    forall n :: n in stored ==> 1 <= n <= |parts| && |stored[n]| == parts[n - 1].length
  }

  /** Uploading any bodies to the addresses of planned parts. */
  ghost function PutBodies(stored: map<int, Bytes>, parts: seq<Part>, puts: seq<(nat, Bytes)>): map<int, Bytes>
    requires forall i :: 0 <= i < |puts| ==> puts[i].0 < |parts|
    decreases |puts|
  {
    if puts == [] then stored else PutBodies(PutPart(stored, parts[puts[0].0], puts[0].1), parts, puts[1..])
  }

  lemma {:induction false} BodiesHaveSignedLengths(stored: map<int, Bytes>, parts: seq<Part>, size: int, partSize: int,
                                                   puts: seq<(nat, Bytes)>)
    requires Tiles(parts, 1, 0, size, partSize) && HasSignedLengths(stored, parts)
    requires forall i :: 0 <= i < |puts| ==> puts[i].0 < |parts|
    ensures HasSignedLengths(PutBodies(stored, parts, puts), parts)
    decreases |puts|
  {
    if puts != [] {
      PartInFile(parts, 1, 0, size, partSize, puts[0].0);
      BodiesHaveSignedLengths(PutPart(stored, parts[puts[0].0], puts[0].1), parts, size, partSize, puts[1..]);
    }
  }

  /** Joining some of the parts of a plan in order, each of its length, stays within the plan. */
  lemma {:induction false} JoinedWithin(stored: map<int, Bytes>, list: seq<CompletedPart>, parts: seq<Part>,
                                        number: int, offset: int, size: int, partSize: int)
    requires Tiles(parts, number, offset, size, partSize)
    requires forall i :: 0 <= i < |list| - 1 ==> list[i].number < list[i + 1].number
    requires forall i :: 0 <= i < |list| ==>
               && number <= list[i].number < number + |parts| && list[i].number in stored
               && |stored[list[i].number]| == parts[list[i].number - number].length
    ensures |Joined(stored, list)| <= size - offset
    ensures |list| == |parts| ==> |Joined(stored, list)| == size - offset
    ensures |list| <= |parts|
    decreases |parts|
  {
    if parts == [] {
      assert list == [];
    } else if list != [] && list[0].number == number {
      forall i | 0 <= i < |list[1..]|
        ensures number + 1 <= list[1..][i].number
      {
        AscendsThroughout(list, 0, i + 1);
      }
      JoinedWithin(stored, list[1..], parts[1..], number + 1, offset + parts[0].length, size, partSize);
    } else {
      forall i | 0 <= i < |list|
        ensures number + 1 <= list[i].number
      {
        if i > 0 {
          AscendsThroughout(list, 0, i);
        }
      }
      JoinedWithin(stored, list, parts[1..], number + 1, offset + parts[0].length, size, partSize);
    }
  }

  /**
   Since the lengths are signed: whatever a client uploads to the addresses it was given and whatever it
   reports, an object that S3 joins is no larger than the size the upload was created with, and exactly
   that large if every part is in it.
   */
  lemma {:induction false} ObjectWithinDeclaredSize(size: int, parts: seq<Part>, partSize: int,
                                                    puts: seq<(nat, Bytes)>, reported: seq<CompletedPart>)
    requires Tiles(parts, 1, 0, size, partSize)
    requires forall i :: 0 <= i < |puts| ==> puts[i].0 < |parts|
    requires Joinable(PutBodies(map[], parts, puts), Sort(ByNumber(), reported))
    ensures var content := Joined(PutBodies(map[], parts, puts), Sort(ByNumber(), reported));
            |content| <= size && (|Sort(ByNumber(), reported)| == |parts| ==> |content| == size)
  {
    BodiesHaveSignedLengths(map[], parts, size, partSize, puts);
    JoinedWithin(PutBodies(map[], parts, puts), Sort(ByNumber(), reported), parts, 1, 0, size, partSize);
  }
}
