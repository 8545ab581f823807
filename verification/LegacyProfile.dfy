/**
 The legacy profile store: rows addressed by content, three families of cache keys, and a storage cap.
 Checksums are taken as injective, so a checksum stands for the content it was computed from.
 */
module LegacyProfile {
  import opened Prelude

  type Id = nat

  datatype Checksum = Sha256(content: Bytes)

  datatype Profile = Profile(id: Id, size: nat, checksum: Checksum, fileName: string)

  datatype Error = StorageFull | DoesNotExist

  // ----- the store without caches -----

  /** What has been stored: each content once, with the id and the file name it was given. */
  datatype Entry = Entry(content: Bytes, id: Id, fileName: string)

  function TotalSize(ledger: seq<Entry>): nat {
    if ledger == [] then 0 else |ledger[0].content| + TotalSize(ledger[1..])
  }

  function Lookup(ledger: seq<Entry>, content: Bytes): Option<Id> {
    if ledger == [] then None
    else if ledger[0].content == content then Some(ledger[0].id)
    else Lookup(ledger[1..], content)
  }

  function NameOf(ledger: seq<Entry>, id: Id): Option<string> {
    if ledger == [] then None
    else if ledger[0].id == id then Some(ledger[0].fileName)
    else NameOf(ledger[1..], id)
  }

  /** An upload: refused when its size would pass the cap, even if the content is already stored. */
  function Upload(ledger: seq<Entry>, cap: nat, content: Bytes, newId: Id, newName: string):
    (seq<Entry>, Result<Id, Error>)
  {
    if |content| + TotalSize(ledger) > cap then (ledger, Err(StorageFull))
    else
      match Lookup(ledger, content)
      case Some(id) => (ledger, Ok(id))
      case None => (ledger + [Entry(content, newId, newName)], Ok(newId))
  }

  /** The file name under an id. */
  function Locate(ledger: seq<Entry>, id: Id): Result<string, Error> {
    if NameOf(ledger, id).Some? then Ok(NameOf(ledger, id).value) else Err(DoesNotExist)
  }

  lemma {:induction false} TotalSizeSnoc(ledger: seq<Entry>, e: Entry)
    ensures TotalSize(ledger + [e]) == TotalSize(ledger) + |e.content|
  {
    if ledger == [] {
      assert (ledger + [e])[1..] == [];
    } else {
      TotalSizeSnoc(ledger[1..], e);
      assert (ledger + [e])[1..] == ledger[1..] + [e];
    }
  }

  lemma {:induction false} LookupSnoc(ledger: seq<Entry>, e: Entry, content: Bytes)
    ensures Lookup(ledger + [e], content) ==
            if Lookup(ledger, content).Some? then Lookup(ledger, content)
            else if e.content == content then Some(e.id) else None
  {
    if ledger != [] {
      LookupSnoc(ledger[1..], e, content);
      assert (ledger + [e])[1..] == ledger[1..] + [e];
    } else {
      assert (ledger + [e])[1..] == [];
    }
  }

  lemma {:induction false} LookupFinds(ledger: seq<Entry>, content: Bytes)
    requires Lookup(ledger, content).Some?
    ensures exists e | e in ledger :: e.content == content && e.id == Lookup(ledger, content).value
  {
    if ledger[0].content == content {
      assert ledger[0] in ledger;
    } else {
      LookupFinds(ledger[1..], content);
    }
  }

  lemma {:induction false} NameOfFinds(ledger: seq<Entry>, id: Id)
    ensures NameOf(ledger, id).Some? ==> exists e | e in ledger :: e.id == id && e.fileName == NameOf(ledger, id).value
    ensures NameOf(ledger, id).None? ==> forall e | e in ledger :: e.id != id
  {
    if ledger != [] {
      if ledger[0].id == id {
        assert ledger[0] in ledger;
      } else {
        NameOfFinds(ledger[1..], id);
        assert ledger == [ledger[0]] + ledger[1..];
      }
    }
  }

  // ----- the rows and their ledger -----

  function LedgerOf(rows: seq<Profile>): seq<Entry> {
    seq(|rows|, i requires 0 <= i < |rows| => Entry(rows[i].checksum.content, rows[i].id, rows[i].fileName))
  }

  /** `aggregate(Sum("file_size"))`, with nothing counting as zero. */
  function SumSizes(rows: seq<Profile>): nat {
    if rows == [] then 0 else rows[0].size + SumSizes(rows[1..])
  }

  /** `filter(file_size=size, file_sha256=checksum).first()` */
  function FindContent(rows: seq<Profile>, size: nat, checksum: Checksum): Option<Profile> {
    if rows == [] then None
    else if rows[0].size == size && rows[0].checksum == checksum then Some(rows[0])
    else FindContent(rows[1..], size, checksum)
  }

  /** `get(id=id)` */
  function FindId(rows: seq<Profile>, id: Id): Option<Profile> {
    if rows == [] then None
    else if rows[0].id == id then Some(rows[0])
    else FindId(rows[1..], id)
  }

  ghost predicate SizesMatch(rows: seq<Profile>) {
    forall i :: 0 <= i < |rows| ==> rows[i].size == |rows[i].checksum.content|
  }

  lemma {:induction false} SumIsTotal(rows: seq<Profile>)
    requires SizesMatch(rows)
    ensures SumSizes(rows) == TotalSize(LedgerOf(rows))
  {
    if rows != [] {
      SumIsTotal(rows[1..]);
      assert LedgerOf(rows)[1..] == LedgerOf(rows[1..]);
    }
  }

  lemma {:induction false} FindIsLookup(rows: seq<Profile>, content: Bytes)
    requires SizesMatch(rows)
    ensures var found := FindContent(rows, |content|, Sha256(content));
            && Lookup(LedgerOf(rows), content) == (if found.Some? then Some(found.value.id) else None)
            && (found.Some? ==> found.value in rows)
  {
    if rows != [] {
      FindIsLookup(rows[1..], content);
      assert LedgerOf(rows)[1..] == LedgerOf(rows[1..]);
    }
  }

  lemma {:induction false} FindIsLocate(rows: seq<Profile>, id: Id)
    ensures NameOf(LedgerOf(rows), id) ==
            if FindId(rows, id).Some? then Some(FindId(rows, id).value.fileName) else None
  {
    if rows != [] {
      FindIsLocate(rows[1..], id);
      assert LedgerOf(rows)[1..] == LedgerOf(rows[1..]);
    }
  }

  /** `id` is the primary key. */
  ghost predicate IdsUnique(rows: seq<Profile>) {
    forall row :: row in rows ==> FindId(rows, row.id) == Some(row)
  }

  lemma {:induction false} FindIdSnoc(rows: seq<Profile>, row: Profile, id: Id)
    requires FindId(rows, row.id).None?
    ensures FindId(rows + [row], id) == if id == row.id then Some(row) else FindId(rows, id)
  {
    if rows != [] {
      FindIdSnoc(rows[1..], row, id);
      assert (rows + [row])[1..] == rows[1..] + [row];
    } else {
      assert (rows + [row])[1..] == [];
    }
  }

  // ----- the store with caches -----

  class LegacyProfileManager {
    const cap: nat
    var rows: seq<Profile>
    var idCache: map<Checksum, Id>
    var fileCache: map<Id, string>
    var sizeCache: Option<nat>

    /** The caches agree with the table, and the total is within the cap. */
    ghost predicate Valid()
      reads this
    {
      && SizesMatch(rows) && IdsUnique(rows)
      && SumSizes(rows) <= cap
      && (forall c :: c in idCache ==> Lookup(LedgerOf(rows), c.content) == Some(idCache[c]))
      && (forall id :: id in fileCache ==>
            FindId(rows, id).Some? && FindId(rows, id).value.fileName == fileCache[id])
      && (sizeCache.Some? ==> sizeCache.value == SumSizes(rows))
    }

    ghost function Ledger(): seq<Entry>
      reads this
    {
      LedgerOf(rows)
    }

    constructor (cap: nat)
      ensures Valid() && Ledger() == [] && this.cap == cap
    {
      this.cap := cap;
      rows, idCache, fileCache, sizeCache := [], map[], map[], None;
    }

    /** Any entries may vanish from the cache at any time. */
    method Evict(ids: set<Checksum>, files: set<Id>, size: bool)
      requires Valid()
      modifies `idCache, `fileCache, `sizeCache
      ensures Valid() && Ledger() == old(Ledger())
      ensures idCache == old(idCache) - ids && fileCache == old(fileCache) - files
      ensures sizeCache == if size then None else old(sizeCache)
    {
      idCache := idCache - ids;
      fileCache := fileCache - files;
      if size {
        sizeCache := None;
      }
    }

    /** A cached zero counts as missing and is recomputed. */
    method GetTotalUsedDiskSpace() returns (size: nat)
      requires Valid()
      modifies `sizeCache
      ensures Valid() && size == TotalSize(Ledger()) && sizeCache == Some(size)
    {
      SumIsTotal(rows);
      if sizeCache.Some? && sizeCache.value != 0 {
        return sizeCache.value;
      }
      size := SumSizes(rows);
      sizeCache := Some(size);
    }

    method GetFileUrl(id: Id) returns (r: Result<string, Error>)
      requires Valid()
      modifies `fileCache
      ensures Valid()
      ensures r == Locate(Ledger(), id)
      ensures r.Ok? ==> id in fileCache
    {
      FindIsLocate(rows, id);
      if id in fileCache && fileCache[id] != "" {
        return Ok(fileCache[id]);
      }
      var profile := FindId(rows, id);
      if profile.None? {
        return Err(DoesNotExist);
      }
      fileCache := fileCache[id := profile.value.fileName];
      r := Ok(profile.value.fileName);
    }

    /** The new row's id and stored file name come from the id generator and the file storage. */
    method GetOrCreateFromUpload(content: Bytes, newId: Id, newName: string) returns (r: Result<Id, Error>)
      requires Valid()
      requires NameOf(Ledger(), newId).None?
      modifies this
      ensures Valid()
      ensures (Ledger(), r) == Upload(old(Ledger()), cap, content, newId, newName)
      ensures r.Ok? ==> Sha256(content) in idCache && (Sha256(content) !in old(idCache) ==> r.value in fileCache)
      ensures sizeCache.Some?
      ensures rows == old(rows) || rows == old(rows) + [Profile(newId, |content|, Sha256(content), newName)]
    {
      FindIsLocate(rows, newId);
      var total := GetTotalUsedDiskSpace();
      if |content| + total > cap {
        return Err(StorageFull);
      }
      var hexdigest := Sha256(content);
      SumIsTotal(rows);
      if hexdigest in idCache {
        return Ok(idCache[hexdigest]);
      }
      FindIsLookup(rows, content);
      var instance := FindContent(rows, |content|, hexdigest);
      if instance.None? {
        var created := Profile(newId, |content|, hexdigest, newName);
        AddRow(rows, created);
        rows := rows + [created];
        instance := Some(created);
        if sizeCache.Some? {
          sizeCache := Some(sizeCache.value + created.size);
        }
      }
      idCache := idCache[hexdigest := instance.value.id];
      fileCache := fileCache[instance.value.id := instance.value.fileName];
      r := Ok(instance.value.id);
    }
  }

  /** Adding a row adds its entry and keeps every earlier lookup. */
  lemma {:induction false} AddRow(rows: seq<Profile>, row: Profile)
    requires SizesMatch(rows) && IdsUnique(rows) && FindId(rows, row.id).None? && row.size == |row.checksum.content|
    requires Lookup(LedgerOf(rows), row.checksum.content).None?
    ensures LedgerOf(rows + [row]) == LedgerOf(rows) + [Entry(row.checksum.content, row.id, row.fileName)]
    ensures SizesMatch(rows + [row]) && IdsUnique(rows + [row]) && SumSizes(rows + [row]) == SumSizes(rows) + row.size
    ensures forall content :: Lookup(LedgerOf(rows), content).Some? ==>
              Lookup(LedgerOf(rows + [row]), content) == Lookup(LedgerOf(rows), content)
    ensures Lookup(LedgerOf(rows + [row]), row.checksum.content) == Some(row.id)
    ensures forall id :: FindId(rows, id).Some? ==> FindId(rows + [row], id) == FindId(rows, id)
    ensures FindId(rows + [row], row.id) == Some(row)
  {
    var e := Entry(row.checksum.content, row.id, row.fileName);
    assert LedgerOf(rows + [row]) == LedgerOf(rows) + [e];
    SumIsTotal(rows);
    SumIsTotal(rows + [row]);
    TotalSizeSnoc(LedgerOf(rows), e);
    forall content
      ensures Lookup(LedgerOf(rows), content).Some? ==>
                Lookup(LedgerOf(rows + [row]), content) == Lookup(LedgerOf(rows), content)
    {
      LookupSnoc(LedgerOf(rows), e, content);
    }
    LookupSnoc(LedgerOf(rows), e, row.checksum.content);
    forall id
      ensures FindId(rows, id).Some? ==> FindId(rows + [row], id) == FindId(rows, id)
    {
      FindIdSnoc(rows, row, id);
    }
    FindIdSnoc(rows, row, row.id);
  }

  // ----- every sequence of uploads, lookups and evictions -----

  datatype Op =
    | Store(content: Bytes, newId: Id, newName: string)
    | Url(id: Id)
    | Total
    | Evict(ids: set<Checksum>, files: set<Id>, size: bool)

  datatype Reply = Stored(id: Result<Id, Error>) | Located(name: Result<string, Error>) | Used(size: nat) | Evicted

  /** What the store without caches does, to which an eviction means nothing. */
  function Step(ledger: seq<Entry>, cap: nat, op: Op): (seq<Entry>, Reply) {
    match op
    case Store(content, newId, newName) =>
      var (after, r) := Upload(ledger, cap, content, newId, newName);
      (after, Stored(r))
    case Url(id) => (ledger, Located(Locate(ledger, id)))
    case Total => (ledger, Used(TotalSize(ledger)))
    case Evict(_, _, _) => (ledger, Evicted)
  }

  /** The ledger after the first `k` operations on an empty store. */
  function After(cap: nat, ops: seq<Op>, k: nat): seq<Entry>
    requires k <= |ops|
  {
    if k == 0 then [] else Step(After(cap, ops, k - 1), cap, ops[k - 1]).0
  }

  /** What the operation numbered `k` answers. */
  function ReplyTo(cap: nat, ops: seq<Op>, k: nat): Reply
    requires k < |ops|
  {
    Step(After(cap, ops, k), cap, ops[k]).1
  }

  /** The id generator never repeats itself. */
  ghost predicate FreshIds(ops: seq<Op>) {
    forall i, j :: 0 <= i < j < |ops| && ops[i].Store? && ops[j].Store? ==> ops[i].newId != ops[j].newId
  }

  /** One operation on the store with its caches. */
  method Do(manager: LegacyProfileManager, op: Op) returns (reply: Reply)
    requires manager.Valid() && (op.Store? ==> NameOf(manager.Ledger(), op.newId).None?)
    modifies manager
    ensures manager.Valid() && (manager.Ledger(), reply) == Step(old(manager.Ledger()), manager.cap, op)
  {
    match op
    case Store(content, newId, newName) =>
      var r := manager.GetOrCreateFromUpload(content, newId, newName);
      reply := Stored(r);
    case Url(id) =>
      var r := manager.GetFileUrl(id);
      reply := Located(r);
    case Total =>
      var size := manager.GetTotalUsedDiskSpace();
      reply := Used(size);
    case Evict(ids, files, size) =>
      manager.Evict(ids, files, size);
      reply := Evicted;
  }

  /** The store with its caches answers any sequence of operations as the store without caches does. */
  method Serve(cap: nat, ops: seq<Op>) returns (manager: LegacyProfileManager, replies: seq<Reply>)
    requires FreshIds(ops)
    ensures manager.Valid() && manager.Ledger() == After(cap, ops, |ops|)
    ensures |replies| == |ops| && forall k :: 0 <= k < |ops| ==> replies[k] == ReplyTo(cap, ops, k)
  {
    manager := new LegacyProfileManager(cap);
    replies := [];
    for k := 0 to |ops|
      invariant fresh(manager) && manager.Valid() && manager.cap == cap
      invariant manager.Ledger() == After(cap, ops, k)
      invariant |replies| == k && forall i :: 0 <= i < k ==> replies[i] == ReplyTo(cap, ops, i)
    {
      if ops[k].Store? {
        NewIdIsFresh(cap, ops, k);
      }
      var reply := Do(manager, ops[k]);
      replies := replies + [reply];
    }
  }

  lemma {:induction false} WithinCap(cap: nat, ops: seq<Op>, k: nat)
    requires k <= |ops|
    ensures TotalSize(After(cap, ops, k)) <= cap
  {
    if k > 0 {
      WithinCap(cap, ops, k - 1);
      if ops[k - 1].Store? {
        TotalSizeSnoc(After(cap, ops, k - 1), Entry(ops[k - 1].content, ops[k - 1].newId, ops[k - 1].newName));
      }
    }
  }

  /** Whatever is stored stays stored, and a stored content keeps its id. */
  lemma {:induction false} LookupIsKept(cap: nat, ops: seq<Op>, k: nat, m: nat, content: Bytes)
    requires k <= m <= |ops| && Lookup(After(cap, ops, k), content).Some?
    ensures Lookup(After(cap, ops, m), content) == Lookup(After(cap, ops, k), content)
    decreases m
  {
    if k < m {
      LookupIsKept(cap, ops, k, m - 1, content);
      if ops[m - 1].Store? {
        var e := Entry(ops[m - 1].content, ops[m - 1].newId, ops[m - 1].newName);
        LookupSnoc(After(cap, ops, m - 1), e, content);
      }
    }
  }

  /** An accepted upload is stored under the id it was answered with. */
  lemma AnswerIsStored(cap: nat, ops: seq<Op>, k: nat)
    requires k < |ops| && ops[k].Store? && ReplyTo(cap, ops, k).id.Ok?
    ensures Lookup(After(cap, ops, k + 1), ops[k].content) == Some(ReplyTo(cap, ops, k).id.value)
  {
    LookupSnoc(After(cap, ops, k), Entry(ops[k].content, ops[k].newId, ops[k].newName), ops[k].content);
  }

  /** The upload that an entry of the ledger comes from. */
  lemma {:induction false} Origin(cap: nat, ops: seq<Op>, k: nat, e: Entry) returns (i: nat)
    requires k <= |ops| && e in After(cap, ops, k)
    ensures i < k && ops[i] == Store(e.content, e.id, e.fileName)
  {
    if e in After(cap, ops, k - 1) {
      i := Origin(cap, ops, k - 1, e);
    } else {
      i := k - 1;
    }
  }

  lemma NewIdIsFresh(cap: nat, ops: seq<Op>, k: nat)
    requires FreshIds(ops) && k < |ops| && ops[k].Store?
    ensures NameOf(After(cap, ops, k), ops[k].newId).None?
  {
    var ledger := After(cap, ops, k);
    NameOfFinds(ledger, ops[k].newId);
    if e :| e in ledger && e.id == ops[k].newId {
      var _ := Origin(cap, ops, k, e);
    }
  }

  /** The upload that first stored a content, under the id by which it is found. */
  lemma FirstUpload(cap: nat, ops: seq<Op>, k: nat, content: Bytes) returns (i: nat)
    requires k <= |ops| && Lookup(After(cap, ops, k), content).Some?
    ensures i < k && ops[i].Store? && ops[i].content == content
    ensures ops[i].newId == Lookup(After(cap, ops, k), content).value
  {
    LookupFinds(After(cap, ops, k), content);
    var e :| e in After(cap, ops, k) && e.content == content && e.id == Lookup(After(cap, ops, k), content).value;
    i := Origin(cap, ops, k, e);
  }

  /**
   A content that no earlier upload has stored is accepted exactly if it fits under the cap, and then it is
   stored under its own new id and file name.
   */
  lemma NewContentIff(cap: nat, ops: seq<Op>, k: nat)
    requires k < |ops| && ops[k].Store?
    requires forall i :: 0 <= i < k && ops[i].Store? && ops[i].content == ops[k].content ==>
               ReplyTo(cap, ops, i).id.Err?
    ensures ReplyTo(cap, ops, k) == Stored(Ok(ops[k].newId)) <==>
            |ops[k].content| + TotalSize(After(cap, ops, k)) <= cap
    ensures ReplyTo(cap, ops, k) == Stored(Err(StorageFull)) <==>
            |ops[k].content| + TotalSize(After(cap, ops, k)) > cap
    ensures ReplyTo(cap, ops, k).id.Ok? ==>
              After(cap, ops, k + 1) == After(cap, ops, k) + [Entry(ops[k].content, ops[k].newId, ops[k].newName)]
    ensures ReplyTo(cap, ops, k).id.Err? ==> After(cap, ops, k + 1) == After(cap, ops, k)
  {
    NotStored(cap, ops, k, ops[k].content);
  }

  lemma {:induction false} NotStored(cap: nat, ops: seq<Op>, k: nat, content: Bytes)
    requires k <= |ops|
    requires forall i :: 0 <= i < k && ops[i].Store? && ops[i].content == content ==> ReplyTo(cap, ops, i).id.Err?
    ensures Lookup(After(cap, ops, k), content).None?
  {
    if k > 0 {
      NotStored(cap, ops, k - 1, content);
      if ops[k - 1].Store? {
        LookupSnoc(After(cap, ops, k - 1), Entry(ops[k - 1].content, ops[k - 1].newId, ops[k - 1].newName), content);
      }
    }
  }

  /**
   In any sequence of uploads, lookups and evictions two accepted uploads get the same id exactly when they
   have the same content.
   */
  lemma SameIdIffSameContent(cap: nat, ops: seq<Op>, i: nat, j: nat)
    requires FreshIds(ops) && i < j < |ops| && ops[i].Store? && ops[j].Store?
    requires ReplyTo(cap, ops, i).id.Ok? && ReplyTo(cap, ops, j).id.Ok?
    ensures ReplyTo(cap, ops, i) == ReplyTo(cap, ops, j) <==> ops[i].content == ops[j].content
  {
    AnswerIsStored(cap, ops, i);
    AnswerIsStored(cap, ops, j);
    LookupIsKept(cap, ops, i + 1, j + 1, ops[i].content);
    var a := FirstUpload(cap, ops, j + 1, ops[i].content);
    var b := FirstUpload(cap, ops, j + 1, ops[j].content);
    assert a == b || ops[a].newId != ops[b].newId;
  }

  /**
   An id that an upload was answered with leads, whatever happened since, to the file that was stored when
   that content was first uploaded.
   */
  lemma IdLeadsToFirstFile(cap: nat, ops: seq<Op>, i: nat, j: nat)
    requires FreshIds(ops) && i < j < |ops| && ops[i].Store? && ReplyTo(cap, ops, i).id.Ok?
    requires ops[j] == Url(ReplyTo(cap, ops, i).id.value)
    ensures exists m: nat :: m <= i && ops[m].Store? && ops[m].content == ops[i].content
              && ReplyTo(cap, ops, j) == Located(Ok(ops[m].newName))
  {
    var id := ReplyTo(cap, ops, i).id.value;
    AnswerIsStored(cap, ops, i);
    LookupIsKept(cap, ops, i + 1, j, ops[i].content);
    var m := FirstUpload(cap, ops, i + 1, ops[i].content);
    LookupFinds(After(cap, ops, j), ops[i].content);
    NameOfFinds(After(cap, ops, j), id);
    var e :| e in After(cap, ops, j) && e.id == id && e.fileName == NameOf(After(cap, ops, j), id).value;
    var n := Origin(cap, ops, j, e);
    assert n == m;
  }

  lemma {:induction false} EntriesWereAnswered(cap: nat, ops: seq<Op>, k: nat, e: Entry) returns (i: nat)
    requires k <= |ops| && e in After(cap, ops, k)
    ensures i < k && ops[i].Store? && ReplyTo(cap, ops, i) == Stored(Ok(e.id))
  {
    if e in After(cap, ops, k - 1) {
      i := EntriesWereAnswered(cap, ops, k - 1, e);
    } else {
      i := k - 1;
    }
  }

  /** An id that no upload was answered with has no file. */
  lemma UnknownIdHasNoFile(cap: nat, ops: seq<Op>, j: nat)
    requires j < |ops| && ops[j].Url?
    requires forall i :: 0 <= i < j && ops[i].Store? ==> ReplyTo(cap, ops, i) != Stored(Ok(ops[j].id))
    ensures ReplyTo(cap, ops, j) == Located(Err(DoesNotExist))
  {
    NameOfFinds(After(cap, ops, j), ops[j].id);
    if e :| e in After(cap, ops, j) && e.id == ops[j].id {
      var _ := EntriesWereAnswered(cap, ops, j, e);
    }
  }

  /**
   Uploading a stored content again returns its id exactly when its size still fits under the cap once
   more: the size check runs before the content is looked up.
   */
  lemma RepeatedUploadIff(cap: nat, ops: seq<Op>, i: nat, j: nat)
    requires i < j < |ops| && ops[i].Store? && ops[j].Store? && ops[i].content == ops[j].content
    requires ReplyTo(cap, ops, i).id.Ok?
    ensures ReplyTo(cap, ops, j) == ReplyTo(cap, ops, i) <==>
            |ops[j].content| + TotalSize(After(cap, ops, j)) <= cap
    ensures After(cap, ops, j + 1) == After(cap, ops, j)
  {
    AnswerIsStored(cap, ops, i);
    LookupIsKept(cap, ops, i + 1, j, ops[i].content);
  }

  /** A store filled by one upload refuses the very same upload. */
  lemma RepeatedUploadCanBeRefused()
    ensures exists cap: nat, op: Op ::
              op.Store? && ReplyTo(cap, [op, op], 0).id.Ok? && ReplyTo(cap, [op, op], 1).id.Err?
  {
    var op := Store([7], 1, "a");
    var e := Entry([7], 1, "a");
    assert TotalSize([]) == 0 && e.content[1..] == [];
    assert After(1, [op, op], 1) == [e];
    assert [e][1..] == [] && TotalSize([e]) == 1;
    assert ReplyTo(1, [op, op], 0).id.Ok? && ReplyTo(1, [op, op], 1).id.Err?;
  }
}
