// The HTTP handlers, the upload finaliser and the cleanup sweep as runs over
// the database and the disk, each taken alone from start to finish.  What
// happens when they interleave is in DiskRaces.
module Server {
  import opened Common
  import opened Schema
  import opened Invariants
  import opened Database
  import opened Effects
  import opened BlobStores
  import BlobBytes
  import Decimal
  import Shares

  const EXPIRED_BATCH := 500
  const ORPHAN_BATCH := 1000

  datatype Upload =
    | Stored(file: FileRow, duplicateOf: Option<Id>)
    | TooLarge
    | StorageFull

  datatype HandlerError = BadRequest | Missing | Gone

  function KindOf(kind: string): string {
    if kind != "screenshot" then "file" else kind
  }

  // Rows carry the true length of their bytes, within the size limit.
  ghost predicate SizesHonest(t: Tables, maxFileSize: int) {
    && BlobBytes.SizesKnown(t.blobs)
    && (forall id | id in t.files :: t.files[id].size == |t.files[id].hash.content|)
    && (maxFileSize > 0 ==> forall h | h in t.blobs :: |h.content| <= maxFileSize)
  }

  // The disk holds exactly the hashes of live files, each with its bytes.
  ghost predicate Sound(t: Tables, disk: map<Digest, seq<byte>>, maxFileSize: int) {
    && Inv(t)
    && IndexCurrent(t)
    && disk.Keys == t.blobs.Keys
    && Honest(disk)
    && SizesHonest(t, maxFileSize)
  }

  // A number a client may leave out, and one that is not positive counts for
  // nothing.
  function Positive(n: Option<int>): Option<int> {
    if n.Some? && n.value >= 1 then n else None
  }

  predicate IsInt64(n: int) {
    -Decimal.INT64_LIMIT <= n < Decimal.INT64_LIMIT
  }

  function Expiry(seconds: Option<int>, now: int): Option<int> {
    if Positive(seconds).Some? then Some(Decimal.Wrap64(now + seconds.value)) else None
  }

  // The bytes some live file still refers to.
  function Kept(disk: map<Digest, seq<byte>>, files: map<Id, FileRow>): map<Digest, seq<byte>> {
    map h | h in disk && LiveWith(files, h) != {} :: disk[h]
  }

  lemma CreateKeepsSound(t: Tables, disk: map<Digest, seq<byte>>, maxFileSize: int, id: Id,
                         name: string, kind: string, mime: string, bytes: seq<byte>, now: int)
    requires Sound(t, disk, maxFileSize) && id !in t.files
    requires maxFileSize > 0 ==> |bytes| <= maxFileSize
    ensures Sound(Step(t, TxCreateFile(id, name, kind, mime, |bytes|, Sha256(bytes)), now),
                  disk[Sha256(bytes) := bytes], maxFileSize)
  {
    var x := TxCreateFile(id, name, kind, mime, |bytes|, Sha256(bytes));
    StepKeepsInv(t, x, now);
    StepKeepsIndexIff(t, x, now);
    CreateKeepsSizes(t, maxFileSize, id, name, kind, mime, bytes, now);
    CreateAddsOneBlob(t, id, name, kind, mime, bytes, now);
    HonestGrows(disk, Sha256(bytes));
  }

  lemma HonestGrows(disk: map<Digest, seq<byte>>, h: Digest)
    requires Honest(disk)
    ensures Honest(disk[h := h.content]) && disk[h := h.content].Keys == disk.Keys + {h}
  {
  }

  lemma CreateAddsOneBlob(t: Tables, id: Id, name: string, kind: string, mime: string, bytes: seq<byte>, now: int)
    requires id !in t.files
    ensures CreateFile(t, id, name, kind, mime, |bytes|, Sha256(bytes), now).blobs.Keys ==
            t.blobs.Keys + {Sha256(bytes)}
  {
  }

  lemma CreateKeepsSizes(t: Tables, maxFileSize: int, id: Id, name: string, kind: string, mime: string,
                         bytes: seq<byte>, now: int)
    requires SizesHonest(t, maxFileSize) && id !in t.files
    requires maxFileSize > 0 ==> |bytes| <= maxFileSize
    ensures SizesHonest(CreateFile(t, id, name, kind, mime, |bytes|, Sha256(bytes), now), maxFileSize)
  {
    var blobs := UpsertBlobRef(t.blobs, Sha256(bytes), |bytes|, now);
    assert forall h | h in blobs && h != Sha256(bytes) :: h in t.blobs && blobs[h] == t.blobs[h];
  }

  lemma DeleteKeepsSound(t: Tables, disk: map<Digest, seq<byte>>, maxFileSize: int, x: Txn, ids: set<Id>, now: int)
    requires Sound(t, disk, maxFileSize)
    requires x.TxDeleteFile? || x.TxDeleteAllFiles?
    requires Step(t, x, now) == DeleteFiles(t, ids, now)
    ensures Sound(Step(t, x, now), Kept(disk, Step(t, x, now).files), maxFileSize)
  {
    StepKeepsInv(t, x, now);
    StepKeepsIndexIff(t, x, now);
    DeleteKeepsSizes(t, ids, maxFileSize, now);
    KeptMatches(disk, t.blobs, DeleteFiles(t, ids, now));
  }

  lemma DeleteKeepsSizes(t: Tables, ids: set<Id>, maxFileSize: int, now: int)
    requires SizesHonest(t, maxFileSize)
    ensures SizesHonest(DeleteFiles(t, ids, now), maxFileSize)
    ensures DeleteFiles(t, ids, now).blobs.Keys <= t.blobs.Keys
  {
  }

  lemma KeptMatches(disk: map<Digest, seq<byte>>, blobs: map<Digest, BlobRow>, t': Tables)
    requires Honest(disk) && disk.Keys == blobs.Keys && RefcountsExact(t') && t'.blobs.Keys <= blobs.Keys
    ensures Honest(Kept(disk, t'.files)) && Kept(disk, t'.files).Keys == t'.blobs.Keys
  {
  }

  // Shares are no part of what the disk has to agree with.
  lemma SharesAside(t: Tables, t': Tables, disk: map<Digest, seq<byte>>, maxFileSize: int)
    requires Sound(t, disk, maxFileSize) && t' == t.(shares := t'.shares) && SharesSound(t')
    ensures Sound(t', disk, maxFileSize)
  {
    CountsFrame(t, t');
    IndexFrame(t, t');
  }

  // Truncated oversize bytes are no live file's, so removing them again
  // undoes adopting them.
  lemma TooLongForALiveFile(t: Tables, disk: map<Digest, seq<byte>>, maxFileSize: int, h: Digest)
    requires Sound(t, disk, maxFileSize) && 0 < maxFileSize < |h.content|
    ensures h !in disk && disk[h := h.content] - {h} == disk
  {
  }

  // The duplicate reported is a live file with the same bytes; there is one to
  // report when such a file was created earlier.
  ghost predicate NamesADuplicate(files: map<Id, FileRow>, h: Digest, now: int, duplicateOf: Option<Id>) {
    && (duplicateOf.Some? ==> duplicateOf.value in LiveWith(files, h))
    && ((exists other :: other in LiveWith(files, h) && files[other].createdAt < now) ==> duplicateOf.Some?)
  }

  lemma EarliestIsADuplicate(files: map<Id, FileRow>, id: Id, row: FileRow, h: Digest, now: int,
                             grown: map<Id, FileRow>, existing: Option<Id>, duplicateOf: Option<Id>)
    requires id !in files && row.hash == h && row.deletedAt.None? && row.createdAt == now
    requires grown == files[id := row] && duplicateOf == if existing == Some(id) then None else existing
    requires existing.Some? && existing.value in LiveWith(grown, h)
    requires forall other | other in LiveWith(grown, h) :: grown[existing.value].createdAt <= grown[other].createdAt
    ensures NamesADuplicate(files, h, now, duplicateOf)
  {
    LiveWithAfterInsert(files, id, row, h);
    if other :| other in LiveWith(files, h) && files[other].createdAt < now {
      assert other in LiveWith(grown, h) && grown[other] == files[other];
    }
  }

  // Dead shares go, all of them when they fit one batch, and nothing else.
  ghost predicate OnlyDeadGone(t: Tables, t': Tables, now: int) {
    && t' == t.(shares := t'.shares)
    && (forall s | s in t'.shares :: s in t.shares && t'.shares[s] == t.shares[s])
    && (forall s | s in t.shares && s !in t'.shares :: OverBy(t.shares[s], now))
    && (|set s | s in t.shares && OverBy(t.shares[s], now)| <= 500 ==>
          forall s | s in t'.shares :: !OverBy(t'.shares[s], now))
  }

  // Sweeping dead shares changes the answer to no token, now or later.
  lemma SweepChangesNoAnswer(t: Tables, t': Tables, now: int, tokenHash: string, later: int)
    requires OnlyDeadGone(t, t', now) && now <= later
    ensures Shares.Refused(t', tokenHash, later) <==> Shares.Refused(t, tokenHash, later)
  {
    forall s | s in t.shares && s !in t'.shares
      ensures !Shares.Serves(t, s, later)
    {
      assert OverBy(t.shares[s], now);
    }
    forall s | s in t'.shares
      ensures Shares.Serves(t', s, later) <==> Shares.Serves(t, s, later)
    {
    }
  }

  lemma FewerSharesSound(t: Tables, disk: map<Digest, seq<byte>>, maxFileSize: int, ids: set<Id>, now: int)
    requires Sound(t, disk, maxFileSize) && IsBatch(ids, Shares.Dead(t, now), EXPIRED_BATCH)
    ensures var t' := t.(shares := t.shares - ids);
            && Sound(t', disk, maxFileSize)
            && Unreferenced(t') == {}
            && OnlyDeadGone(t, t', now)
  {
    var t' := t.(shares := t.shares - ids);
    SharesAside(t, t', disk, maxFileSize);
    NothingUnreferenced(t');
    FewerShares(t, t', ids, now);
  }

  lemma FewerShares(t: Tables, t': Tables, ids: set<Id>, now: int)
    requires t' == t.(shares := t.shares - ids) && IsBatch(ids, Shares.Dead(t, now), EXPIRED_BATCH)
    ensures OnlyDeadGone(t, t', now)
  {
    assert Shares.Dead(t', now) == Shares.Dead(t, now) - ids;
    assert Shares.Dead(t, now) == set s | s in t.shares && OverBy(t.shares[s], now);
    forall s | s in t'.shares && OverBy(t'.shares[s], now)
      ensures s in Shares.Dead(t', now)
    {
    }
  }

  // The share asked for and nothing else: this file, this token, these limits.
  // It serves until it expires, unless its expiry is past what an int64 holds:
  // then it never does.
  ghost predicate Offered(t: Tables, t': Tables, id: Id, row: ShareRow, tokenHash: string, fileId: Id,
                          expiresInSec: Option<int>, maxDownloads: Option<int>, oneTime: bool, now: int)
  {
    && ShareAdded(t, t', id, tokenHash, fileId, row.expiresAt, row.maxDownloads, oneTime, now)
    && row == t'.shares[id]
    && (row.maxDownloads.Some? <==> maxDownloads.Some? && maxDownloads.value > 0)
    && (row.maxDownloads.Some? ==> row.maxDownloads == maxDownloads)
    && (row.expiresAt.Some? <==> expiresInSec.Some? && expiresInSec.value > 0)
    && (forall later | later >= now ::
          Shares.Serves(t', id, later) <==>
          (expiresInSec.Some? && expiresInSec.value > 0 ==>
             later < now + expiresInSec.value < 0x8000_0000_0000_0000))
    && (forall later :: Shares.Refused(t', tokenHash, later) <==> !Shares.Serves(t', id, later))
  }

  lemma NewShareServes(t: Tables, disk: map<Digest, seq<byte>>, maxFileSize: int, id: Id, tokenHash: string, fileId: Id,
                       expiresInSec: Option<int>, maxDownloads: Option<int>, oneTime: bool, now: int)
    requires Sound(t, disk, maxFileSize)
    requires IsLive(t.files, fileId) && id !in t.shares && !TokenIssued(t, tokenHash)
    requires IsInt64(now) && (expiresInSec.Some? ==> IsInt64(expiresInSec.value))
    ensures var expiresAt, cap := Expiry(expiresInSec, now), Positive(maxDownloads);
            var t' := CreateShare(t, id, tokenHash, fileId, expiresAt, cap, oneTime, now);
            && Sound(t', disk, maxFileSize)
            && id in t'.shares
            && Offered(t, t', id, t'.shares[id], tokenHash, fileId, expiresInSec, maxDownloads, oneTime, now)
  {
    var t' := CreateShare(t, id, tokenHash, fileId, Expiry(expiresInSec, now), Positive(maxDownloads), oneTime, now);
    OneMoreShare(t, t', id, t'.shares[id]);
    SharesAside(t, t', disk, maxFileSize);
    forall later
      ensures Shares.Refused(t', tokenHash, later) <==> !Shares.Serves(t', id, later)
    {
    }
  }

  lemma OneMoreShare(t: Tables, t': Tables, id: Id, row: ShareRow)
    requires SharesSound(t) && id !in t.shares && row.fileId in t.files && !TokenIssued(t, row.tokenHash)
    requires t' == t.(shares := t.shares[id := row])
    ensures SharesSound(t')
    ensures forall s | s in t'.shares :: t'.shares[s].tokenHash == row.tokenHash <==> s == id
  {
    assert forall s | s in t.shares :: t.shares[s].tokenHash != row.tokenHash;
  }

  class Service {
    const db: DB
    const store: BlobStore
    const maxFileSize: int  // 0 means no limit
    const maxStorage: int   // 0 means no limit

    ghost predicate Valid()
      reads this, db, store
    {
      Sound(db.tables, store.disk, maxFileSize)
    }

    constructor (maxFileSize: int, maxStorage: int)
      ensures Valid() && fresh(db) && fresh(store)
      ensures this.maxFileSize == maxFileSize && this.maxStorage == maxStorage
      ensures db.tables == EMPTY && store.disk == map[]
    {
      this.maxFileSize, this.maxStorage := maxFileSize, maxStorage;
      db := new DB();
      store := new BlobStore();
    }

    // A failing statistics query does not block uploads.
    method CheckStorage(queryFails: bool) returns (ok: bool)
      ensures ok <==> (maxStorage > 0 && !queryFails ==> BlobBytes.Bytes(db.tables.blobs) < maxStorage)
    {
      if maxStorage <= 0 {
        return true;
      }
      if queryFails {
        return true;
      }
      var used := db.StatsBlobBytes();
      return used < maxStorage;
    }

    // An oversized body is adopted, truncated to one byte past the limit, and
    // removed again: the database and the disk end up exactly as they were.
    method UploadDirect(id: Id, tmpName: string, body: seq<byte>, name: string, kind: string, mime: string,
                        queryFails: bool, now: int)
      returns (r: Upload)
      requires Valid() && id !in db.tables.files && tmpName !in store.scratch
      modifies db, store
      ensures Valid()
      ensures r.StorageFull? <==> maxStorage > 0 && !queryFails &&
                                  BlobBytes.Bytes(old(db.tables).blobs) >= maxStorage
      ensures r.TooLarge? <==> !r.StorageFull? && maxFileSize > 0 && |body| > maxFileSize
      ensures store.scratch == old(store.scratch)
      ensures !r.Stored? ==> db.tables == old(db.tables) && store.disk == old(store.disk)
      ensures r.Stored? ==>
                var hash := Sha256(body);
                && db.tables == Step(old(db.tables), TxCreateFile(id, name, KindOf(kind), mime, |body|, hash), now)
                && store.disk == old(store.disk)[hash := body]
                && FileAdded(old(db.tables), db.tables, id, name, if kind == "screenshot" then kind else "file", mime,
                             |body|, hash, now)
                && r.file == db.tables.files[id]
                && (r.duplicateOf.None? <==> LiveWith(old(db.tables).files, hash) == {})
                && (r.duplicateOf.Some? ==> r.duplicateOf.value in LiveWith(old(db.tables).files, hash))
    {
      ghost var t, disk := db.tables, store.disk;
      var src := body;
      if maxFileSize > 0 && |src| > maxFileSize + 1 {
        src := src[..maxFileSize + 1];
      }
      var room := CheckStorage(queryFails);
      if !room {
        return StorageFull;
      }
      var hash, n, existed := store.WriteFrom(src, tmpName);
      if maxFileSize > 0 && n > maxFileSize {
        TooLongForALiveFile(t, disk, maxFileSize, hash);
        store.Remove(hash);
        return TooLarge;
      }
      var existing := db.FileByHash(hash);
      CreateKeepsSound(t, disk, maxFileSize, id, name, KindOf(kind), mime, body, now);
      var f := db.CreateFile(id, name, KindOf(kind), mime, n, hash, now);
      return Stored(f.value, existing);
    }

    // preCreate: a tus upload is admitted when its declared length fits.  The
    // sum is an int64, and one that wraps is admitted.
    method PreCreate(size: nat, queryFails: bool) returns (ok: bool)
      requires size < Decimal.INT64_LIMIT && maxStorage < Decimal.INT64_LIMIT
      requires 0 <= BlobBytes.Bytes(db.tables.blobs) < Decimal.INT64_LIMIT
      ensures ok <==> (maxFileSize > 0 ==> size <= maxFileSize) &&
                      (maxStorage > 0 && !queryFails ==>
                         var sum := BlobBytes.Bytes(db.tables.blobs) + size;
                         sum <= maxStorage || sum >= Decimal.INT64_LIMIT)
    {
      if maxFileSize > 0 && size > maxFileSize {
        return false;
      }
      if maxStorage > 0 {
        if !queryFails {
          var used := db.StatsBlobBytes();
          Decimal.SumWithinIff(used, size, maxStorage);
          if Decimal.Wrap64(used + size) > maxStorage {
            return false;
          }
        }
      }
      return true;
    }

    // onComplete: the upload file of an admitted upload becomes a live file.
    method FinalizeUpload(id: Id, binPath: string, name: string, kind: string, mime: string, now: int)
      returns (f: FileRow, duplicateOf: Option<Id>)
      requires Valid() && id !in db.tables.files
      requires binPath in store.scratch
      requires maxFileSize > 0 ==> |store.scratch[binPath]| <= maxFileSize
      modifies db, store
      ensures Valid()
      ensures var bytes := old(store.scratch)[binPath];
              && db.tables ==
                 Step(old(db.tables), TxCreateFile(id, name, KindOf(kind), mime, |bytes|, Sha256(bytes)), now)
              && FileAdded(old(db.tables), db.tables, id, name, if kind == "screenshot" then kind else "file", mime,
                           |bytes|, Sha256(bytes), now)
              && store.disk == old(store.disk)[Sha256(bytes) := bytes]
              && store.scratch == old(store.scratch) - {binPath}
              && NamesADuplicate(old(db.tables).files, Sha256(bytes), now, duplicateOf)
      ensures id in db.tables.files && f == db.tables.files[id]
    {
      ghost var t, disk := db.tables, store.disk;
      var bytes := store.scratch[binPath];
      var hash := Sha256(bytes);
      var adopted := store.Adopt(binPath, hash);
      assert store.disk == disk[hash := bytes];
      CreateKeepsSound(t, disk, maxFileSize, id, name, KindOf(kind), mime, bytes, now);
      var created := db.CreateFile(id, name, KindOf(kind), mime, |bytes|, hash, now);
      f := created.value;
      var existing := db.FileByHash(hash);
      duplicateOf := if existing.Some? && existing.value != id then existing else None;
      EarliestIsADuplicate(t.files, id, f, hash, now, db.tables.files, existing, duplicateOf);
    }

    method DeleteFileHandler(id: Id, now: int) returns (r: Result<(), HandlerError>)
      requires Valid()
      modifies db, store
      ensures Valid()
      ensures r == if IsLive(old(db.tables).files, id) then Success(()) else Failure(Missing)
      ensures db.tables == Step(old(db.tables), TxDeleteFile(id), now)
      ensures if r.Success? then OneDeleted(old(db.tables), db.tables, id, now) else db.tables == old(db.tables)
      ensures store.disk == Kept(old(store.disk), db.tables.files)
    {
      ghost var t, disk := db.tables, store.disk;
      var d := db.DeleteFile(id, now);
      if d.Failure? {
        NothingGone(t, disk, maxFileSize);
        return Failure(Missing);
      }
      ghost var left := OneDeletedIsSound(t, disk, maxFileSize, id, now, db.tables, d.value);
      if d.value.orphaned {
        store.Remove(d.value.hash);
      }
      assert store.disk == left;
      return Success(());
    }

    method DeleteAllHandler(kind: string, now: int) returns (r: Result<nat, HandlerError>)
      requires Valid()
      modifies db, store
      ensures Valid()
      ensures r.Failure? <==> kind != "" && kind != "file" && kind != "screenshot"
      ensures r.Failure? ==> db.tables == old(db.tables) && store.disk == old(store.disk)
      ensures r.Success? ==>
                && db.tables == Step(old(db.tables), TxDeleteAllFiles(kind), now)
                && KindDeleted(old(db.tables), db.tables, kind, now)
                && r.value == |Went(old(db.tables), db.tables)|
                && store.disk == Kept(old(store.disk), db.tables.files)
    {
      if kind != "" && kind != "file" && kind != "screenshot" {
        return Failure(BadRequest);
      }
      ghost var t, disk := db.tables, store.disk;
      var bulk := db.DeleteAllFiles(kind, now);
      DeleteKeepsSound(t, disk, maxFileSize, TxDeleteAllFiles(kind), LiveOfKind(t.files, kind), now);
      RemoveAll(store, bulk.orphans);
      OrphansAreTheRest(t, disk, kind, now, bulk.orphans);
      return Success(bulk.count);
    }

    // Steps 2 and 3 of the sweep.
    method CleanupOnce(now: int)
      requires Valid()
      modifies db, store
      ensures Valid()
      ensures store.disk == old(store.disk)
      ensures OnlyDeadGone(old(db.tables), db.tables, now)
    {
      DropDeadShares(now);
      SweepOrphans();
    }

    method DropDeadShares(now: int)
      requires Valid()
      modifies db
      ensures Valid() && Unreferenced(db.tables) == {}
      ensures OnlyDeadGone(old(db.tables), db.tables, now)
    {
      var ids := db.ExpiredShareIDs(now, EXPIRED_BATCH);
      FewerSharesSound(db.tables, store.disk, maxFileSize, ids, now);
      DeleteShares(ids);
    }

    // With exact counts the sweep finds nothing.
    method SweepOrphans()
      requires Unreferenced(db.tables) == {}
      modifies db, store
      ensures db.tables == old(db.tables) && store.disk == old(store.disk)
    {
      var hashes := db.OrphanBlobHashes(ORPHAN_BATCH);
      assert hashes == {};
      SweepBlobs(hashes);
      assert old(db.tables.blobs) - {} == old(db.tables.blobs);
      assert old(store.disk) - {} == old(store.disk);
    }

    method DeleteShares(ids: set<Id>)
      requires db.Valid()
      modifies db
      ensures db.Valid()
      ensures db.tables == old(db.tables).(shares := old(db.tables).shares - ids)
    {
      var rest := ids;
      while rest != {}
        invariant rest <= ids
        invariant db.Valid()
        invariant db.tables == old(db.tables).(shares := old(db.tables).shares - (ids - rest))
        decreases rest
      {
        var id :| id in rest;
        db.DeleteShare(id);
        assert ids - (rest - {id}) == (ids - rest) + {id};
        rest := rest - {id};
      }
      assert ids - rest == ids;
    }

    // Drops the bytes and then the row of each hash.
    method SweepBlobs(hashes: set<Digest>)
      modifies db, store
      ensures store.disk == old(store.disk) - hashes && store.scratch == old(store.scratch)
      ensures db.tables == old(db.tables).(blobs := old(db.tables).blobs - hashes)
    {
      var rest := hashes;
      while rest != {}
        invariant rest <= hashes
        invariant store.disk == old(store.disk) - (hashes - rest) && store.scratch == old(store.scratch)
        invariant db.tables == old(db.tables).(blobs := old(db.tables).blobs - (hashes - rest))
        decreases rest
      {
        var h :| h in rest;
        store.Remove(h);
        db.DeleteBlobRow(h);
        assert hashes - (rest - {h}) == (hashes - rest) + {h};
        rest := rest - {h};
      }
      assert hashes - rest == hashes;
    }

    // ----- shares --------------------------------------------------------------

    method CreateShareHandler(id: Id, tokenHash: string, fileId: Id, expiresInSec: Option<int>,
                              maxDownloads: Option<int>, oneTime: bool, now: int)
      returns (r: Result<ShareRow, HandlerError>)
      requires Valid() && id !in db.tables.shares && !TokenIssued(db.tables, tokenHash)
      requires IsInt64(now) && (expiresInSec.Some? ==> IsInt64(expiresInSec.value))
      modifies db
      ensures Valid()
      ensures r.Success? <==> fileId != "" && IsLive(old(db.tables).files, fileId)
      ensures r == Failure(BadRequest) <==> fileId == ""
      ensures r.Failure? ==> db.tables == old(db.tables)
      ensures r.Success? ==>
                Offered(old(db.tables), db.tables, id, r.value, tokenHash, fileId, expiresInSec, maxDownloads,
                        oneTime, now)
    {
      if fileId == "" {
        return Failure(BadRequest);
      }
      var f := db.GetFile(fileId);
      if f.Failure? {
        return Failure(Missing);
      }
      var expiresAt, cap := None, None;
      if expiresInSec.Some? && expiresInSec.value > 0 {
        expiresAt := Some(Decimal.Wrap64(now + expiresInSec.value));
      }
      if maxDownloads.Some? && maxDownloads.value > 0 {
        cap := maxDownloads;
      }
      assert expiresAt == Expiry(expiresInSec, now) && cap == Positive(maxDownloads);
      NewShareServes(db.tables, store.disk, maxFileSize, id, tokenHash, fileId, expiresInSec, maxDownloads,
                     oneTime, now);
      var s := db.CreateShare(id, tokenHash, fileId, expiresAt, cap, oneTime, now);
      return Success(s.value);
    }

    // A share that serves always has its bytes: the "data is missing" answer
    // of DownloadFile is never given.
    method ServePublicShare(tokenHash: string, isGet: bool, now: int) returns (r: Result<seq<byte>, HandlerError>)
      requires Valid()
      modifies db
      ensures Valid()
      ensures r.Success? <==> !Shares.Refused(old(db.tables), tokenHash, now)
      ensures r == Failure(Missing) <==>
              forall s | s in old(db.tables).shares :: old(db.tables).shares[s].tokenHash != tokenHash
      ensures r.Failure? ==> db.tables == old(db.tables)
      ensures r.Success? ==> exists s :: Delivered(old(db.tables), s, tokenHash, isGet, now, r.value, db.tables)
    {
      var resolved := db.ResolveShareToken(tokenHash, now);
      if resolved.Failure? {
        return Failure(if resolved.error == NotFound then Missing else Gone);
      }
      var (s, f) := resolved.value;
      var bytes := store.Open(f.hash);
      assert db.tables.shares[s].fileId in LiveWith(db.tables.files, f.hash);
      if isGet {
        IndexFrame(db.tables, Step(db.tables, TxRecordDownload(s), now));
        var recorded := db.RecordShareDownload(s, now);
      }
      assert Delivered(old(db.tables), s, tokenHash, isGet, now, bytes.value, db.tables);
      return Success(bytes.value);
    }
  }

  // The token's share served its file's own bytes, and a GET was counted.
  ghost predicate Delivered(t: Tables, s: Id, tokenHash: string, isGet: bool, now: int,
                            bytes: seq<byte>, t': Tables)
  {
    && s in t.shares && t.shares[s].tokenHash == tokenHash
    && Shares.Serves(t, s, now)
    && bytes == t.files[t.shares[s].fileId].hash.content
    && if isGet then Counted(t, t', s, now) else t' == t
  }

  method RemoveAll(store: BlobStore, hashes: seq<Digest>)
    modifies store
    ensures store.disk == map h | h in old(store.disk) && h !in hashes :: old(store.disk)[h]
    ensures store.scratch == old(store.scratch)
  {
    var i := 0;
    while i < |hashes|
      invariant 0 <= i <= |hashes|
      invariant store.disk == map h | h in old(store.disk) && h !in hashes[..i] :: old(store.disk)[h]
      invariant store.scratch == old(store.scratch)
    {
      store.Remove(hashes[i]);
      i := i + 1;
    }
    assert hashes[..i] == hashes;
  }

  // Deleting one file can leave only its own hash without a live file.
  lemma OnlyOneHashLoses(t: Tables, disk: map<Digest, seq<byte>>, id: Id, now: int)
    requires Inv(t) && IsLive(t.files, id) && disk.Keys == t.blobs.Keys
    ensures var files := MarkDeleted(t.files, {id}, now);
            var hash := t.files[id].hash;
            Kept(disk, files) == if LiveWith(files, hash) == {} then disk - {hash} else disk
  {
    var files := MarkDeleted(t.files, {id}, now);
    forall h | h in disk && h != t.files[id].hash
      ensures LiveWith(files, h) != {}
    {
      OthersKeepTheirFiles(t.files, id, h, now);
    }
    KeptButOne(disk, files, t.files[id].hash);
  }

  lemma NothingGone(t: Tables, disk: map<Digest, seq<byte>>, maxFileSize: int)
    requires Sound(t, disk, maxFileSize)
    ensures Kept(disk, t.files) == disk
  {
  }

  lemma OneDeletedIsSound(t: Tables, disk: map<Digest, seq<byte>>, maxFileSize: int, id: Id, now: int, t': Tables,
                          d: Deleted) returns (left: map<Digest, seq<byte>>)
    requires Sound(t, disk, maxFileSize) && IsLive(t.files, id) && t' == Step(t, TxDeleteFile(id), now)
    requires d.hash == t.files[id].hash && (d.orphaned <==> LiveWith(t'.files, d.hash) == {})
    ensures left == if d.orphaned then disk - {d.hash} else disk
    ensures left == Kept(disk, t'.files) && Sound(t', left, maxFileSize)
  {
    left := Kept(disk, t'.files);
    DeleteKeepsSound(t, disk, maxFileSize, TxDeleteFile(id), {id}, now);
    OnlyOneHashLoses(t, disk, id, now);
  }

  lemma KeptButOne(disk: map<Digest, seq<byte>>, files: map<Id, FileRow>, hash: Digest)
    requires forall h | h in disk && h != hash :: LiveWith(files, h) != {}
    ensures Kept(disk, files) == if LiveWith(files, hash) == {} then disk - {hash} else disk
  {
  }

  lemma OthersKeepTheirFiles(files: map<Id, FileRow>, id: Id, h: Digest, now: int)
    requires id in files && h != files[id].hash
    ensures LiveWith(MarkDeleted(files, {id}, now), h) == LiveWith(files, h)
  {
    LiveWithAfterDelete(files, {id}, now, h);
    assert id !in LiveWith(files, h);
    assert LiveWith(files, h) - {id} == LiveWith(files, h);
  }

  // Dropping the hashes DeleteAllFiles reports leaves the bytes still in use.
  lemma OrphansAreTheRest(t: Tables, disk: map<Digest, seq<byte>>, kind: string, now: int, orphans: seq<Digest>)
    requires Inv(t) && disk.Keys == t.blobs.Keys
    requires Reports(t, LiveOfKind(t.files, kind), now, orphans)
    ensures (map h | h in disk && h !in orphans :: disk[h]) ==
            Kept(disk, Step(t, TxDeleteAllFiles(kind), now).files)
  {
    var deleted := LiveOfKind(t.files, kind);
    var files := MarkDeleted(t.files, deleted, now);
    forall h | h in disk
      ensures h in orphans <==> LiveWith(files, h) == {}
    {
      assert h in t.blobs;
      ReportedIffUnused(t, deleted, now, orphans, h);
    }
    KeptAreTheRest(disk, files, orphans);
  }

  lemma KeptAreTheRest(disk: map<Digest, seq<byte>>, files: map<Id, FileRow>, orphans: seq<Digest>)
    requires forall h | h in disk :: h in orphans <==> LiveWith(files, h) == {}
    ensures (map h | h in disk && h !in orphans :: disk[h]) == Kept(disk, files)
  {
  }

  lemma ReportedIffUnused(t: Tables, deleted: set<Id>, now: int, orphans: seq<Digest>, h: Digest)
    requires Reports(t, deleted, now, orphans) && LiveWith(t.files, h) != {}
    ensures h in orphans <==> LiveWith(MarkDeleted(t.files, deleted, now), h) == {}
  {
    LiveWithAfterDelete(t.files, deleted, now, h);
    var some :| some in LiveWith(t.files, h);
    if LiveWith(t.files, h) - deleted == {} {
      assert some !in LiveWith(t.files, h) - deleted;
      assert some in deleted && t.files[some].hash == h;
    }
  }
}
