// internal/store as an object: one committed state, one method a transaction.
// A method reads and changes a private copy and assigns it back at commit, so
// an early return is a rollback.
module Database {
  import opened Common
  import opened Schema
  import opened Invariants
  import opened Effects
  import BlobBytes
  import Shares

  datatype StoreError = NotFound | Unavailable | Constraint

  datatype Deleted = Deleted(hash: Digest, orphaned: bool)

  datatype Bulk = Bulk(orphans: seq<Digest>, count: nat)

  datatype TextPatch = TextPatch(title: Option<string>, content: Option<string>,
                                 tag: Option<string>, pinned: Option<bool>)

  function Patched(row: TextRow, p: TextPatch, now: int): TextRow {
    row.(title := if p.title.Some? then p.title.value else row.title,
         content := if p.content.Some? then p.content.value else row.content,
         tag := if p.tag.Some? then p.tag.value else row.tag,
         pinned := if p.pinned.Some? then p.pinned.value else row.pinned,
         updatedAt := now)
  }

  // The columns the patch names get its values, the others stay.
  predicate PatchedBy(was: TextRow, becomes: TextRow, p: TextPatch, now: int) {
    && (p.title.Some? ==> becomes.title == p.title.value) && (p.title.None? ==> becomes.title == was.title)
    && (p.content.Some? ==> becomes.content == p.content.value) && (p.content.None? ==> becomes.content == was.content)
    && (p.tag.Some? ==> becomes.tag == p.tag.value) && (p.tag.None? ==> becomes.tag == was.tag)
    && (p.pinned.Some? ==> becomes.pinned == p.pinned.value) && (p.pinned.None? ==> becomes.pinned == was.pinned)
    && becomes.createdAt == was.createdAt && becomes.updatedAt == now
  }

  // What a query with a LIMIT and no ORDER BY may answer.
  predicate IsBatch<T(==)>(out: set<T>, all: set<T>, limit: nat) {
    && out <= all
    && |out| == (if |all| <= limit then |all| else limit)
    && (|all| <= limit ==> out == all)
  }

  method Batch<T(==)>(all: set<T>, limit: nat) returns (out: set<T>)
    ensures IsBatch(out, all, limit)
  {
    var rest := all;
    out := {};
    while rest != {} && |out| < limit
      invariant out !! rest && out + rest == all
      invariant |out| <= limit && |out| + |rest| == |all|
      decreases rest
    {
      var x :| x in rest;
      out, rest := out + {x}, rest - {x};
    }
  }

  // Revoked, or its time has come.
  predicate OverBy(s: ShareRow, now: int) {
    s.revokedAt.Some? || (s.expiresAt.Some? && s.expiresAt.value <= now)
  }

  function Unreferenced(t: Tables): set<Digest> {
    set h | h in t.blobs && t.blobs[h].refcount <= 0
  }

  // There is never anything for the orphan sweep to do.
  lemma NothingUnreferenced(t: Tables)
    requires RefcountsExact(t)
    ensures Unreferenced(t) == {}
  {
    forall h | h in t.blobs
      ensures t.blobs[h].refcount > 0
    {
      assert LiveWith(t.files, h) != {};
    }
  }

  // The statements that soft-delete one live file inside a transaction.
  method DeleteRow(t: Tables, id: Id, hash: Digest, now: int) returns (tx: Tables, orphaned: bool)
    requires RefcountsExact(t) && IsLive(t.files, id) && hash == t.files[id].hash
    ensures tx == DeleteFiles(t, {id}, now)
    ensures orphaned <==> LiveWith(tx.files, hash) == {}
  {
    DeleteStepwise(t, id, now);
    tx := t;
    tx := tx.(files := tx.files[id := tx.files[id].(deletedAt := Some(now))]);
    tx := tx.(shares := RevokeFor(tx.shares, {id}, now));
    tx := tx.(fts := tx.fts - {FileRef(id)});
    var released := ReleaseBlob(tx.blobs, hash);
    tx := tx.(blobs := released.blobs);
    orphaned := released.orphaned;
  }

  // The list names, once each, the hashes that lost a file and have none left.
  ghost predicate Reports(t: Tables, deleted: set<Id>, now: int, orphans: seq<Digest>) {
    && (forall i, j | 0 <= i < j < |orphans| :: orphans[i] != orphans[j])
    && (forall h: Digest :: h in orphans <==> OrphanedBy(t, deleted, now, h))
  }

  lemma ReportGrows(t: Tables, done: set<Id>, id: Id, now: int, orphans: seq<Digest>, orphaned: bool,
                    longer: seq<Digest>)
    requires Inv(t) && IsLive(t.files, id) && id !in done && Reports(t, done, now, orphans)
    requires orphaned <==> LiveWith(DeleteFiles(t, done + {id}, now).files, t.files[id].hash) == {}
    requires longer == if orphaned then orphans + [t.files[id].hash] else orphans
    ensures Reports(t, done + {id}, now, longer)
  {
    DeleteOneMore(t, done, id, now);
    assert forall h: Digest :: h in longer <==> h in orphans || (orphaned && h == t.files[id].hash);
  }

  // The loop of DeleteAllFiles.  The rows come in whatever order the query
  // returns them.
  method DeleteRows(t: Tables, items: set<Id>, now: int) returns (tx: Tables, orphans: seq<Digest>)
    requires Inv(t)
    requires forall id | id in items :: IsLive(t.files, id)
    ensures tx == DeleteFiles(t, items, now)
    ensures Reports(t, items, now, orphans)
  {
    tx, orphans := t, [];
    var rest := items;
    ghost var done: set<Id> := {};
    DeleteNone(t, now);
    while rest != {}
      invariant rest !! done && rest + done == items
      invariant tx == DeleteFiles(t, done, now)
      invariant Reports(t, done, now, orphans)
      decreases rest
    {
      var id :| id in rest;
      StillToDelete(t, done, id, now);
      var hash := t.files[id].hash;
      ghost var was := orphans;
      var orphaned;
      tx, orphaned := DeleteRow(tx, id, hash, now);
      if orphaned {
        orphans := orphans + [hash];
      }
      ReportGrows(t, done, id, now, was, orphaned, orphans);
      rest := rest - {id};
      done := done + {id};
    }
    assert done == items;
  }

  lemma TextTxnKeepsAll(t: Tables, x: Txn, now: int)
    requires Inv(t) && (x.TxCreateText? || x.TxDeleteText? || x.TxClearClipboard?)
    ensures Inv(Step(t, x, now)) && (IndexCurrent(t) ==> IndexCurrent(Step(t, x, now)))
  {
    StepKeepsInv(t, x, now);
    if IndexCurrent(t) { StepKeepsIndexIff(t, x, now); }
  }

  class DB {
    var tables: Tables

    ghost predicate Valid()
      reads this
    {
      Inv(tables)
    }

    constructor ()
      ensures Valid() && IndexCurrent(tables)
      ensures tables == EMPTY
    {
      tables := EMPTY;
    }

    // ----- files -------------------------------------------------------------

    method CreateFile(id: Id, name: string, kind: string, mime: string, size: int, hash: Digest, now: int)
      returns (r: Result<FileRow, StoreError>)
      requires Valid()
      modifies this
      ensures Valid()
      ensures tables == Step(old(tables), TxCreateFile(id, name, kind, mime, size, hash), now)
      ensures r == if id in old(tables).files then Failure(Constraint) else Success(tables.files[id])
      ensures r.Failure? ==> tables == old(tables)
      ensures r.Success? ==> FileAdded(old(tables), tables, id, name, kind, mime, size, hash, now)
    {
      CreateAddsTheFile(tables, id, name, kind, mime, size, hash, now);
      StepKeepsInv(tables, TxCreateFile(id, name, kind, mime, size, hash), now);
      var tx := tables;
      var row := NewFileRow(name, kind, mime, size, hash, now);
      tx := tx.(blobs := UpsertBlobRef(tx.blobs, hash, size, now));
      if id in tx.files {
        return Failure(Constraint);
      }
      tx := tx.(files := tx.files[id := row]);
      tx := tx.(fts := UpsertIndex(tx.fts, FileRef(id), IndexText(name, "")));
      tables := tx;
      return Success(row);
    }

    method GetFile(id: Id) returns (r: Result<FileRow, StoreError>)
      ensures r == if IsLive(tables.files, id) then Success(tables.files[id]) else Failure(NotFound)
    {
      if id in tables.files && tables.files[id].deletedAt.None? {
        return Success(tables.files[id]);
      }
      return Failure(NotFound);
    }

    method RenameFile(id: Id, name: string, now: int) returns (r: Result<FileRow, StoreError>)
      requires Valid()
      modifies this
      ensures Valid()
      ensures tables == Schema.RenameFile(old(tables), id, name, now)
      ensures r.Success? <==> IsLive(old(tables).files, id)
      ensures r.Success? ==> id in tables.files && r.value == tables.files[id]
      ensures if r.Success? then FileRenamed(old(tables), tables, id, name, now) else tables == old(tables)
    {
      RenameRenames(tables, id, name, now);
      StepKeepsInv(tables, TxRenameFile(id, name), now);
      var tx := tables;
      if !IsLive(tx.files, id) {
        return Failure(NotFound);
      }
      tx := tx.(files := tx.files[id := tx.files[id].(name := name, updatedAt := now)]);
      tx := tx.(fts := UpsertIndex(tx.fts, FileRef(id), IndexText(name, "")));
      tables := tx;
      r := GetFile(id);
    }

    // Orphaned is reported exactly when no live file is left with the hash.
    method DeleteFile(id: Id, now: int) returns (r: Result<Deleted, StoreError>)
      requires Valid()
      modifies this
      ensures Valid()
      ensures tables == Step(old(tables), TxDeleteFile(id), now)
      ensures r.Success? <==> IsLive(old(tables).files, id)
      ensures r.Success? ==> r.value.hash == old(tables).files[id].hash
      ensures r.Success? ==> (r.value.orphaned <==> LiveWith(tables.files, r.value.hash) == {})
      ensures if r.Success? then OneDeleted(old(tables), tables, id, now) else tables == old(tables)
    {
      StepKeepsInv(tables, TxDeleteFile(id), now);
      DeleteDeletesOne(tables, id, now);
      if !IsLive(tables.files, id) {
        return Failure(NotFound);
      }
      var hash := tables.files[id].hash;
      var tx, orphaned := DeleteRow(tables, id, hash, now);
      tables := tx;
      return Success(Deleted(hash, orphaned));
    }

    method DeleteAllFiles(kind: string, now: int) returns (r: Bulk)
      requires Valid()
      modifies this
      ensures Valid()
      ensures tables == DeleteFiles(old(tables), LiveOfKind(old(tables).files, kind), now)
      ensures r.count == |LiveOfKind(old(tables).files, kind)|
      ensures Reports(old(tables), LiveOfKind(old(tables).files, kind), now, r.orphans)
      ensures KindDeleted(old(tables), tables, kind, now)
      ensures r.count == |Went(old(tables), tables)| && NamesTheLost(old(tables), tables, r.orphans)
    {
      StepKeepsInv(tables, TxDeleteAllFiles(kind), now);
      DeleteAllDeletesTheKind(tables, kind, now);
      var items := LiveOfKind(tables.files, kind);
      var tx, orphans := DeleteRows(tables, items, now);
      ReportedAreLost(tables, items, now, orphans);
      tables := tx;
      return Bulk(orphans, |items|);
    }

    // Any one of the oldest live files with the given bytes.
    method FileByHash(hash: Digest) returns (r: Option<Id>)
      ensures r.None? <==> LiveWith(tables.files, hash) == {}
      ensures r.Some? ==> r.value in LiveWith(tables.files, hash)
      ensures r.Some? ==> forall id | id in LiveWith(tables.files, hash) ::
                tables.files[r.value].createdAt <= tables.files[id].createdAt
    {
      var rest := LiveWith(tables.files, hash);
      r := None;
      while rest != {}
        invariant rest <= LiveWith(tables.files, hash)
        invariant r.None? <==> rest == LiveWith(tables.files, hash)
        invariant r.Some? ==> r.value in LiveWith(tables.files, hash)
        invariant r.Some? ==> forall id | id in LiveWith(tables.files, hash) - rest ::
                    tables.files[r.value].createdAt <= tables.files[id].createdAt
        decreases rest
      {
        var id :| id in rest;
        if r.None? || tables.files[id].createdAt < tables.files[r.value].createdAt {
          r := Some(id);
        }
        rest := rest - {id};
      }
    }

    // ----- blobs -------------------------------------------------------------

    method StatsBlobBytes() returns (total: int)
      ensures total == BlobBytes.Bytes(tables.blobs)
    {
      total := 0;
      var rest := tables.blobs;
      while rest != map[]
        invariant rest.Keys <= tables.blobs.Keys
        invariant forall h | h in rest :: rest[h] == tables.blobs[h]
        invariant total + BlobBytes.Bytes(rest) == BlobBytes.Bytes(tables.blobs)
        decreases |rest|
      {
        var h :| h in rest;
        BlobBytes.BytesSplit(rest, h);
        total := total + rest[h].size;
        rest := rest - {h};
      }
    }

    method OrphanBlobHashes(limit: nat) returns (out: set<Digest>)
      ensures IsBatch(out, Unreferenced(tables), limit)
      ensures forall h | h in out :: h in tables.blobs && tables.blobs[h].refcount <= 0
      ensures |out| < limit ==> forall h | h in tables.blobs :: h in out <==> tables.blobs[h].refcount <= 0
    {
      out := Batch(Unreferenced(tables), limit);
    }

    method DeleteBlobRow(hash: Digest)
      modifies this
      ensures tables == old(tables).(blobs := old(tables).blobs - {hash})
    {
      tables := tables.(blobs := tables.blobs - {hash});
    }

    // ----- shares ------------------------------------------------------------

    method CreateShare(id: Id, tokenHash: string, fileId: Id, expiresAt: Option<int>,
                       maxDownloads: Option<int>, oneTime: bool, now: int)
      returns (r: Result<ShareRow, StoreError>)
      requires Valid()
      modifies this
      ensures Valid()
      ensures tables == Schema.CreateShare(old(tables), id, tokenHash, fileId, expiresAt, maxDownloads, oneTime, now)
      ensures r.Success? <==>
              id !in old(tables).shares && !TokenIssued(old(tables), tokenHash) && fileId in old(tables).files
      ensures r.Success? ==> id in tables.shares && r.value == tables.shares[id]
      ensures r.Failure? ==> tables == old(tables)
      ensures r.Success? ==>
                ShareAdded(old(tables), tables, id, tokenHash, fileId, expiresAt, maxDownloads, oneTime, now)
    {
      StepKeepsInv(tables, TxCreateShare(id, tokenHash, fileId, expiresAt, maxDownloads, oneTime), now);
      if id in tables.shares || TokenIssued(tables, tokenHash) || fileId !in tables.files {
        return Failure(Constraint);
      }
      var row := ShareRow(tokenHash, fileId, now, expiresAt, maxDownloads, 0, oneTime, None);
      tables := tables.(shares := tables.shares[id := row]);
      return Success(row);
    }

    method RevokeShare(id: Id, now: int) returns (r: Result<(), StoreError>)
      requires Valid()
      modifies this
      ensures Valid()
      ensures tables == Schema.RevokeShare(old(tables), id, now)
      ensures r == if id in old(tables).shares then Success(()) else Failure(NotFound)
      ensures if r.Success? then ShareRevoked(old(tables), tables, id, now) else tables == old(tables)
    {
      StepKeepsInv(tables, TxRevokeShare(id), now);
      if id in tables.shares && tables.shares[id].revokedAt.None? {
        tables := tables.(shares := tables.shares[id := tables.shares[id].(revokedAt := Some(now))]);
      } else if id !in tables.shares {
        return Failure(NotFound);
      }
      return Success(());
    }

    // Succeeds exactly when the token names a share that serves at this time.
    method ResolveShareToken(tokenHash: string, now: int) returns (r: Result<(Id, FileRow), StoreError>)
      requires Valid()
      ensures r.Failure? <==> Shares.Refused(tables, tokenHash, now)
      ensures r == Failure(NotFound) <==> !TokenIssued(tables, tokenHash)
      ensures r.Success? ==>
                && r.value.0 in tables.shares && tables.shares[r.value.0].tokenHash == tokenHash
                && Shares.Serves(tables, r.value.0, now)
                && r.value.1 == tables.files[tables.shares[r.value.0].fileId]
    {
      if !TokenIssued(tables, tokenHash) {
        return Failure(NotFound);
      }
      var id :| id in tables.shares && tables.shares[id].tokenHash == tokenHash;
      var s := tables.shares[id];
      if s.revokedAt.Some? {
        return Failure(Unavailable);
      }
      if s.expiresAt.Some? && s.expiresAt.value <= now {
        return Failure(Unavailable);
      }
      if s.maxDownloads.Some? && s.downloads >= s.maxDownloads.value {
        return Failure(Unavailable);
      }
      var f := GetFile(s.fileId);
      if f.Failure? {
        return Failure(Unavailable);
      }
      return Success((id, f.value));
    }

    method RecordShareDownload(id: Id, now: int) returns (r: Result<(), StoreError>)
      requires Valid()
      modifies this
      ensures Valid()
      ensures tables == RecordDownload(old(tables), id, now)
      ensures r.Success? <==> id in old(tables).shares
      ensures if r.Success? then Counted(old(tables), tables, id, now) else tables == old(tables)
    {
      RecordingCounts(tables, id, now);
      StepKeepsInv(tables, TxRecordDownload(id), now);
      if id !in tables.shares {
        return Failure(NotFound);
      }
      var s := tables.shares[id];
      var downloads := s.downloads + 1;
      var revoke := s.oneTime || (s.maxDownloads.Some? && downloads >= s.maxDownloads.value);
      if revoke {
        tables := tables.(shares := tables.shares[id := s.(downloads := downloads, revokedAt := Some(now))]);
      } else {
        tables := tables.(shares := tables.shares[id := s.(downloads := downloads)]);
      }
      return Success(());
    }

    // At most `limit` of the shares that are revoked or past their expiry; all
    // of them when there are no more than that.
    method ExpiredShareIDs(now: int, limit: nat) returns (out: set<Id>)
      ensures IsBatch(out, Shares.Dead(tables, now), limit)
      ensures forall s | s in out :: s in tables.shares && OverBy(tables.shares[s], now)
      ensures |out| < limit ==> forall s | s in tables.shares :: s in out <==> OverBy(tables.shares[s], now)
    {
      out := Batch(Shares.Dead(tables, now), limit);
    }

    method DeleteShare(id: Id)
      requires Valid()
      modifies this
      ensures Valid()
      ensures tables == old(tables).(shares := old(tables).shares - {id})
    {
      StepKeepsInv(tables, TxDeleteShare(id), 0);
      tables := tables.(shares := tables.shares - {id});
    }

    // ----- clipboard, snippets and notes ---------------------------------------

    method CreateText(k: TextKey, title: string, content: string, tag: string, now: int)
      returns (r: Result<TextRow, StoreError>)
      requires Valid()
      modifies this
      ensures Valid() && (old(IndexCurrent(tables)) ==> IndexCurrent(tables))
      ensures tables == Schema.CreateText(old(tables), k, title, content, tag, now)
      ensures r == if k in old(tables).texts then Failure(Constraint) else Success(tables.texts[k])
      ensures if r.Success? then TextAdded(old(tables), tables, k, title, content, tag, now) else tables == old(tables)
    {
      CreateAddsTheText(tables, k, title, content, tag, now);
      TextTxnKeepsAll(tables, TxCreateText(k, title, content, tag), now);
      var tx := tables;
      var row := TextRow(title, content, DefaultTag(k.kind, tag), false, now, now);
      if k in tx.texts {
        return Failure(Constraint);
      }
      tx := tx.(texts := tx.texts[k := row]);
      tx := tx.(fts := UpsertIndex(tx.fts, TextRef(k), IndexText(title, content)));
      tables := tx;
      return Success(row);
    }

    method GetText(k: TextKey) returns (r: Result<TextRow, StoreError>)
      ensures r == if k in tables.texts then Success(tables.texts[k]) else Failure(NotFound)
    {
      if k in tables.texts {
        return Success(tables.texts[k]);
      }
      return Failure(NotFound);
    }

    // The transaction that ends an update.  The read before it is a separate
    // statement, so the row may be gone by now.
    method WriteText(k: TextKey, row: TextRow)
      requires Valid()
      modifies this
      ensures Valid()
      ensures TextWritten(old(tables), tables, k, row)
      ensures old(IndexCurrent(tables)) ==> (IndexCurrent(tables) <==> k in old(tables).texts)
    {
      WriteWrites(tables, k, row, 0);
      StepKeepsInv(tables, TxWriteText(k, row), 0);
      if IndexCurrent(tables) { StepKeepsIndexIff(tables, TxWriteText(k, row), 0); }
      var tx := tables;
      if k in tx.texts {
        tx := tx.(texts := tx.texts[k := row.(createdAt := tx.texts[k].createdAt)]);
      }
      tx := tx.(fts := UpsertIndex(tx.fts, TextRef(k), IndexText(row.title, row.content)));
      tables := tx;
    }

    // An update that no other request comes between.
    method UpdateText(k: TextKey, p: TextPatch, now: int) returns (r: Result<TextRow, StoreError>)
      requires Valid()
      modifies this
      ensures Valid() && (old(IndexCurrent(tables)) ==> IndexCurrent(tables))
      ensures r.Failure? ==> k !in old(tables).texts && tables == old(tables)
      ensures r.Success? ==> k in old(tables).texts && PatchedBy(old(tables).texts[k], r.value, p, now)
      ensures r.Success? ==> tables == old(tables).(
                texts := old(tables).texts[k := r.value],
                fts := old(tables).fts[TextRef(k) := [IndexText(r.value.title, r.value.content)]])
    {
      var cur := GetText(k);
      if cur.Failure? {
        return Failure(NotFound);
      }
      var row := Patched(cur.value, p, now);
      WriteText(k, row);
      return Success(row);
    }

    method DeleteText(k: TextKey) returns (r: Result<(), StoreError>)
      requires Valid()
      modifies this
      ensures Valid() && (old(IndexCurrent(tables)) ==> IndexCurrent(tables))
      ensures tables == old(tables).(texts := old(tables).texts - {k},
                                     fts := if r.Success? then old(tables).fts - {TextRef(k)} else old(tables).fts)
      ensures r == if k in old(tables).texts then Success(()) else Failure(NotFound)
    {
      TextTxnKeepsAll(tables, TxDeleteText(k), 0);
      var tx := tables;
      if k !in tx.texts {
        return Failure(NotFound);
      }
      tx := tx.(texts := tx.texts - {k});
      tx := tx.(fts := tx.fts - {TextRef(k)});
      tables := tx;
      return Success(());
    }

    method ClearClipboard()
      requires Valid()
      modifies this
      ensures Valid() && (old(IndexCurrent(tables)) ==> IndexCurrent(tables))
      ensures ClipboardCleared(old(tables), tables)
    {
      TextTxnKeepsAll(tables, TxClearClipboard, 0);
      ClearClears(tables, 0);
      var tx := tables;
      tx := tx.(texts := map k | k in tx.texts && k.kind != Clipboard :: tx.texts[k]);
      tx := tx.(fts := map k | k in tx.fts && !(k.TextRef? && k.key.kind == Clipboard) :: tx.fts[k]);
      assert tx == Schema.ClearClipboard(tables);
      tables := tx;
    }
  }

  // h had a file among those deleted and has no live file of any kind left.
  ghost predicate OrphanedBy(t: Tables, deleted: set<Id>, now: int, h: Digest) {
    && (exists id :: id in deleted && id in t.files && t.files[id].hash == h)
    && LiveWith(DeleteFiles(t, deleted, now).files, h) == {}
  }

  lemma ReportedAreLost(t: Tables, deleted: set<Id>, now: int, orphans: seq<Digest>)
    requires Reports(t, deleted, now, orphans) && Went(t, DeleteFiles(t, deleted, now)) == deleted
    ensures NamesTheLost(t, DeleteFiles(t, deleted, now), orphans)
  {
    var u := DeleteFiles(t, deleted, now);
    forall h: Digest
      ensures h in orphans <==>
              (exists id :: id in Went(t, u) && t.files[id].hash == h) && !exists id :: LiveUnder(u, id, h)
    {
      LiveUnderIff(u, h);
      assert h in orphans <==> OrphanedBy(t, deleted, now, h);
    }
  }

  // One more deleted file adds its hash to the orphans when it was the last
  // live file with those bytes, and changes nothing for the other hashes.
  lemma OrphansGrow(t: Tables, done: set<Id>, id: Id, now: int, h: Digest)
    requires IsLive(t.files, id) && id !in done
    ensures LiveWith(DeleteFiles(t, done, now).files, t.files[id].hash) != {}
    ensures OrphanedBy(t, done + {id}, now, h) <==>
            if h == t.files[id].hash then LiveWith(DeleteFiles(t, done + {id}, now).files, h) == {}
            else OrphanedBy(t, done, now, h)
  {
    var hash := t.files[id].hash;
    LiveWithAfterDelete(t.files, done, now, h);
    LiveWithAfterDelete(t.files, done + {id}, now, h);
    LiveWithAfterDelete(t.files, done, now, hash);
    assert id in LiveWith(t.files, hash) - done;
    if h != hash {
      assert id !in LiveWith(t.files, h);
      assert LiveWith(t.files, h) - (done + {id}) == LiveWith(t.files, h) - done;
    } else {
      assert id in done + {id} && id in t.files && t.files[id].hash == h;
    }
  }

  // One turn of the loop in DeleteAllFiles.
  lemma StillToDelete(t: Tables, done: set<Id>, id: Id, now: int)
    requires Inv(t) && IsLive(t.files, id) && id !in done
    ensures var tx := DeleteFiles(t, done, now);
            && RefcountsExact(tx)
            && IsLive(tx.files, id) && tx.files[id].hash == t.files[id].hash
            && DeleteFiles(tx, {id}, now) == DeleteFiles(t, done + {id}, now)
  {
    RecountKeepsCounts(t, done, now);
    DeleteTwice(t, done, {id}, now);
  }

  lemma DeleteOneMore(t: Tables, done: set<Id>, id: Id, now: int)
    requires Inv(t) && IsLive(t.files, id) && id !in done
    ensures var hash := t.files[id].hash;
            && !OrphanedBy(t, done, now, hash)
            && (forall h: Digest :: OrphanedBy(t, done + {id}, now, h) <==>
                  if h == hash then LiveWith(DeleteFiles(t, done + {id}, now).files, hash) == {}
                  else OrphanedBy(t, done, now, h))
  {
    forall h: Digest
      ensures OrphanedBy(t, done + {id}, now, h) <==>
              if h == t.files[id].hash then LiveWith(DeleteFiles(t, done + {id}, now).files, h) == {}
              else OrphanedBy(t, done, now, h)
    {
      OrphansGrow(t, done, id, now, h);
    }
    OrphansGrow(t, done, id, now, t.files[id].hash);
  }
}
