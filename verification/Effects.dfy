// What each transaction comes to, row by row and column by column: an account
// of the tables before and after it that names none of the functions the
// transactions are made of.
module Effects {
  import opened Common
  import opened Schema

  // ---------------------------------------------------------------------------
  // Files
  // ---------------------------------------------------------------------------

  // One more reference to these bytes, and every other blob row as it was.
  ghost predicate Referenced(was: map<Digest, BlobRow>, becomes: map<Digest, BlobRow>, hash: Digest, size: int,
                             now: int)
  {
    && hash in becomes
    && becomes == was[hash := becomes[hash]]
    && (hash !in was ==> becomes[hash] == BlobRow(size, 1, now))
    && (hash in was ==> becomes[hash] == was[hash].(refcount := was[hash].refcount + 1))
  }

  predicate FileColumns(row: FileRow, name: string, kind: string, mime: string, size: int, hash: Digest, now: int) {
    && row.name == name
    && (kind != "" ==> row.kind == kind) && (kind == "" ==> row.kind == "file")
    && (mime != "" ==> row.mime == mime) && (mime == "" ==> row.mime == "application/octet-stream")
    && row.size == size && row.hash == hash
    && row.createdAt == now && row.updatedAt == now && row.deletedAt == None
  }

  ghost predicate FileAdded(t: Tables, u: Tables, id: Id, name: string, kind: string, mime: string, size: int,
                            hash: Digest, now: int)
  {
    && id !in t.files && id in u.files
    && u == t.(files := t.files[id := u.files[id]], blobs := u.blobs,
               fts := t.fts[FileRef(id) := [IndexText(name, "")]])
    && FileColumns(u.files[id], name, kind, mime, size, hash, now)
    && Referenced(t.blobs, u.blobs, hash, size, now)
  }

  lemma CreateAddsTheFile(t: Tables, id: Id, name: string, kind: string, mime: string, size: int, hash: Digest,
                          now: int)
    ensures var u := Step(t, TxCreateFile(id, name, kind, mime, size, hash), now);
            if id in t.files then u == t else FileAdded(t, u, id, name, kind, mime, size, hash, now)
  {
    IndexIsReplaced(t.fts, FileRef(id), IndexText(name, ""));
  }

  lemma IndexIsReplaced(fts: map<IndexKey, seq<IndexText>>, k: IndexKey, text: IndexText)
    ensures UpsertIndex(fts, k, text) == fts[k := [text]]
  {
    assert [] + [text] == [text];
    assert UpsertIndex(fts, k, text) == fts[k := [text]];
  }

  // The name, the time of the change and the index row; all other columns stay.
  ghost predicate FileRenamed(t: Tables, u: Tables, id: Id, name: string, now: int)
  {
    && id in t.files
    && u == t.(files := t.files[id := t.files[id].(name := name, updatedAt := now)],
               fts := t.fts[FileRef(id) := [IndexText(name, "")]])
  }

  lemma RenameRenames(t: Tables, id: Id, name: string, now: int)
    ensures var u := Step(t, TxRenameFile(id, name), now);
            if id in t.files && t.files[id].deletedAt.None? then FileRenamed(t, u, id, name, now) else u == t
  {
    IndexIsReplaced(t.fts, FileRef(id), IndexText(name, ""));
  }

  // The files that were live before and are not after.
  function Went(t: Tables, u: Tables): set<Id> {
    set id | id in t.files && t.files[id].deletedAt.None? && !(id in u.files && u.files[id].deletedAt.None?)
  }

  // A share of a file that went is revoked, unless it was revoked before; the
  // other shares, and all other columns, stay.
  ghost predicate SharesFollow(t: Tables, u: Tables, now: int) {
    && u.shares.Keys == t.shares.Keys
    && (forall s | s in t.shares ::
          u.shares[s] == if t.shares[s].fileId in Went(t, u) && t.shares[s].revokedAt == None
                         then t.shares[s].(revokedAt := Some(now)) else t.shares[s])
  }

  ghost predicate BlobsFollow(t: Tables, u: Tables) {
    && (forall h: Digest :: h in u.blobs <==> h in t.blobs && exists id :: LiveUnder(u, id, h))
    && (forall h | h in u.blobs :: u.blobs[h].size == t.blobs[h].size && u.blobs[h].createdAt == t.blobs[h].createdAt)
  }

  predicate LiveUnder(t: Tables, id: Id, h: Digest) {
    id in t.files && t.files[id].deletedAt.None? && t.files[id].hash == h
  }

  // Whatever files went are marked deleted, in no other column, and shares,
  // index and blobs follow; nothing else changes.
  ghost predicate OnlyDeleted(t: Tables, u: Tables, now: int) {
    && u.texts == t.texts
    && u.files.Keys == t.files.Keys
    && (forall id | id in t.files ::
          u.files[id] == if id in Went(t, u) then t.files[id].(deletedAt := Some(now)) else t.files[id])
    && SharesFollow(t, u, now)
    && BlobsFollow(t, u)
    && (forall k :: k in u.fts <==> k in t.fts && !(k.FileRef? && k.id in Went(t, u)))
    && (forall k | k in u.fts :: u.fts[k] == t.fts[k])
  }

  lemma DeletingIsOnlyDeleting(t: Tables, ids: set<Id>, now: int)
    requires forall id | id in ids :: id in t.files && t.files[id].deletedAt.None?
    ensures var u := DeleteFiles(t, ids, now);
            Went(t, u) == ids && OnlyDeleted(t, u, now)
  {
    var u := DeleteFiles(t, ids, now);
    assert Went(t, u) == ids;
    forall h: Digest
      ensures h in u.blobs <==> h in t.blobs && exists id :: LiveUnder(u, id, h)
    {
      LiveUnderIff(u, h);
    }
  }

  lemma LiveUnderIff(t: Tables, h: Digest)
    ensures LiveWith(t.files, h) != {} <==> exists id :: LiveUnder(t, id, h)
  {
    if LiveWith(t.files, h) != {} {
      var id :| id in LiveWith(t.files, h);
      assert LiveUnder(t, id, h);
    }
    if id :| LiveUnder(t, id, h) {
      assert id in LiveWith(t.files, h);
    }
  }

  // That file and no other.
  ghost predicate OneDeleted(t: Tables, u: Tables, id: Id, now: int) {
    Went(t, u) == {id} && OnlyDeleted(t, u, now)
  }

  lemma DeleteDeletesOne(t: Tables, id: Id, now: int)
    ensures var u := Step(t, TxDeleteFile(id), now);
            if id in t.files && t.files[id].deletedAt.None? then OneDeleted(t, u, id, now) else u == t
  {
    if id in t.files && t.files[id].deletedAt.None? {
      DeletingIsOnlyDeleting(t, {id}, now);
    }
  }

  // A live file stays exactly when a kind was asked for and it is of another,
  // and then it stays as it is.
  ghost predicate KindDeleted(t: Tables, u: Tables, kind: string, now: int) {
    && OnlyDeleted(t, u, now)
    && (forall id | id in t.files && t.files[id].deletedAt.None? ::
          id in u.files &&
          (u.files[id].deletedAt.None? <==> kind != "" && t.files[id].kind != kind) &&
          (u.files[id].deletedAt.None? ==> u.files[id] == t.files[id]))
  }

  lemma DeleteAllDeletesTheKind(t: Tables, kind: string, now: int)
    ensures KindDeleted(t, Step(t, TxDeleteAllFiles(kind), now), kind, now)
    ensures Went(t, Step(t, TxDeleteAllFiles(kind), now)) == LiveOfKind(t.files, kind)
  {
    DeletingIsOnlyDeleting(t, LiveOfKind(t.files, kind), now);
  }

  // The list names, once each, exactly the hashes a file went from and no live
  // file has.
  ghost predicate NamesTheLost(t: Tables, u: Tables, hashes: seq<Digest>) {
    && (forall i, j | 0 <= i < j < |hashes| :: hashes[i] != hashes[j])
    && (forall h: Digest :: h in hashes <==>
          (exists id :: id in Went(t, u) && t.files[id].hash == h) && !exists id :: LiveUnder(u, id, h))
  }

  // ---------------------------------------------------------------------------
  // Shares
  // ---------------------------------------------------------------------------

  ghost predicate ShareAdded(t: Tables, u: Tables, id: Id, tokenHash: string, fileId: Id, expiresAt: Option<int>,
                             maxDownloads: Option<int>, oneTime: bool, now: int)
  {
    && id !in t.shares
    && u == t.(shares := t.shares[id := ShareRow(tokenHash, fileId, now, expiresAt, maxDownloads, 0, oneTime, None)])
  }

  // A share that is revoked already keeps its time.
  ghost predicate ShareRevoked(t: Tables, u: Tables, id: Id, now: int) {
    && id in t.shares
    && u == if t.shares[id].revokedAt == None then t.(shares := t.shares[id := t.shares[id].(revokedAt := Some(now))])
            else t
  }

  // Refused when the identifier or the token is taken or there is no such file.
  lemma IssuingAdds(t: Tables, id: Id, tokenHash: string, fileId: Id, expiresAt: Option<int>, maxDownloads: Option<int>,
                    oneTime: bool, now: int)
    ensures var u := Step(t, TxCreateShare(id, tokenHash, fileId, expiresAt, maxDownloads, oneTime), now);
            if id in t.shares || fileId !in t.files || (exists s :: s in t.shares && t.shares[s].tokenHash == tokenHash)
            then u == t
            else ShareAdded(t, u, id, tokenHash, fileId, expiresAt, maxDownloads, oneTime, now)
  {
  }

  lemma RevokingRevokes(t: Tables, id: Id, now: int)
    ensures var u := Step(t, TxRevokeShare(id), now);
            if id in t.shares then ShareRevoked(t, u, id, now) else u == t
  {
  }

  lemma RemovingRemoves(t: Tables, id: Id, now: int)
    ensures var u := Step(t, TxDeleteShare(id), now);
            u == t.(shares := u.shares) && u.shares == map s | s in t.shares && s != id :: t.shares[s]
  {
  }

  // One more download, and revoked with it when the share is one-time or has
  // reached its cap; every other column, share and table is as before.
  ghost predicate Counted(t: Tables, u: Tables, id: Id, now: int) {
    && id in t.shares && id in u.shares
    && u == t.(shares := t.shares[id := u.shares[id]])
    && var was, becomes := t.shares[id], u.shares[id];
       && becomes == was.(downloads := was.downloads + 1, revokedAt := becomes.revokedAt)
       && (was.oneTime || (was.maxDownloads.Some? && was.downloads + 1 >= was.maxDownloads.value) ==>
             becomes.revokedAt == Some(now))
       && (!was.oneTime && (was.maxDownloads.None? || was.downloads + 1 < was.maxDownloads.value) ==>
             becomes.revokedAt == was.revokedAt)
  }

  lemma RecordingCounts(t: Tables, id: Id, now: int)
    ensures var u := Step(t, TxRecordDownload(id), now);
            if id in t.shares then Counted(t, u, id, now) else u == t
  {
  }

  // ---------------------------------------------------------------------------
  // Clipboard items, snippets and notes
  // ---------------------------------------------------------------------------

  ghost predicate TextAdded(t: Tables, u: Tables, k: TextKey, title: string, content: string, tag: string, now: int) {
    && k !in t.texts && k in u.texts
    && u == t.(texts := t.texts[k := u.texts[k]], fts := t.fts[TextRef(k) := [IndexText(title, content)]])
    && u.texts[k] == TextRow(title, content, u.texts[k].tag, false, now, now)
    && (tag != "" ==> u.texts[k].tag == tag)
    && (tag == "" && k.kind == Clipboard ==> u.texts[k].tag == "text")
    && (tag == "" && k.kind == Snippet ==> u.texts[k].tag == "plaintext")
    && (tag == "" && k.kind == Note ==> u.texts[k].tag == "")
  }

  lemma CreateAddsTheText(t: Tables, k: TextKey, title: string, content: string, tag: string, now: int)
    ensures var u := Step(t, TxCreateText(k, title, content, tag), now);
            if k in t.texts then u == t else TextAdded(t, u, k, title, content, tag, now)
  {
    IndexIsReplaced(t.fts, TextRef(k), IndexText(title, content));
  }

  // All columns but the time of creation are written where the row exists; the
  // index row is written either way.
  ghost predicate TextWritten(t: Tables, u: Tables, k: TextKey, row: TextRow) {
    && u == t.(texts := u.texts, fts := t.fts[TextRef(k) := [IndexText(row.title, row.content)]])
    && (k !in t.texts ==> u.texts == t.texts)
    && (k in t.texts ==> u.texts == t.texts[k := TextRow(row.title, row.content, row.tag, row.pinned,
                                                         t.texts[k].createdAt, row.updatedAt)])
  }

  lemma WriteWrites(t: Tables, k: TextKey, row: TextRow, now: int)
    ensures TextWritten(t, Step(t, TxWriteText(k, row), now), k, row)
  {
    IndexIsReplaced(t.fts, TextRef(k), IndexText(row.title, row.content));
  }

  // The row and its index row go together.
  lemma DeleteDeletesTheText(t: Tables, k: TextKey, now: int)
    ensures var u := Step(t, TxDeleteText(k), now);
            if k in t.texts then u == t.(texts := t.texts - {k}, fts := t.fts - {TextRef(k)}) else u == t
  {
  }

  // Clipboard items and their index rows go; snippets, notes and the rest stay.
  ghost predicate ClipboardCleared(t: Tables, u: Tables) {
    && u == t.(texts := u.texts, fts := u.fts)
    && (forall k :: k in u.texts <==> k in t.texts && (k.kind == Snippet || k.kind == Note))
    && (forall k | k in u.texts :: u.texts[k] == t.texts[k])
    && (forall k :: k in u.fts <==> k in t.fts && (k.FileRef? || k.key.kind == Snippet || k.key.kind == Note))
    && (forall k | k in u.fts :: u.fts[k] == t.fts[k])
  }

  lemma ClearClears(t: Tables, now: int)
    ensures ClipboardCleared(t, Step(t, TxClearClipboard, now))
  {
  }
}
