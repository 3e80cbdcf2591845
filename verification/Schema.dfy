// The SQLite tables as values, and every transaction of internal/store as a
// function from the committed tables to the tables committed next.  A
// transaction that fails is rolled back, so it returns its argument.
module Schema {
  import opened Common

  type Id = string

  // SHA-256 is taken to be injective: a digest is the constructor applied to
  // the bytes it names.
  datatype Digest = Sha256(content: seq<byte>)

  datatype FileRow = FileRow(
    name: string, kind: string, mime: string, size: int, hash: Digest,
    createdAt: int, updatedAt: int, deletedAt: Option<int>)

  datatype BlobRow = BlobRow(size: int, refcount: int, createdAt: int)

  datatype ShareRow = ShareRow(
    tokenHash: string, fileId: Id, createdAt: int, expiresAt: Option<int>,
    maxDownloads: Option<int>, downloads: int, oneTime: bool, revokedAt: Option<int>)

  // Clipboard items, snippets and notes differ only in their columns: a
  // clipboard item has no title, and `tag` is its format; for a snippet
  // `tag` is the language, for a note it is unused.
  datatype TextKind = Clipboard | Snippet | Note

  datatype TextKey = TextKey(kind: TextKind, id: Id)

  datatype TextRow = TextRow(
    title: string, content: string, tag: string, pinned: bool,
    createdAt: int, updatedAt: int)

  // The (entity, ref_id) columns of search_fts.
  datatype IndexKey = FileRef(id: Id) | TextRef(key: TextKey)

  datatype IndexText = IndexText(title: string, body: string)

  // search_fts has no uniqueness constraint, so it is a bag of rows, kept here
  // grouped by (entity, ref_id); a key that is absent has no rows.
  datatype Tables = Tables(
    files: map<Id, FileRow>,
    blobs: map<Digest, BlobRow>,
    shares: map<Id, ShareRow>,
    texts: map<TextKey, TextRow>,
    fts: map<IndexKey, seq<IndexText>>)

  const EMPTY := Tables(map[], map[], map[], map[], map[])

  // ---------------------------------------------------------------------------
  // What the tables mean
  // ---------------------------------------------------------------------------

  predicate IsLive(files: map<Id, FileRow>, id: Id) {
    id in files && files[id].deletedAt.None?
  }

  function LiveWith(files: map<Id, FileRow>, h: Digest): set<Id> {
    set id | id in files && files[id].deletedAt.None? && files[id].hash == h
  }

  ghost predicate RefcountsExact(t: Tables) {
    && (forall h: Digest :: h in t.blobs <==> LiveWith(t.files, h) != {})
    && (forall h | h in t.blobs :: t.blobs[h].refcount == |LiveWith(t.files, h)|)
  }

  ghost predicate SharesSound(t: Tables) {
    && (forall s | s in t.shares :: t.shares[s].fileId in t.files)
    && (forall s, s' | s in t.shares && s' in t.shares ::
          t.shares[s].tokenHash == t.shares[s'].tokenHash ==> s == s')
  }

  ghost predicate Inv(t: Tables) {
    RefcountsExact(t) && SharesSound(t)
  }

  // search_fts holds one row for every live file and every text row, carrying
  // its current title and body, and nothing else.
  ghost predicate IndexCurrent(t: Tables) {
    && (forall id: Id :: FileRef(id) in t.fts <==> IsLive(t.files, id))
    && (forall id: Id | IsLive(t.files, id) ::
          t.fts[FileRef(id)] == [IndexText(t.files[id].name, "")])
    && (forall k: TextKey :: TextRef(k) in t.fts <==> k in t.texts)
    && (forall k: TextKey | k in t.texts ::
          t.fts[TextRef(k)] == [IndexText(t.texts[k].title, t.texts[k].content)])
  }

  // ---------------------------------------------------------------------------
  // Row-level steps used inside transactions
  // ---------------------------------------------------------------------------

  // INSERT INTO search_fts: adds a row next to whatever is already there.
  function InsertIndexRow(fts: map<IndexKey, seq<IndexText>>, k: IndexKey, text: IndexText)
    : map<IndexKey, seq<IndexText>>
  {
    fts[k := (if k in fts then fts[k] else []) + [text]]
  }

  // upsertFTS: DELETE the rows of the key, then INSERT one.
  function UpsertIndex(fts: map<IndexKey, seq<IndexText>>, k: IndexKey, text: IndexText)
    : map<IndexKey, seq<IndexText>>
  {
    InsertIndexRow(fts - {k}, k, text)
  }

  function UpsertBlobRef(blobs: map<Digest, BlobRow>, h: Digest, size: int, now: int)
    : map<Digest, BlobRow>
  {
    if h !in blobs then blobs[h := BlobRow(size, 1, now)]
    else blobs[h := blobs[h].(refcount := blobs[h].refcount + 1)]
  }

  datatype Released = Released(blobs: map<Digest, BlobRow>, orphaned: bool)

  function ReleaseBlob(blobs: map<Digest, BlobRow>, h: Digest): Released {
    if h !in blobs then Released(blobs, true)
    else
      var rc := blobs[h].refcount - 1;
      if rc > 0 then Released(blobs[h := blobs[h].(refcount := rc)], false)
      else Released(blobs - {h}, true)
  }

  // The blobs table computed afresh from the files table.
  function Recount(blobs: map<Digest, BlobRow>, files: map<Id, FileRow>): map<Digest, BlobRow> {
    map h | h in blobs && LiveWith(files, h) != {} ::
      blobs[h].(refcount := |LiveWith(files, h)|)
  }

  // ---------------------------------------------------------------------------
  // Transactions
  // ---------------------------------------------------------------------------

  function NewFileRow(name: string, kind: string, mime: string, size: int, hash: Digest, now: int): FileRow {
    FileRow(name, if kind == "" then "file" else kind,
            if mime == "" then "application/octet-stream" else mime,
            size, hash, now, now, None)
  }

  // A clash of primary keys makes the INSERT fail.
  function CreateFile(t: Tables, id: Id, name: string, kind: string, mime: string,
                      size: int, hash: Digest, now: int): Tables
  {
    if id in t.files then t
    else t.(files := t.files[id := NewFileRow(name, kind, mime, size, hash, now)],
            blobs := UpsertBlobRef(t.blobs, hash, size, now),
            fts := UpsertIndex(t.fts, FileRef(id), IndexText(name, "")))
  }

  function RenameFile(t: Tables, id: Id, name: string, now: int): Tables {
    if !IsLive(t.files, id) then t
    else t.(files := t.files[id := t.files[id].(name := name, updatedAt := now)],
            fts := UpsertIndex(t.fts, FileRef(id), IndexText(name, "")))
  }

  function MarkDeleted(files: map<Id, FileRow>, ids: set<Id>, now: int): map<Id, FileRow> {
    map id | id in files :: if id in ids then files[id].(deletedAt := Some(now)) else files[id]
  }

  function RevokeFor(shares: map<Id, ShareRow>, ids: set<Id>, now: int): map<Id, ShareRow> {
    map s | s in shares ::
      if shares[s].fileId in ids && shares[s].revokedAt.None?
      then shares[s].(revokedAt := Some(now)) else shares[s]
  }

  // What soft-deleting a set of files comes to, with reference counts taken
  // from the files that remain rather than decremented one at a time.
  function DeleteFiles(t: Tables, ids: set<Id>, now: int): Tables {
    var files := MarkDeleted(t.files, ids, now);
    t.(files := files,
       shares := RevokeFor(t.shares, ids, now),
       fts := t.fts - set id | id in ids :: FileRef(id),
       blobs := Recount(t.blobs, files))
  }

  function LiveOfKind(files: map<Id, FileRow>, kind: string): set<Id> {
    set id | id in files && files[id].deletedAt.None? && (kind == "" || files[id].kind == kind)
  }


  function CreateShare(t: Tables, id: Id, tokenHash: string, fileId: Id, expiresAt: Option<int>,
                       maxDownloads: Option<int>, oneTime: bool, now: int): Tables
  {
    if id in t.shares || TokenIssued(t, tokenHash) || fileId !in t.files then t
    else t.(shares := t.shares[id := ShareRow(tokenHash, fileId, now, expiresAt, maxDownloads, 0, oneTime, None)])
  }

  predicate TokenIssued(t: Tables, tokenHash: string) {
    exists s | s in t.shares :: t.shares[s].tokenHash == tokenHash
  }

  function RevokeShare(t: Tables, id: Id, now: int): Tables {
    if id !in t.shares || t.shares[id].revokedAt.Some? then t
    else t.(shares := t.shares[id := t.shares[id].(revokedAt := Some(now))])
  }

  predicate ExhaustedBy(s: ShareRow, downloads: int) {
    s.oneTime || (s.maxDownloads.Some? && downloads >= s.maxDownloads.value)
  }

  function RecordDownload(t: Tables, id: Id, now: int): Tables {
    if id !in t.shares then t
    else
      var s := t.shares[id];
      var counted := s.(downloads := s.downloads + 1);
      t.(shares := t.shares[id :=
           if ExhaustedBy(s, s.downloads + 1) then counted.(revokedAt := Some(now)) else counted])
  }

  function DeleteShare(t: Tables, id: Id): Tables {
    t.(shares := t.shares - {id})
  }

  function DefaultTag(kind: TextKind, tag: string): string {
    if tag != "" then tag
    else match kind case Clipboard => "text" case Snippet => "plaintext" case Note => ""
  }

  function CreateText(t: Tables, k: TextKey, title: string, content: string, tag: string, now: int): Tables {
    if k in t.texts then t
    else t.(texts := t.texts[k := TextRow(title, content, DefaultTag(k.kind, tag), false, now, now)],
            fts := UpsertIndex(t.fts, TextRef(k), IndexText(title, content)))
  }

  // The second half of an update: the row was read by an earlier statement,
  // patched, and is written back here.  UPDATE touches no row when the row has
  // gone, and the index is written either way.
  function WriteText(t: Tables, k: TextKey, row: TextRow): Tables {
    t.(texts := if k in t.texts then t.texts[k := row.(createdAt := t.texts[k].createdAt)] else t.texts,
       fts := UpsertIndex(t.fts, TextRef(k), IndexText(row.title, row.content)))
  }

  function DeleteText(t: Tables, k: TextKey): Tables {
    if k !in t.texts then t
    else t.(texts := t.texts - {k}, fts := t.fts - {TextRef(k)})
  }

  function ClearClipboard(t: Tables): Tables {
    t.(texts := map k | k in t.texts && k.kind != Clipboard :: t.texts[k],
       fts := map k | k in t.fts && !(k.TextRef? && k.key.kind == Clipboard) :: t.fts[k])
  }

  // ---------------------------------------------------------------------------
  // Runs
  // ---------------------------------------------------------------------------

  datatype Txn =
    | TxCreateFile(id: Id, name: string, kind: string, mime: string, size: int, hash: Digest)
    | TxRenameFile(id: Id, name: string)
    | TxDeleteFile(id: Id)
    | TxDeleteAllFiles(kind: string)
    | TxCreateShare(id: Id, tokenHash: string, fileId: Id, expiresAt: Option<int>,
                    maxDownloads: Option<int>, oneTime: bool)
    | TxRevokeShare(id: Id)
    | TxRecordDownload(id: Id)
    | TxDeleteShare(id: Id)
    | TxCreateText(key: TextKey, title: string, content: string, tag: string)
    | TxWriteText(key: TextKey, row: TextRow)
    | TxDeleteText(key: TextKey)
    | TxClearClipboard

  function Step(t: Tables, x: Txn, now: int): Tables {
    match x
    case TxCreateFile(id, name, kind, mime, size, hash) => CreateFile(t, id, name, kind, mime, size, hash, now)
    case TxRenameFile(id, name) => RenameFile(t, id, name, now)
    case TxDeleteFile(id) => if IsLive(t.files, id) then DeleteFiles(t, {id}, now) else t
    case TxDeleteAllFiles(kind) => DeleteFiles(t, LiveOfKind(t.files, kind), now)
    case TxCreateShare(id, tok, f, exp, cap, once) => CreateShare(t, id, tok, f, exp, cap, once, now)
    case TxRevokeShare(id) => RevokeShare(t, id, now)
    case TxRecordDownload(id) => RecordDownload(t, id, now)
    case TxDeleteShare(id) => DeleteShare(t, id)
    case TxCreateText(k, title, content, tag) => CreateText(t, k, title, content, tag, now)
    case TxWriteText(k, row) => WriteText(t, k, row)
    case TxDeleteText(k) => DeleteText(t, k)
    case TxClearClipboard => ClearClipboard(t)
  }

  datatype Timed = Timed(txn: Txn, now: int)

  // The state after the transactions, last one outermost.
  function Run(t: Tables, xs: seq<Timed>): Tables {
    if xs == [] then t else Step(Run(t, xs[..|xs|-1]), xs[|xs|-1].txn, xs[|xs|-1].now)
  }

  lemma {:induction false} RunConcat(t: Tables, a: seq<Timed>, b: seq<Timed>)
    ensures Run(t, a + b) == Run(Run(t, a), b)
    decreases |b|
  {
    if b == [] {
      assert a + b == a;
    } else {
      var front := b[..|b|-1];
      assert (a + b)[..|a + b|-1] == a + front;
      RunConcat(t, a, front);
    }
  }

  lemma OneTxn(t: Tables, x: Timed)
    ensures Run(t, [x]) == Step(t, x.txn, x.now)
  {
    assert [x][..0] == [];
  }
}
