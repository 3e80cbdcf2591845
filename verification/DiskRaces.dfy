// Uploads and deletes interleaved.  The disk step and the database step of a
// handler are separate, so another handler may run between them: a finished
// upload is adopted before its row is created, and orphaned bytes are removed
// after the delete has committed.
module DiskRaces {
  import opened Common
  import opened Schema
  import opened Invariants
  import opened BlobStores
  import opened Database
  import Server

  // A handler between its two steps.
  datatype Task =
    | Adopted(hash: Digest)              // bytes stored, row not yet created
    | Removing(hashes: set<Digest>)      // rows gone, bytes still to be removed

  // `left` are the hashes whose handler died between its two steps.
  datatype World = World(t: Tables, disk: map<Digest, seq<byte>>, tasks: map<nat, Task>, left: set<Digest>)

  datatype Move =
    | Adopt(task: nat, bytes: seq<byte>)
    | Reject(task: nat)                  // the body turned out to be oversized
    | Create(task: nat, id: Id, name: string, kind: string, mime: string)
    | Delete(task: nat, id: Id)
    | DeleteAll(task: nat, kind: string)
    | Remove(task: nat, hash: Digest)
    | Abandon(task: nat)                 // the request is cancelled, or the process stops
    | Unrelated(txn: Txn)                // any transaction that neither creates nor deletes files

  datatype At = At(move: Move, now: int)

  predicate Acceptable(h: Digest, maxFileSize: int) {
    maxFileSize > 0 ==> |h.content| <= maxFileSize
  }

  function Start(): World { World(EMPTY, map[], map[], {}) }

  function Awaiting(tasks: map<nat, Task>, task: nat, hashes: set<Digest>): map<nat, Task> {
    if hashes == {} then tasks - {task} else tasks[task := Removing(hashes)]
  }

  // The hashes a transaction leaves without a live file.
  function Orphans(t: Tables, t': Tables): set<Digest> {
    t.blobs.Keys - t'.blobs.Keys
  }

  function HashesOf(task: Task): set<Digest> {
    match task
    case Adopted(hash) => {hash}
    case Removing(hashes) => hashes
  }

  // None when the move cannot happen in this state.
  function Next(w: World, m: Move, maxFileSize: int, now: int): Option<World> {
    match m
    case Adopt(task, bytes) =>
      var h := Sha256(bytes);
      if task in w.tasks then None
      else Some(w.(disk := if h in w.disk then w.disk else w.disk[h := bytes],
                   tasks := w.tasks[task := Adopted(h)]))
    case Reject(task) =>
      if task !in w.tasks || !w.tasks[task].Adopted? || Acceptable(w.tasks[task].hash, maxFileSize) then None
      else Some(w.(tasks := w.tasks[task := Removing({w.tasks[task].hash})]))
    case Create(task, id, name, kind, mime) =>
      if task !in w.tasks || !w.tasks[task].Adopted? || !Acceptable(w.tasks[task].hash, maxFileSize) || id in w.t.files
      then None
      else
        var h := w.tasks[task].hash;
        Some(w.(t := CreateFile(w.t, id, name, kind, mime, |h.content|, h, now), tasks := w.tasks - {task}))
    case Delete(task, id) =>
      if task in w.tasks then None
      else
        var t' := Step(w.t, TxDeleteFile(id), now);
        Some(w.(t := t', tasks := Awaiting(w.tasks, task, Orphans(w.t, t'))))
    case DeleteAll(task, kind) =>
      if task in w.tasks then None
      else
        var t' := Step(w.t, TxDeleteAllFiles(kind), now);
        Some(w.(t := t', tasks := Awaiting(w.tasks, task, Orphans(w.t, t'))))
    case Remove(task, h) =>
      if task !in w.tasks || !w.tasks[task].Removing? || h !in w.tasks[task].hashes then None
      else
        Some(w.(disk := w.disk - {h}, tasks := Awaiting(w.tasks, task, w.tasks[task].hashes - {h})))
    case Abandon(task) =>
      if task !in w.tasks then None
      else Some(w.(tasks := w.tasks - {task}, left := w.left + HashesOf(w.tasks[task])))
    case Unrelated(x) =>
      if x.TxCreateFile? || x.TxDeleteFile? || x.TxDeleteAllFiles? then None
      else Some(w.(t := Step(w.t, x, now)))
  }

  // No live file has lost its bytes.
  ghost predicate BytesSafe(w: World) {
    forall h | h in w.t.blobs :: h in w.disk && w.disk[h] == h.content
  }

  ghost predicate Uploading(w: World, h: Digest) {
    exists k :: k in w.tasks && w.tasks[k] == Adopted(h)
  }

  ghost predicate AwaitsRemoval(w: World, h: Digest) {
    exists k :: k in w.tasks && w.tasks[k].Removing? && h in w.tasks[k].hashes
  }

  // No upload of acceptable bytes has been adopted while a removal of the same
  // bytes is still pending.
  ghost predicate NoClash(w: World, maxFileSize: int) {
    forall h: Digest :: Acceptable(h, maxFileSize) && Uploading(w, h) ==> !AwaitsRemoval(w, h)
  }

  ghost predicate Good(w: World, maxFileSize: int) {
    && Inv(w.t)
    && Server.SizesHonest(w.t, maxFileSize)
    && Honest(w.disk)
    && BytesSafe(w)
    && (forall h: Digest :: Uploading(w, h) && Acceptable(h, maxFileSize) ==> h in w.disk)
    && (forall h: Digest :: AwaitsRemoval(w, h) ==> h !in w.t.blobs)
    && (forall h: Digest :: h in w.disk ==> h in w.t.blobs || Uploading(w, h) || AwaitsRemoval(w, h) || h in w.left)
  }

  // ---------------------------------------------------------------------------
  // One move, exactly
  // ---------------------------------------------------------------------------

  // What could be checked before the move: bytes are removed only while no
  // live file needs them, and a row is created only over bytes still there.
  predicate Harmless(w: World, m: Move) {
    match m
    case Remove(_, h) => h !in w.t.blobs
    case Create(task, _, _, _, _) => task in w.tasks && w.tasks[task].Adopted? && w.tasks[task].hash in w.disk
    case _ => true
  }

  lemma MoveKeepsBytesIff(w: World, m: Move, maxFileSize: int, now: int)
    requires Inv(w.t) && Honest(w.disk) && BytesSafe(w)
    requires Next(w, m, maxFileSize, now).Some?
    ensures Honest(Next(w, m, maxFileSize, now).value.disk)
    ensures BytesSafe(Next(w, m, maxFileSize, now).value) <==> Harmless(w, m)
  {
    var w' := Next(w, m, maxFileSize, now).value;
    match m
    case Adopt(task, bytes) =>
    case Reject(task) =>
    case Create(task, id, name, kind, mime) =>
      assert w'.t.blobs.Keys == w.t.blobs.Keys + {w.tasks[task].hash};
    case Delete(task, id) => BlobsOnlyShrink(w.t, m, now);
    case DeleteAll(task, kind) => BlobsOnlyShrink(w.t, m, now);
    case Remove(task, h) =>
    case Abandon(task) =>
    case Unrelated(x) => UnrelatedLeavesBlobs(w.t, x, now);
  }

  lemma BlobsOnlyShrink(t: Tables, m: Move, now: int)
    requires m.Delete? || m.DeleteAll?
    ensures m.Delete? ==> Step(t, TxDeleteFile(m.id), now).blobs.Keys <= t.blobs.Keys
    ensures m.DeleteAll? ==> Step(t, TxDeleteAllFiles(m.kind), now).blobs.Keys <= t.blobs.Keys
  {
  }

  lemma UnrelatedLeavesBlobs(t: Tables, x: Txn, now: int)
    requires !x.TxCreateFile? && !x.TxDeleteFile? && !x.TxDeleteAllFiles?
    ensures Step(t, x, now).blobs == t.blobs
    ensures Step(t, x, now).files.Keys == t.files.Keys
    ensures forall id | id in t.files ::
              Step(t, x, now).files[id].size == t.files[id].size && Step(t, x, now).files[id].hash == t.files[id].hash
  {
  }

  // ---------------------------------------------------------------------------
  // What a run does to the tables
  // ---------------------------------------------------------------------------

  // The transaction a move commits, if it commits one.
  function TxnOf(w: World, m: At): seq<Timed> {
    match m.move
    case Create(task, id, name, kind, mime) =>
      if task in w.tasks && w.tasks[task].Adopted? then
        var h := w.tasks[task].hash;
        [Timed(TxCreateFile(id, name, kind, mime, |h.content|, h), m.now)]
      else []
    case Delete(_, id) => [Timed(TxDeleteFile(id), m.now)]
    case DeleteAll(_, kind) => [Timed(TxDeleteAllFiles(kind), m.now)]
    case Unrelated(x) => [Timed(x, m.now)]
    case _ => []
  }

  ghost function TxnsOf(w: World, ms: seq<At>, maxFileSize: int): seq<Timed>
    requires Possible(w, ms, maxFileSize)
    decreases |ms|
  {
    if ms == [] then []
    else TxnOf(w, ms[0]) + TxnsOf(Next(w, ms[0].move, maxFileSize, ms[0].now).value, ms[1..], maxFileSize)
  }

  lemma MoveIsATxn(w: World, m: At, maxFileSize: int)
    requires Next(w, m.move, maxFileSize, m.now).Some?
    ensures Next(w, m.move, maxFileSize, m.now).value.t == Run(w.t, TxnOf(w, m))
  {
    if TxnOf(w, m) != [] {
      OneTxn(w.t, TxnOf(w, m)[0]);
    }
  }

  // However handlers interleave, the tables are a run of whole transactions.
  lemma {:induction false} HandlersAreARun(w: World, ms: seq<At>, maxFileSize: int)
    requires Possible(w, ms, maxFileSize)
    ensures After(w, ms, maxFileSize).t == Run(w.t, TxnsOf(w, ms, maxFileSize))
    decreases |ms|
  {
    if ms != [] {
      var w' := Next(w, ms[0].move, maxFileSize, ms[0].now).value;
      MoveIsATxn(w, ms[0], maxFileSize);
      HandlersAreARun(w', ms[1..], maxFileSize);
      RunConcat(w.t, TxnOf(w, ms[0]), TxnsOf(w', ms[1..], maxFileSize));
    }
  }

  // ---------------------------------------------------------------------------
  // Every run without a clash
  // ---------------------------------------------------------------------------

  lemma AdoptKeepsGood(w: World, task: nat, bytes: seq<byte>, maxFileSize: int, now: int)
    requires Good(w, maxFileSize) && task !in w.tasks
    ensures Good(Next(w, Adopt(task, bytes), maxFileSize, now).value, maxFileSize)
  {
    var w' := Next(w, Adopt(task, bytes), maxFileSize, now).value;
    assert w'.tasks[task] == Adopted(Sha256(bytes));
    forall h: Digest
      ensures Uploading(w', h) <==> Uploading(w, h) || h == Sha256(bytes)
      ensures AwaitsRemoval(w', h) <==> AwaitsRemoval(w, h)
    {
      SameTasks(w, w', task, h);
    }
  }

  // Tasks other than the one that moved still say what they said.
  lemma SameTasks(w: World, w': World, task: nat, h: Digest)
    requires w.tasks - {task} == w'.tasks - {task}
    ensures Uploading(w', h) <==>
              Uploading(w.(tasks := w.tasks - {task}), h) || (task in w'.tasks && w'.tasks[task] == Adopted(h))
    ensures Uploading(w, h) <==>
              Uploading(w.(tasks := w.tasks - {task}), h) || (task in w.tasks && w.tasks[task] == Adopted(h))
    ensures AwaitsRemoval(w', h) <==>
              AwaitsRemoval(w.(tasks := w.tasks - {task}), h) ||
              (task in w'.tasks && w'.tasks[task].Removing? && h in w'.tasks[task].hashes)
    ensures AwaitsRemoval(w, h) <==>
              AwaitsRemoval(w.(tasks := w.tasks - {task}), h) ||
              (task in w.tasks && w.tasks[task].Removing? && h in w.tasks[task].hashes)
  {
    var rest := w.tasks - {task};
    assert forall k | k in rest :: k in w.tasks && k in w'.tasks;
    assert forall k | k in rest :: w.tasks[k] == rest[k] && w'.tasks[k] == (w'.tasks - {task})[k];
    assert forall k | k in w.tasks && k != task :: k in rest;
    assert forall k | k in w'.tasks && k != task :: k in w'.tasks - {task};
  }

  lemma RejectKeepsGood(w: World, task: nat, maxFileSize: int, now: int)
    requires Good(w, maxFileSize) && Next(w, Reject(task), maxFileSize, now).Some?
    ensures Good(Next(w, Reject(task), maxFileSize, now).value, maxFileSize)
  {
    var w' := Next(w, Reject(task), maxFileSize, now).value;
    assert w.tasks - {task} == w'.tasks - {task};
    forall h: Digest
      ensures Uploading(w', h) ==> Uploading(w, h)
      ensures AwaitsRemoval(w', h) <==> AwaitsRemoval(w, h) || h == w.tasks[task].hash
      ensures Uploading(w, h) ==> Uploading(w', h) || h == w.tasks[task].hash
    {
      SameTasks(w, w', task, h);
    }
  }

  lemma CreateKeepsGood(w: World, m: Move, maxFileSize: int, now: int)
    requires Good(w, maxFileSize) && NoClash(w, maxFileSize)
    requires m.Create? && Next(w, m, maxFileSize, now).Some?
    ensures Good(Next(w, m, maxFileSize, now).value, maxFileSize)
  {
    var w' := Next(w, m, maxFileSize, now).value;
    var hash := w.tasks[m.task].hash;
    assert Uploading(w, hash);
    assert w.tasks - {m.task} == w'.tasks - {m.task};
    forall h: Digest
      ensures Uploading(w', h) ==> Uploading(w, h)
      ensures AwaitsRemoval(w', h) <==> AwaitsRemoval(w, h)
      ensures Uploading(w, h) ==> Uploading(w', h) || h == hash
    {
      SameTasks(w, w', m.task, h);
    }
    assert Inv(w'.t) by { StepKeepsInv(w.t, TxCreateFile(m.id, m.name, m.kind, m.mime, |hash.content|, hash), now); }
    Server.CreateKeepsSizes(w.t, maxFileSize, m.id, m.name, m.kind, m.mime, hash.content, now);
    Server.CreateAddsOneBlob(w.t, m.id, m.name, m.kind, m.mime, hash.content, now);
    assert Sha256(hash.content) == hash;
  }

  lemma DeleteKeepsGood(w: World, task: nat, x: Txn, ids: set<Id>, maxFileSize: int, now: int)
    requires Good(w, maxFileSize) && task !in w.tasks
    requires x.TxDeleteFile? || x.TxDeleteAllFiles?
    requires Step(w.t, x, now) == DeleteFiles(w.t, ids, now)
    ensures var t' := Step(w.t, x, now);
            Good(w.(t := t', tasks := Awaiting(w.tasks, task, Orphans(w.t, t'))), maxFileSize)
  {
    StepKeepsInv(w.t, x, now);
    Server.DeleteKeepsSizes(w.t, ids, maxFileSize, now);
    NewTaskIsGood(w, task, Step(w.t, x, now), Orphans(w.t, Step(w.t, x, now)), maxFileSize);
  }

  lemma NewTaskIsGood(w: World, task: nat, t': Tables, gone: set<Digest>, maxFileSize: int)
    requires Good(w, maxFileSize) && task !in w.tasks && gone == Orphans(w.t, t')
    requires Inv(t') && Server.SizesHonest(t', maxFileSize) && t'.blobs.Keys <= w.t.blobs.Keys
    ensures Good(w.(t := t', tasks := Awaiting(w.tasks, task, gone)), maxFileSize)
  {
    var w' := w.(t := t', tasks := Awaiting(w.tasks, task, gone));
    NowAwaiting(w, w', task, gone);
    assert t'.blobs.Keys == w.t.blobs.Keys - gone;
    ShrunkIsGood(w, w', gone, maxFileSize);
  }

  lemma NowAwaiting(w: World, w': World, task: nat, gone: set<Digest>)
    requires task !in w.tasks && w'.tasks == Awaiting(w.tasks, task, gone)
    ensures forall h: Digest :: Uploading(w', h) <==> Uploading(w, h)
    ensures forall h: Digest :: AwaitsRemoval(w', h) <==> AwaitsRemoval(w, h) || h in gone
  {
    assert w.tasks - {task} == w'.tasks - {task};
    forall h: Digest
      ensures Uploading(w', h) <==> Uploading(w, h)
      ensures AwaitsRemoval(w', h) <==> AwaitsRemoval(w, h) || h in gone
    {
      SameTasks(w, w', task, h);
    }
  }

  // Hashes leave the table and wait for removal instead.
  lemma ShrunkIsGood(w: World, w': World, gone: set<Digest>, maxFileSize: int)
    requires Good(w, maxFileSize) && Inv(w'.t) && Server.SizesHonest(w'.t, maxFileSize)
    requires w'.disk == w.disk && w'.left == w.left
    requires w'.t.blobs.Keys == w.t.blobs.Keys - gone
    requires forall h: Digest :: Uploading(w', h) <==> Uploading(w, h)
    requires forall h: Digest :: AwaitsRemoval(w', h) <==> AwaitsRemoval(w, h) || h in gone
    ensures Good(w', maxFileSize)
  {
  }

  lemma DeletingNobody(w: World, id: Id, now: int)
    requires Inv(w.t)
    ensures exists ids: set<Id> :: Step(w.t, TxDeleteFile(id), now) == DeleteFiles(w.t, ids, now)
  {
    if IsLive(w.t.files, id) {
      assert Step(w.t, TxDeleteFile(id), now) == DeleteFiles(w.t, {id}, now);
    } else {
      DeleteNone(w.t, now);
    }
  }

  lemma RemoveKeepsGood(w: World, task: nat, hash: Digest, maxFileSize: int, now: int)
    requires Good(w, maxFileSize) && NoClash(w, maxFileSize)
    requires Next(w, Remove(task, hash), maxFileSize, now).Some?
    ensures Good(Next(w, Remove(task, hash), maxFileSize, now).value, maxFileSize)
  {
    var w' := Next(w, Remove(task, hash), maxFileSize, now).value;
    assert w.tasks - {task} == w'.tasks - {task};
    assert AwaitsRemoval(w, hash);
    forall h: Digest
      ensures Uploading(w', h) <==> Uploading(w, h)
      ensures AwaitsRemoval(w', h) ==> AwaitsRemoval(w, h)
      ensures AwaitsRemoval(w, h) ==> AwaitsRemoval(w', h) || h == hash
    {
      SameTasks(w, w', task, h);
      if h != hash && h in w.tasks[task].hashes {
        assert h in w.tasks[task].hashes - {hash};
      }
    }
  }

  lemma AbandonKeepsGood(w: World, task: nat, maxFileSize: int, now: int)
    requires Good(w, maxFileSize) && task in w.tasks
    ensures Good(Next(w, Abandon(task), maxFileSize, now).value, maxFileSize)
  {
    var w' := Next(w, Abandon(task), maxFileSize, now).value;
    assert w.tasks - {task} == w'.tasks - {task};
    forall h: Digest
      ensures Uploading(w', h) ==> Uploading(w, h)
      ensures AwaitsRemoval(w', h) ==> AwaitsRemoval(w, h)
      ensures Uploading(w, h) ==> Uploading(w', h) || h in w'.left
      ensures AwaitsRemoval(w, h) ==> AwaitsRemoval(w', h) || h in w'.left
    {
      SameTasks(w, w', task, h);
    }
  }

  lemma UnrelatedKeepsGood(w: World, x: Txn, maxFileSize: int, now: int)
    requires Good(w, maxFileSize) && Next(w, Unrelated(x), maxFileSize, now).Some?
    ensures Good(Next(w, Unrelated(x), maxFileSize, now).value, maxFileSize)
  {
    var w' := Next(w, Unrelated(x), maxFileSize, now).value;
    UnrelatedLeavesBlobs(w.t, x, now);
    assert Inv(w'.t) by { StepKeepsInv(w.t, x, now); }
    forall h: Digest
      ensures Uploading(w', h) <==> Uploading(w, h)
      ensures AwaitsRemoval(w', h) <==> AwaitsRemoval(w, h)
    {
      assert w'.tasks == w.tasks;
    }
  }

  lemma MoveKeepsGood(w: World, m: Move, maxFileSize: int, now: int)
    requires Good(w, maxFileSize) && NoClash(w, maxFileSize)
    requires Next(w, m, maxFileSize, now).Some?
    ensures Good(Next(w, m, maxFileSize, now).value, maxFileSize)
  {
    match m
    case Adopt(task, bytes) => AdoptKeepsGood(w, task, bytes, maxFileSize, now);
    case Reject(task) => RejectKeepsGood(w, task, maxFileSize, now);
    case Create(_, _, _, _, _) => CreateKeepsGood(w, m, maxFileSize, now);
    case Delete(task, id) =>
      DeletingNobody(w, id, now);
      var ids: set<Id> :| Step(w.t, TxDeleteFile(id), now) == DeleteFiles(w.t, ids, now);
      DeleteKeepsGood(w, task, TxDeleteFile(id), ids, maxFileSize, now);
    case DeleteAll(task, kind) =>
      DeleteKeepsGood(w, task, TxDeleteAllFiles(kind), LiveOfKind(w.t.files, kind), maxFileSize, now);
    case Remove(task, h) => RemoveKeepsGood(w, task, h, maxFileSize, now);
    case Abandon(task) => AbandonKeepsGood(w, task, maxFileSize, now);
    case Unrelated(x) => UnrelatedKeepsGood(w, x, maxFileSize, now);
  }

  ghost predicate Possible(w: World, ms: seq<At>, maxFileSize: int)
    decreases |ms|
  {
    ms != [] ==>
      && Next(w, ms[0].move, maxFileSize, ms[0].now).Some?
      && Possible(Next(w, ms[0].move, maxFileSize, ms[0].now).value, ms[1..], maxFileSize)
  }

  ghost function After(w: World, ms: seq<At>, maxFileSize: int): World
    requires Possible(w, ms, maxFileSize)
    decreases |ms|
  {
    if ms == [] then w
    else After(Next(w, ms[0].move, maxFileSize, ms[0].now).value, ms[1..], maxFileSize)
  }

  // The run never clashes.
  ghost predicate Orderly(w: World, ms: seq<At>, maxFileSize: int)
    requires Possible(w, ms, maxFileSize)
    decreases |ms|
  {
    && NoClash(w, maxFileSize)
    && (ms != [] ==> Orderly(Next(w, ms[0].move, maxFileSize, ms[0].now).value, ms[1..], maxFileSize))
  }

  lemma {:induction false} RunKeepsGood(w: World, ms: seq<At>, maxFileSize: int)
    requires Good(w, maxFileSize) && Possible(w, ms, maxFileSize) && Orderly(w, ms, maxFileSize)
    ensures Good(After(w, ms, maxFileSize), maxFileSize)
    decreases |ms|
  {
    if ms != [] {
      MoveKeepsGood(w, ms[0].move, maxFileSize, ms[0].now);
      RunKeepsGood(Next(w, ms[0].move, maxFileSize, ms[0].now).value, ms[1..], maxFileSize);
    }
  }

  // From an empty store, through any interleaving without a clash, every live
  // file has its bytes; and when no handler is between its two steps the disk
  // holds the hashes of live files, and what handlers that died left behind.
  lemma OrderlyRunsKeepEveryByte(ms: seq<At>, maxFileSize: int)
    requires Possible(Start(), ms, maxFileSize) && Orderly(Start(), ms, maxFileSize)
    ensures var w := After(Start(), ms, maxFileSize);
            && BytesSafe(w)
            && (forall h: Digest :: h in w.t.blobs <==> LiveWith(w.t.files, h) != {})
            && (w.tasks == map[] ==> w.t.blobs.Keys <= w.disk.Keys <= w.t.blobs.Keys + w.left)
  {
    RunKeepsGood(Start(), ms, maxFileSize);
    var w := After(Start(), ms, maxFileSize);
    if w.tasks == map[] {
      forall h: Digest
        ensures !Uploading(w, h) && !AwaitsRemoval(w, h)
      {
      }
    }
  }

  // ---------------------------------------------------------------------------
  // Exactly when bytes are left behind
  // ---------------------------------------------------------------------------

  // Bytes on the disk that no row has and no handler holds.
  ghost predicate Stuck(w: World, h: Digest) {
    h in w.disk && h !in w.t.blobs && !Uploading(w, h) && !AwaitsRemoval(w, h)
  }

  // Nobody uploads these bytes again.
  predicate NoUploadOf(ms: seq<At>, h: Digest) {
    forall i | 0 <= i < |ms| && ms[i].move.Adopt? :: Sha256(ms[i].move.bytes) != h
  }

  // An upload cancelled after its bytes were adopted leaves them on the disk
  // with no row, and the orphan sweep asks the rows.  They are stuck there if
  // and only if no other handler holds the same bytes.
  lemma AbandonedBytesStay(w: World, task: nat, h: Digest, maxFileSize: int, now: int)
    requires Good(w, maxFileSize) && task in w.tasks && w.tasks[task] == Adopted(h)
    requires Acceptable(h, maxFileSize) && h !in w.t.blobs
    ensures var w' := Next(w, Abandon(task), maxFileSize, now).value;
            && h in w'.disk && LiveWith(w'.t.files, h) == {} && Unreferenced(w'.t) == {}
            && (Stuck(w', h) <==> forall k | k in w.tasks && k != task :: h !in HashesOf(w.tasks[k]))
  {
    assert Uploading(w, h);
    NothingUnreferenced(w.t);
    var w' := Next(w, Abandon(task), maxFileSize, now).value;
    forall k | k in w.tasks && k != task
      ensures k in w'.tasks && w'.tasks[k] == w.tasks[k]
      ensures h in HashesOf(w.tasks[k]) ==> Uploading(w', h) || AwaitsRemoval(w', h)
    {
      assert k in w.tasks - {task};
    }
  }

  lemma MoveKeepsStuck(w: World, m: Move, h: Digest, maxFileSize: int, now: int)
    requires Stuck(w, h) && Next(w, m, maxFileSize, now).Some?
    requires m.Adopt? ==> Sha256(m.bytes) != h
    ensures Stuck(Next(w, m, maxFileSize, now).value, h)
  {
    var w' := Next(w, m, maxFileSize, now).value;
    match m
    case Delete(_, _) => BlobsOnlyShrink(w.t, m, now);
    case DeleteAll(_, _) => BlobsOnlyShrink(w.t, m, now);
    case Unrelated(x) => UnrelatedLeavesBlobs(w.t, x, now);
    case Create(task, _, _, _, _) => assert w.tasks[task].hash != h;
    case _ =>
  }

  lemma {:induction false} RunKeepsStuck(w: World, ms: seq<At>, h: Digest, maxFileSize: int)
    requires Stuck(w, h) && Possible(w, ms, maxFileSize) && NoUploadOf(ms, h)
    ensures Stuck(After(w, ms, maxFileSize), h)
    decreases |ms|
  {
    if ms != [] {
      MoveKeepsStuck(w, ms[0].move, h, maxFileSize, ms[0].now);
      RunKeepsStuck(Next(w, ms[0].move, maxFileSize, ms[0].now).value, ms[1..], h, maxFileSize);
    }
  }

  // A run that removes the hash without anybody uploading it.
  ghost predicate Removes(w: World, ms: seq<At>, h: Digest, maxFileSize: int) {
    Possible(w, ms, maxFileSize) && NoUploadOf(ms, h) && h !in After(w, ms, maxFileSize).disk
  }

  lemma {:induction false} OneMoveFirst(w: World, m: Move, ms: seq<At>, h: Digest, maxFileSize: int)
    requires Next(w, m, maxFileSize, 0).Some? && !m.Adopt?
    requires Removes(Next(w, m, maxFileSize, 0).value, ms, h, maxFileSize)
    ensures Removes(w, [At(m, 0)] + ms, h, maxFileSize)
  {
    assert ([At(m, 0)] + ms)[1..] == ms;
  }

  lemma {:induction false} AwaitedIsRemoved(w: World, r: nat, h: Digest, maxFileSize: int) returns (ms: seq<At>)
    requires r in w.tasks && w.tasks[r].Removing? && h in w.tasks[r].hashes
    ensures Removes(w, ms, h, maxFileSize)
  {
    ms := [At(Remove(r, h), 0)] + [];
    OneMoveFirst(w, Remove(r, h), [], h, maxFileSize);
  }

  lemma {:induction false} FreshTask(tasks: set<nat>) returns (n: nat)
    ensures forall k | k in tasks :: k < n
    decreases tasks
  {
    if tasks == {} {
      n := 0;
    } else {
      var k :| k in tasks;
      var m := FreshTask(tasks - {k});
      n := if m <= k then k + 1 else m;
      assert forall j | j in tasks :: j == k || j in tasks - {k};
    }
  }

  lemma {:induction false} FreshId(ids: set<Id>) returns (id: Id)
    ensures forall k | k in ids :: |k| < |id|
    decreases ids
  {
    if ids == {} {
      id := "";
    } else {
      var k :| k in ids;
      var m := FreshId(ids - {k});
      id := if |m| <= |k| then k + "x" else m;
      assert forall j | j in ids :: j == k || j in ids - {k};
    }
  }

  // Deleting every file makes any row's bytes an orphan.
  lemma {:induction false} DeletedIsRemoved(w: World, h: Digest, maxFileSize: int) returns (ms: seq<At>)
    requires Inv(w.t) && h in w.t.blobs
    ensures Removes(w, ms, h, maxFileSize)
  {
    var r := FreshTask(w.tasks.Keys);
    var m := DeleteAll(r, "");
    var w' := Next(w, m, maxFileSize, 0).value;
    LiveWithAfterDelete(w.t.files, LiveOfKind(w.t.files, ""), 0, h);
    assert LiveWith(w'.t.files, h) == {};
    assert h in Orphans(w.t, w'.t);
    var rest := AwaitedIsRemoved(w', r, h, maxFileSize);
    ms := [At(m, 0)] + rest;
    OneMoveFirst(w, m, rest, h, maxFileSize);
  }

  lemma {:induction false} UploadedIsRemoved(w: World, u: nat, h: Digest, maxFileSize: int) returns (ms: seq<At>)
    requires Inv(w.t) && u in w.tasks && w.tasks[u] == Adopted(h)
    ensures Removes(w, ms, h, maxFileSize)
  {
    var m, rest;
    if Acceptable(h, maxFileSize) {
      var id := FreshId(w.t.files.Keys);
      m := Create(u, id, "n", "file", "");
      var w' := Next(w, m, maxFileSize, 0).value;
      MoveKeepsInv(w, m, maxFileSize, 0);
      rest := DeletedIsRemoved(w', h, maxFileSize);
    } else {
      m := Reject(u);
      var w' := Next(w, m, maxFileSize, 0).value;
      rest := AwaitedIsRemoved(w', u, h, maxFileSize);
    }
    ms := [At(m, 0)] + rest;
    OneMoveFirst(w, m, rest, h, maxFileSize);
  }

  // Bytes are stuck exactly when no run without a new upload of them removes
  // them.
  lemma {:induction false} StuckIffNeverRemoved(w: World, h: Digest, maxFileSize: int)
    requires Inv(w.t) && h in w.disk
    ensures Stuck(w, h) <==> forall ms :: !Removes(w, ms, h, maxFileSize)
  {
    if Stuck(w, h) {
      forall ms | Possible(w, ms, maxFileSize) && NoUploadOf(ms, h)
        ensures h in After(w, ms, maxFileSize).disk
      {
        RunKeepsStuck(w, ms, h, maxFileSize);
      }
    } else if h in w.t.blobs {
      var ms := DeletedIsRemoved(w, h, maxFileSize);
    } else if Uploading(w, h) {
      var u :| u in w.tasks && w.tasks[u] == Adopted(h);
      var ms := UploadedIsRemoved(w, u, h, maxFileSize);
    } else {
      var r :| r in w.tasks && w.tasks[r].Removing? && h in w.tasks[r].hashes;
      var ms := AwaitedIsRemoved(w, r, h, maxFileSize);
    }
  }

  // ---------------------------------------------------------------------------
  // Exactly when bytes are lost
  // ---------------------------------------------------------------------------

  ghost predicate AlwaysSafe(w: World, ms: seq<At>, maxFileSize: int)
    requires Possible(w, ms, maxFileSize)
    decreases |ms|
  {
    && BytesSafe(w)
    && (ms != [] ==> AlwaysSafe(Next(w, ms[0].move, maxFileSize, ms[0].now).value, ms[1..], maxFileSize))
  }

  ghost predicate AllHarmless(w: World, ms: seq<At>, maxFileSize: int)
    requires Possible(w, ms, maxFileSize)
    decreases |ms|
  {
    ms != [] ==>
      && Harmless(w, ms[0].move)
      && AllHarmless(Next(w, ms[0].move, maxFileSize, ms[0].now).value, ms[1..], maxFileSize)
  }

  lemma MoveKeepsInv(w: World, m: Move, maxFileSize: int, now: int)
    requires Inv(w.t) && Next(w, m, maxFileSize, now).Some?
    ensures Inv(Next(w, m, maxFileSize, now).value.t)
  {
    match m
    case Create(task, id, name, kind, mime) =>
      var h := w.tasks[task].hash;
      StepKeepsInv(w.t, TxCreateFile(id, name, kind, mime, |h.content|, h), now);
    case Delete(_, id) => StepKeepsInv(w.t, TxDeleteFile(id), now);
    case DeleteAll(_, kind) => StepKeepsInv(w.t, TxDeleteAllFiles(kind), now);
    case Unrelated(x) => StepKeepsInv(w.t, x, now);
    case _ =>
  }

  // Over any run at all, every state is safe if and only if every move is
  // harmless.
  lemma {:induction false} RunIsSafeIff(w: World, ms: seq<At>, maxFileSize: int)
    requires Inv(w.t) && Honest(w.disk) && BytesSafe(w) && Possible(w, ms, maxFileSize)
    ensures AlwaysSafe(w, ms, maxFileSize) <==> AllHarmless(w, ms, maxFileSize)
    decreases |ms|
  {
    if ms != [] {
      var w' := Next(w, ms[0].move, maxFileSize, ms[0].now).value;
      MoveKeepsBytesIff(w, ms[0].move, maxFileSize, ms[0].now);
      MoveKeepsInv(w, ms[0].move, maxFileSize, ms[0].now);
      if BytesSafe(w') {
        RunIsSafeIff(w', ms[1..], maxFileSize);
      }
    }
  }

  // The upload u becomes the file id, and then r removes h.
  ghost predicate CreateThenRemoveLoses(w: World, u: nat, id: Id, r: nat, h: Digest, maxFileSize: int, now: int) {
    var w1 := Next(w, Create(u, id, "n", "file", ""), maxFileSize, now);
    w1.Some? &&
    var w2 := Next(w1.value, Remove(r, h), maxFileSize, now);
    w2.Some? && !BytesSafe(w2.value)
  }

  // A clash is exactly what lets an upload lose its bytes to a removal.
  lemma ClashIffBytesCanBeLost(w: World, id: Id, maxFileSize: int, now: int)
    requires Good(w, maxFileSize) && id !in w.t.files
    ensures !NoClash(w, maxFileSize) <==> exists u, r, h :: CreateThenRemoveLoses(w, u, id, r, h, maxFileSize, now)
  {
    if !NoClash(w, maxFileSize) {
      var h: Digest :| Acceptable(h, maxFileSize) && Uploading(w, h) && AwaitsRemoval(w, h);
      var u :| u in w.tasks && w.tasks[u] == Adopted(h);
      var r :| r in w.tasks && w.tasks[r].Removing? && h in w.tasks[r].hashes;
      var w1 := Next(w, Create(u, id, "n", "file", ""), maxFileSize, now).value;
      assert h in w1.t.blobs && r in w1.tasks && w1.tasks[r] == w.tasks[r];
      assert CreateThenRemoveLoses(w, u, id, r, h, maxFileSize, now);
    } else {
      forall u, r, h
        ensures !CreateThenRemoveLoses(w, u, id, r, h, maxFileSize, now)
      {
        NoClashNoLoss(w, u, id, r, h, maxFileSize, now);
      }
    }
  }

  lemma NoClashNoLoss(w: World, u: nat, id: Id, r: nat, h: Digest, maxFileSize: int, now: int)
    requires Good(w, maxFileSize) && NoClash(w, maxFileSize)
    ensures !CreateThenRemoveLoses(w, u, id, r, h, maxFileSize, now)
  {
    var m := Create(u, id, "n", "file", "");
    var w1 := Next(w, m, maxFileSize, now);
    if w1.Some? {
      CreateKeepsGood(w, m, maxFileSize, now);
      assert w.tasks - {u} == w1.value.tasks - {u};
      forall g: Digest
        ensures Uploading(w1.value, g) ==> Uploading(w, g)
        ensures AwaitsRemoval(w1.value, g) ==> AwaitsRemoval(w, g)
      {
        SameTasks(w, w1.value, u, g);
      }
      if Next(w1.value, Remove(r, h), maxFileSize, now).Some? {
        RemoveKeepsGood(w1.value, r, h, maxFileSize, now);
      }
    }
  }

  // ---------------------------------------------------------------------------
  // How bytes are lost
  // ---------------------------------------------------------------------------

  // Without that premise bytes can be lost.  One client deletes the last file
  // with these bytes while another uploads them again: the second upload finds
  // the old copy on disk, and the delete then removes it.
  lemma UploadDuringDeleteLosesBytes(bytes: seq<byte>, now: int)
    ensures exists w: World :: FirstStored(w, bytes, now) && SecondLost(w, bytes, now)
  {
    var h := Sha256(bytes);
    var w1 := Next(Start(), Adopt(0, bytes), 0, now).value;
    assert w1.disk == map[h := bytes] && w1.tasks == map[0 := Adopted(h)] && w1.t == EMPTY;
    var w2 := Next(w1, Create(0, "a", "n", "file", ""), 0, now).value;
    assert w2.tasks == map[];
    assert FirstStored(w2, bytes, now);
    StoredThenLost(w2, bytes, now);
  }

  // A run whose only upload so far is finished.
  ghost predicate FirstStored(w: World, bytes: seq<byte>, now: int) {
    && Next(Start(), Adopt(0, bytes), 0, now).Some?
    && Next(Next(Start(), Adopt(0, bytes), 0, now).value, Create(0, "a", "n", "file", ""), 0, now) == Some(w)
  }

  // From there: the delete commits, the bytes are uploaded again, the delete
  // finishes.
  ghost predicate SecondLost(w: World, bytes: seq<byte>, now: int) {
    var h := Sha256(bytes);
    var w3 := Next(w, Delete(1, "a"), 0, now);
    w3.Some? &&
    var w4 := Next(w3.value, Adopt(2, bytes), 0, now);
    w4.Some? &&
    var w5 := Next(w4.value, Create(2, "b", "n", "file", ""), 0, now);
    w5.Some? &&
    var w6 := Next(w5.value, Remove(1, h), 0, now);
    w6.Some? && IsLive(w6.value.t.files, "b") && w6.value.t.files["b"].hash == h && h !in w6.value.disk
  }

  lemma StoredThenLost(w: World, bytes: seq<byte>, now: int)
    requires w.disk == map[Sha256(bytes) := bytes] && w.tasks == map[]
    requires w.t.files.Keys == {"a"} && IsLive(w.t.files, "a") && w.t.blobs.Keys == {Sha256(bytes)}
    ensures SecondLost(w, bytes, now)
  {
    var h := Sha256(bytes);
    OnlyFileGoes(w.t, "a", now);
    assert Orphans(w.t, Step(w.t, TxDeleteFile("a"), now)) == {h};
    var w3 := Next(w, Delete(1, "a"), 0, now).value;
    assert w3.tasks == map[1 := Removing({h})];
    var w4 := Next(w3, Adopt(2, bytes), 0, now).value;
    assert w4.tasks == map[1 := Removing({h}), 2 := Adopted(h)];
    var w5 := Next(w4, Create(2, "b", "n", "file", ""), 0, now).value;
    assert w5.tasks == map[1 := Removing({h})];
  }

  lemma OnlyFileGoes(t: Tables, id: Id, now: int)
    requires t.files.Keys == {id} && IsLive(t.files, id)
    ensures var t' := Step(t, TxDeleteFile(id), now);
            t'.blobs == map[] && t'.files.Keys == {id}
  {
    var t' := Step(t, TxDeleteFile(id), now);
    forall h: Digest
      ensures LiveWith(t'.files, h) == {}
    {
    }
  }
}
