// What every transaction keeps, and so what every reachable state satisfies.
module Invariants {
  import opened Common
  import opened Schema

  // ---------------------------------------------------------------------------
  // Reference counts
  // ---------------------------------------------------------------------------

  lemma LiveWithAfterInsert(files: map<Id, FileRow>, id: Id, row: FileRow, h: Digest)
    requires id !in files && row.deletedAt.None?
    ensures LiveWith(files[id := row], h) ==
            if row.hash == h then LiveWith(files, h) + {id} else LiveWith(files, h)
    ensures row.hash == h ==> |LiveWith(files[id := row], h)| == |LiveWith(files, h)| + 1
  {
    var grown := files[id := row];
    if row.hash == h {
      assert LiveWith(grown, h) == LiveWith(files, h) + {id};
    } else {
      assert LiveWith(grown, h) == LiveWith(files, h);
    }
  }

  lemma LiveWithAfterDelete(files: map<Id, FileRow>, ids: set<Id>, now: int, h: Digest)
    ensures LiveWith(MarkDeleted(files, ids, now), h) == LiveWith(files, h) - ids
  {
    assert LiveWith(MarkDeleted(files, ids, now), h) == LiveWith(files, h) - ids;
  }

  // The stepwise UPSERT keeps the counts exact when the file row is added.
  lemma UpsertKeepsCounts(t: Tables, id: Id, row: FileRow, now: int)
    requires RefcountsExact(t) && id !in t.files && row.deletedAt.None?
    ensures RefcountsExact(t.(files := t.files[id := row],
                              blobs := UpsertBlobRef(t.blobs, row.hash, row.size, now)))
  {
    var t' := t.(files := t.files[id := row], blobs := UpsertBlobRef(t.blobs, row.hash, row.size, now));
    forall h: Digest
      ensures h in t'.blobs <==> LiveWith(t'.files, h) != {}
      ensures h in t'.blobs ==> t'.blobs[h].refcount == |LiveWith(t'.files, h)|
    {
      LiveWithAfterInsert(t.files, id, row, h);
      if h == row.hash {
        assert id in LiveWith(t'.files, h);
      }
    }
  }

  // Decrementing the count of one deleted file, and dropping the row at zero,
  // is the same as counting the remaining live files; the missing-row branch
  // of ReleaseBlob is never taken.
  lemma ReleaseIsRecount(t: Tables, id: Id, now: int)
    requires RefcountsExact(t) && IsLive(t.files, id)
    ensures t.files[id].hash in t.blobs
    ensures var files := MarkDeleted(t.files, {id}, now);
            var h := t.files[id].hash;
            ReleaseBlob(t.blobs, h) == Released(Recount(t.blobs, files), LiveWith(files, h) == {})
  {
    var files := MarkDeleted(t.files, {id}, now);
    var h := t.files[id].hash;
    assert id in LiveWith(t.files, h);
    forall g: Digest
      ensures LiveWith(files, g) == if g == h then LiveWith(t.files, g) - {id} else LiveWith(t.files, g)
    {
      LiveWithAfterDelete(t.files, {id}, now, g);
      if g != h {
        assert id !in LiveWith(t.files, g);
      }
    }
    assert |LiveWith(files, h)| == |LiveWith(t.files, h)| - 1;
    assert ReleaseBlob(t.blobs, h).blobs == Recount(t.blobs, files);
  }

  // The statements DeleteFile issues, in order, amount to DeleteFiles of one file.
  lemma DeleteStepwise(t: Tables, id: Id, now: int)
    requires RefcountsExact(t) && IsLive(t.files, id)
    ensures var hash := t.files[id].hash;
            var released := ReleaseBlob(t.blobs, hash);
            var t' := DeleteFiles(t, {id}, now);
            && t' == t.(files := t.files[id := t.files[id].(deletedAt := Some(now))],
                        shares := RevokeFor(t.shares, {id}, now),
                        fts := t.fts - {FileRef(id)},
                        blobs := released.blobs)
            && (released.orphaned <==> LiveWith(t'.files, hash) == {})
  {
    ReleaseIsRecount(t, id, now);
    assert MarkDeleted(t.files, {id}, now) == t.files[id := t.files[id].(deletedAt := Some(now))];
    assert (set i | i in {id} :: FileRef(i)) == {FileRef(id)};
  }

  lemma RecountKeepsCounts(t: Tables, ids: set<Id>, now: int)
    requires RefcountsExact(t)
    ensures RefcountsExact(DeleteFiles(t, ids, now))
  {
    var files := MarkDeleted(t.files, ids, now);
    forall h: Digest
      ensures h in Recount(t.blobs, files) <==> LiveWith(files, h) != {}
    {
      LiveWithAfterDelete(t.files, ids, now, h);
    }
  }

  lemma RenameKeepsCounts(t: Tables, id: Id, name: string, now: int)
    requires RefcountsExact(t)
    ensures RefcountsExact(RenameFile(t, id, name, now))
  {
    var t' := RenameFile(t, id, name, now);
    forall h: Digest
      ensures LiveWith(t'.files, h) == LiveWith(t.files, h)
    {
    }
  }

  // ---------------------------------------------------------------------------
  // Every transaction, every run
  // ---------------------------------------------------------------------------

  predicate OnFiles(x: Txn) {
    x.TxCreateFile? || x.TxRenameFile? || x.TxDeleteFile? || x.TxDeleteAllFiles?
  }

  predicate OnShares(x: Txn) {
    x.TxCreateShare? || x.TxRevokeShare? || x.TxRecordDownload? || x.TxDeleteShare?
  }

  lemma FileStepKeepsInv(t: Tables, x: Txn, now: int)
    requires Inv(t) && OnFiles(x)
    ensures Inv(Step(t, x, now))
  {
    match x
    case TxCreateFile(id, name, kind, mime, size, hash) =>
      if id !in t.files {
        UpsertKeepsCounts(t, id, NewFileRow(name, kind, mime, size, hash, now), now);
      }
    case TxRenameFile(id, name) => RenameKeepsCounts(t, id, name, now);
    case TxDeleteFile(id) => RecountKeepsCounts(t, {id}, now);
    case TxDeleteAllFiles(kind) => RecountKeepsCounts(t, LiveOfKind(t.files, kind), now);
  }

  // The counts depend on these two tables only.
  lemma CountsFrame(t: Tables, t': Tables)
    requires t'.files == t.files && t'.blobs == t.blobs
    ensures RefcountsExact(t') <==> RefcountsExact(t)
  {
  }

  lemma OtherStepKeepsInv(t: Tables, x: Txn, now: int)
    requires Inv(t) && !OnFiles(x)
    ensures Inv(Step(t, x, now))
  {
    CountsFrame(t, Step(t, x, now));
    assert SharesSound(Step(t, x, now)) by {
      ShareRowsStaySound(t, x, now);
    }
  }

  lemma ShareRowsStaySound(t: Tables, x: Txn, now: int)
    requires SharesSound(t) && !OnFiles(x)
    ensures SharesSound(Step(t, x, now))
  {
  }

  lemma StepKeepsInv(t: Tables, x: Txn, now: int)
    requires Inv(t)
    ensures Inv(Step(t, x, now))
  {
    if OnFiles(x) {
      FileStepKeepsInv(t, x, now);
    } else {
      OtherStepKeepsInv(t, x, now);
    }
  }

  // Every reachable state: a blob row exists exactly for the hashes of live
  // files and counts them, under any interleaving of the transactions.
  lemma {:induction false} ReachableInv(xs: seq<Timed>)
    ensures Inv(Run(EMPTY, xs))
    ensures forall h | h in Run(EMPTY, xs).blobs :: Run(EMPTY, xs).blobs[h].refcount > 0
  {
    if xs != [] {
      ReachableInv(xs[..|xs|-1]);
      StepKeepsInv(Run(EMPTY, xs[..|xs|-1]), xs[|xs|-1].txn, xs[|xs|-1].now);
    }
    var t := Run(EMPTY, xs);
    forall h | h in t.blobs
      ensures t.blobs[h].refcount > 0
    {
      assert LiveWith(t.files, h) != {};
    }
  }

  // ---------------------------------------------------------------------------
  // The search index
  // ---------------------------------------------------------------------------

  // A write-back finds its row still there.  Every other transaction checks
  // for its row itself.
  predicate FindsItsRow(t: Tables, x: Txn) {
    x.TxWriteText? ==> x.key in t.texts
  }

  lemma FileWritesKeepIndex(t: Tables, id: Id, row: FileRow)
    requires IndexCurrent(t) && row.deletedAt.None?
    ensures IndexCurrent(t.(files := t.files[id := row],
                            fts := UpsertIndex(t.fts, FileRef(id), IndexText(row.name, ""))))
  {
  }

  lemma DeleteKeepsIndex(t: Tables, ids: set<Id>, now: int)
    requires IndexCurrent(t)
    ensures IndexCurrent(DeleteFiles(t, ids, now))
  {
    var t' := DeleteFiles(t, ids, now);
    forall id: Id
      ensures FileRef(id) in t'.fts <==> IsLive(t'.files, id)
    {
    }
  }

  lemma TextWriteKeepsIndexIff(t: Tables, k: TextKey, row: TextRow)
    requires IndexCurrent(t)
    ensures IndexCurrent(WriteText(t, k, row)) <==> k in t.texts
  {
    assert TextRef(k) in WriteText(t, k, row).fts;
  }

  lemma TextCreateAndDeleteKeepIndex(t: Tables, k: TextKey, title: string, content: string, tag: string, now: int)
    requires IndexCurrent(t)
    ensures IndexCurrent(CreateText(t, k, title, content, tag, now))
    ensures IndexCurrent(DeleteText(t, k))
  {
  }

  lemma ClearKeepsIndex(t: Tables)
    requires IndexCurrent(t)
    ensures IndexCurrent(ClearClipboard(t))
  {
  }

  // The index depends on these three tables only.
  lemma IndexFrame(t: Tables, t': Tables)
    requires t'.files == t.files && t'.texts == t.texts && t'.fts == t.fts
    ensures IndexCurrent(t') <==> IndexCurrent(t)
  {
  }

  lemma FileStepKeepsIndex(t: Tables, x: Txn, now: int)
    requires IndexCurrent(t) && OnFiles(x)
    ensures IndexCurrent(Step(t, x, now))
  {
    match x
    case TxCreateFile(id, name, kind, mime, size, hash) =>
      if id !in t.files {
        var row := NewFileRow(name, kind, mime, size, hash, now);
        FileWritesKeepIndex(t, id, row);
        IndexFrame(t.(files := t.files[id := row], fts := UpsertIndex(t.fts, FileRef(id), IndexText(row.name, ""))),
                   Step(t, x, now));
      }
    case TxRenameFile(id, name) =>
      if IsLive(t.files, id) {
        FileWritesKeepIndex(t, id, t.files[id].(name := name, updatedAt := now));
      }
    case TxDeleteFile(id) => DeleteKeepsIndex(t, {id}, now);
    case TxDeleteAllFiles(kind) => DeleteKeepsIndex(t, LiveOfKind(t.files, kind), now);
  }

  lemma ShareStepKeepsIndex(t: Tables, x: Txn, now: int)
    requires IndexCurrent(t) && OnShares(x)
    ensures IndexCurrent(Step(t, x, now))
  {
    IndexFrame(t, Step(t, x, now));
  }

  lemma TextStepKeepsIndexIff(t: Tables, x: Txn, now: int)
    requires IndexCurrent(t) && !OnFiles(x) && !OnShares(x)
    ensures IndexCurrent(Step(t, x, now)) <==> FindsItsRow(t, x)
  {
    match x
    case TxCreateText(k, title, content, tag) => TextCreateAndDeleteKeepIndex(t, k, title, content, tag, now);
    case TxWriteText(k, row) => TextWriteKeepsIndexIff(t, k, row);
    case TxDeleteText(k) => TextCreateAndDeleteKeepIndex(t, k, "", "", "", now);
    case TxClearClipboard => ClearKeepsIndex(t);
  }

  // Each transaction keeps the index exact just when it does not write back a
  // text row that was deleted after it was read.
  lemma StepKeepsIndexIff(t: Tables, x: Txn, now: int)
    requires IndexCurrent(t)
    ensures IndexCurrent(Step(t, x, now)) <==> FindsItsRow(t, x)
  {
    if OnFiles(x) {
      FileStepKeepsIndex(t, x, now);
    } else if OnShares(x) {
      ShareStepKeepsIndex(t, x, now);
    } else {
      TextStepKeepsIndexIff(t, x, now);
    }
  }

  ghost predicate NoStrayWrite(t: Tables, xs: seq<Timed>) {
    forall i | 0 <= i < |xs| :: FindsItsRow(Run(t, xs[..i]), xs[i].txn)
  }

  lemma {:induction false} RunKeepsIndex(t: Tables, xs: seq<Timed>)
    requires IndexCurrent(t) && NoStrayWrite(t, xs)
    ensures IndexCurrent(Run(t, xs))
  {
    if xs != [] {
      var front := xs[..|xs|-1];
      assert forall i | 0 <= i < |front| :: front[..i] == xs[..i] && front[i] == xs[i];
      RunKeepsIndex(t, front);
      StepKeepsIndexIff(Run(t, front), xs[|xs|-1].txn, xs[|xs|-1].now);
    }
  }

  ghost predicate AlwaysCurrent(t: Tables, xs: seq<Timed>) {
    forall i | 0 <= i <= |xs| :: IndexCurrent(Run(t, xs[..i]))
  }

  // Over any run the index is current in every state if and only if no text
  // row is written back after it has gone.
  lemma {:induction false} IndexIsCurrentIff(t: Tables, xs: seq<Timed>)
    requires IndexCurrent(t)
    ensures AlwaysCurrent(t, xs) <==> NoStrayWrite(t, xs)
  {
    if AlwaysCurrent(t, xs) {
      forall i | 0 <= i < |xs|
        ensures FindsItsRow(Run(t, xs[..i]), xs[i].txn)
      {
        OneStepMore(t, xs, i);
      }
    }
    if NoStrayWrite(t, xs) {
      forall i | 0 <= i <= |xs|
        ensures IndexCurrent(Run(t, xs[..i]))
      {
        assert forall k | 0 <= k < i :: xs[..i][..k] == xs[..k];
        RunKeepsIndex(t, xs[..i]);
      }
    }
  }

  lemma {:induction false} OneStepMore(t: Tables, xs: seq<Timed>, i: nat)
    requires i < |xs| && IndexCurrent(Run(t, xs[..i])) && IndexCurrent(Run(t, xs[..i + 1]))
    ensures FindsItsRow(Run(t, xs[..i]), xs[i].txn)
  {
    assert xs[..i + 1][..i] == xs[..i];
    StepKeepsIndexIff(Run(t, xs[..i]), xs[i].txn, xs[i].now);
  }

  // The interleaving that leaves a row behind: a note is read for an update,
  // deleted by another request, and written back.
  lemma UpdateAfterDeleteLeavesARow()
    ensures var k := TextKey(Note, "n");
            var read := Run(EMPTY, [Timed(TxCreateText(k, "a", "b", ""), 0)]);
            var deleted := Step(read, TxDeleteText(k), 1);
            && IndexCurrent(deleted)
            && k in read.texts
            && k !in WriteText(deleted, k, read.texts[k]).texts
            && TextRef(k) in WriteText(deleted, k, read.texts[k]).fts
  {
    var k := TextKey(Note, "n");
    var xs := [Timed(TxCreateText(k, "a", "b", ""), 0)];
    assert Run(EMPTY, xs[..0]) == EMPTY;
    StepKeepsIndexIff(EMPTY, xs[0].txn, 0);
    StepKeepsIndexIff(Run(EMPTY, xs), TxDeleteText(k), 1);
  }

  // ---------------------------------------------------------------------------
  // Deleting many files
  // ---------------------------------------------------------------------------

  function DeleteEach(t: Tables, ids: seq<Id>, now: int): Tables {
    if ids == [] then t
    else Step(DeleteEach(t, ids[..|ids|-1], now), TxDeleteFile(ids[|ids|-1]), now)
  }

  lemma DeleteNone(t: Tables, now: int)
    requires RefcountsExact(t)
    ensures DeleteFiles(t, {}, now) == t
  {
    var t' := DeleteFiles(t, {}, now);
    assert t'.files == t.files;
    assert t'.shares == t.shares;
    assert t'.fts == t.fts;
    assert t'.blobs == t.blobs;
  }

  lemma DeleteTwice(t: Tables, a: set<Id>, b: set<Id>, now: int)
    ensures DeleteFiles(DeleteFiles(t, a, now), b, now) == DeleteFiles(t, a + b, now)
  {
    var once := DeleteFiles(t, a, now);
    var both, all := DeleteFiles(once, b, now), DeleteFiles(t, a + b, now);
    assert both.files == all.files;
    assert both.shares == all.shares;
    assert both.fts == all.fts;
    RecountTwice(t, a, b, now);
    assert both.blobs == all.blobs;
  }

  lemma RecountTwice(t: Tables, a: set<Id>, b: set<Id>, now: int)
    ensures var once, all := MarkDeleted(t.files, a, now), MarkDeleted(t.files, a + b, now);
            Recount(Recount(t.blobs, once), all) == Recount(t.blobs, all)
  {
    var once, all := MarkDeleted(t.files, a, now), MarkDeleted(t.files, a + b, now);
    forall h: Digest
      ensures LiveWith(all, h) <= LiveWith(once, h)
    {
      LiveWithAfterDelete(t.files, a, now, h);
      LiveWithAfterDelete(t.files, a + b, now, h);
    }
  }

  lemma DeleteNext(t: Tables, done: set<Id>, id: Id, now: int)
    requires IsLive(t.files, id)
    ensures Step(DeleteFiles(t, done, now), TxDeleteFile(id), now) == DeleteFiles(t, done + {id}, now)
  {
    DeleteTwice(t, done, {id}, now);
    if id in done {
      assert done + {id} == done;
    }
  }

  // Deleting live files one by one, in any order, with repeats or without,
  // leaves what deleting them together leaves.
  lemma {:induction false} DeleteEachIsDeleteFiles(t: Tables, ids: seq<Id>, now: int)
    requires RefcountsExact(t)
    requires forall id | id in ids :: IsLive(t.files, id)
    ensures DeleteEach(t, ids, now) == DeleteFiles(t, (set id | id in ids), now)
  {
    if ids == [] {
      DeleteNone(t, now);
    } else {
      var front, last := ids[..|ids|-1], ids[|ids|-1];
      assert ids == front + [last];
      DeleteEachIsDeleteFiles(t, front, now);
      var done := set id | id in front;
      assert (set id | id in ids) == done + {last};
      DeleteNext(t, done, last, now);
    }
  }

  lemma DeleteAllInAnyOrder(t: Tables, kind: string, order: seq<Id>, now: int)
    requires Inv(t)
    requires forall id :: id in order <==> IsLive(t.files, id) && (kind == "" || t.files[id].kind == kind)
    ensures DeleteEach(t, order, now) == Step(t, TxDeleteAllFiles(kind), now)
    ensures forall id | IsLive(t.files, id) && id !in order ::
              id in Step(t, TxDeleteAllFiles(kind), now).files &&
              Step(t, TxDeleteAllFiles(kind), now).files[id] == t.files[id]
  {
    assert (set id | id in order) == LiveOfKind(t.files, kind);
    DeleteEachIsDeleteFiles(t, order, now);
  }
}
