# A verified model of MyShare's core

MyShare is a single-binary file hub. This project models the parts of it whose
agreement is argued only in comments, and proves them with Dafny:

- **The content-addressed store** (`Schema`, `Effects`, `Invariants`, `Database`,
  `BlobStore`, `Server`, `DiskRaces`). Files are rows, bytes live on disk under
  their SHA-256, and a reference count ties the two together. Each transaction is
  a function on the tables, and `Effects` says column by column what it comes to;
  the class `DB` runs it statement by statement and the class `Service` runs the
  HTTP handlers, the upload finaliser and the cleanup sweep over the tables and
  the disk. Database invariants hold under every
  interleaving of transactions; disk invariants hold for handlers taken one at a
  time, and in `DiskRaces` for interleaved handlers under an exact premise.
- **Admission protocols with a gap between check and act** (`Quota`, `Shares`,
  `Login`, with `BlobBytes` and `MapSum`): none is exact under concurrency; each
  has a numeric bound over every run, and runs that meet it, built for every
  limit in `QuotaRuns` and `Overruns`.
- **Codecs and meaning-preserving transformations** (`Like`, `Ulid` with
  `Base32`, `PercentEncoding`, `Decimal`, `Fingerprint`, `Paging`).
- **Path and name algebra** (`Paths`, `SafePath`, `Browser`, `Filename`,
  `NormalForm`, `Portable`, `Names`, with `Text`).
- **SSE fan-out** (`Sse`): bounded client queues, echo suppression, and
  broadcasts that interleave attempt by attempt.

Verify everything with `dafny verify dfyconfig.toml`.

## What the proofs found

Some things the comments or the interface suggest are not quite what the code
does. In each case the code is modelled as it is, the exact condition is proved,
and a concrete run or input is given:

- An upload that adopts bytes while a delete of the same bytes has committed but
  not yet removed them ends as a live file without bytes
  (`DiskRaces.UploadDuringDeleteLosesBytes`). One move keeps every live file's
  bytes exactly when it is harmless, a whole run exactly when every move is
  (`MoveKeepsBytesIff`, `RunIsSafeIff`), and from a good state an upload can lose
  its bytes this way exactly when some hash is both adopted and awaiting removal
  (`ClashIffBytesCanBeLost`).
- An upload cancelled between storing its bytes and creating its row leaves bytes
  the sweep never finds (`DiskRaces.AbandonedBytesStay`). Nothing but a new upload
  of them can get bytes off the disk again exactly when they have no row and no
  handler holds them (`DiskRaces.StuckIffNeverRemoved`).
- Updates of clipboard items, snippets and notes read the row before their
  transaction starts, so an update that follows a delete leaves a stale row in
  the search index (`Invariants.UpdateAfterDeleteLeavesARow`); every other
  transaction keeps the index exact, and a run has it exact throughout if and only
  if there is no such write (`StepKeepsIndexIff`, `IndexIsCurrentIff`).
- The login limiter's two fixed windows let through at most 19 attempts in any
  closed quarter of an hour, one fewer than two full buckets, and 19 do get
  through. An attempt is refused only after ten in the quarter before it.
- A share with cap m can count m + k - 1 downloads with k under way, and a
  one-time share k: for every m and k there is a run from the empty store
  (`Overruns.CapIsOverrun`, `Overruns.OneTimeIsOverrun`).
- With k uploads in flight the quota M can be passed by k F - 1 bytes, and with
  resumable uploads alone by (k - 1) min(F, M); runs from the empty store reach
  both, given that many different contents, since equal bytes are stored once
  (`QuotaRuns`). For files of one byte that condition is exact.
- The sum in the admission check of resumable uploads is a 64-bit integer: a
  declared size that makes it wrap is admitted (`Quota.WrappedSumIsAdmitted`).
  An expiry that wraps makes a new share expire at once (`Server.NewShareServes`).
- A client whose queue is full is not always sent a resync notice: the notice
  goes to the very queue that was just found full. A client has been sent one
  exactly when a retry found room, which takes a read from that client's own
  queue in between; one that reads nothing misses everything after the first 64
  events and is never told (`Sse.MissedAndNeverTold`).
- `SanitizeFilename` can return a reserved device name, because it checks for one
  before the clamp and the last trim. `SanitizedReservedIff` says exactly when,
  for every input, and `TwoWaysToADevice` how: by a leading space or dot, or by a
  space right behind the device name. The clamp can expose one (`"con"`, 252 or
  more spaces, `"x"`), and so can a dot hidden behind non-ASCII white space at
  either end (U+00A0 and `".con"`; `"con ."` and U+00A0).
- `SanitizeFilename` promises an NFC-normalised result
  (`internal/safepath/safepath.go:66`), but it normalises before it drops control
  and invisible characters, and what it joins may compose: `"e"`, U+200B and
  U+0301 come out as `"e"` and U+0301 (`NormalForm.ZeroWidthSpaceInside`). A result
  is normal exactly when what the clamp keeps is, without a clamp exactly when the
  name is normal once characters have been dropped and replaced
  (`SanitizedNormalIff`), and always when nothing is dropped
  (`NothingDroppedIsNormal`). Sanitising again changes a result exactly when it is
  not normal, is a device name, or has white space at an end (`SanitizedTwiceIff`).
- With the root directory `/` as base, `ResolveInside` rejects every path that
  names anything.
- A listed entry whose name contains a backslash has a path that does not lead
  back to it. So has every file of a directory that is itself served through a
  symbolic link, because real paths are compared with the link's own name. Every
  other entry leads back (`Browsing.ListingLeadsBackIff`).
- `uniquePath` never ends when the name is taken and too long for a number to be
  added, such as a name of 252 to 255 bytes where 255 is the limit: `Lstat` then
  reports a name too long rather than missing. It ends exactly when the name or
  one of its first few numbered forms is absent and short enough
  (`Names.SearchEndsIff`).
- The comment at `internal/api/shares.go:103-105` counts only full responses as
  downloads; the code counts every GET, and so does the model.

## Model

| member | source | states |
|---|---|---|
| Effects.CreateAddsTheFile | internal/store/files.go:27-60 | a new row has exactly the name, kind, type, size and hash given ("file" and "application/octet-stream" when empty), both times now, not deleted; one reference more to its bytes; one index row; nothing else changes |
| Effects.RenameRenames | internal/store/files.go:76-99 | a live file's name, time of change and index row change, and nothing else |
| Effects.DeleteDeletesOne | internal/store/files.go:104-141 | that one live file goes; its shares not revoked before are revoked; its index row goes; a blob row stays exactly while a live file has the hash; nothing else changes |
| Effects.DeleteAllDeletesTheKind | internal/store/files.go:174-233 | a live file stays, unchanged, exactly when a kind was asked for and it is of another; shares, index and blob rows follow what went |
| Effects.IssuingAdds | internal/store/shares.go:23-34 | the row given, with count zero and not revoked; refused when the identifier or token is taken or there is no such file |
| Effects.RevokingRevokes | internal/store/shares.go:57-72 | the time of revocation is set, once |
| Effects.RemovingRemoves | internal/store/shares.go:159-162 | that share goes, nothing else |
| Effects.RecordingCounts | internal/store/shares.go:106-134 | one download more; revoked now exactly when one-time or at its cap, else its revocation stays; every other column, share and table is as before |
| Effects.CreateAddsTheText | internal/store/snippets.go:11-36 | a new row with exactly the columns given, the default format or language when empty, unpinned, and its index row |
| Effects.WriteWrites | internal/store/snippets.go:70-86 | every column but the time of creation where the row exists, and the index row either way |
| Effects.DeleteDeletesTheText | internal/store/clipboard.go:145-163 | the row and its index row go, nothing else |
| Effects.ClearClears | internal/store/clipboard.go:92-105 | clipboard items and their index rows go; snippets, notes, files and the rest stay |
| Invariants.UpsertKeepsCounts | internal/store/blobs.go:22-37 | adding a live file with the counting UPSERT keeps every blob row's count equal to the number of live files with that hash, and rows exactly for hashes of live files |
| Invariants.ReleaseIsRecount | internal/store/blobs.go:42-58 | with exact counts, decrementing (and dropping at zero) equals counting the remaining live files; the missing-row branch is never taken; "orphaned" is reported exactly when no live file has the hash left |
| Invariants.DeleteStepwise | internal/store/files.go:104-141 | the statements of a delete, in order, amount to the declarative deletion of that one file from files, shares, index and blobs |
| Invariants.StepKeepsInv | internal/store/files.go:27-233 | every transaction keeps exact reference counts and sound shares (existing files, unique tokens) |
| Invariants.ReachableInv | internal/store/blobs.go:22-58 | after any sequence of transactions each blob row has a positive count equal to its live files, and rows exist exactly for hashes of live files |
| Invariants.StepKeepsIndexIff | internal/store/search.go:11-20 | a transaction keeps the index exact (one current row for each live file and text, no other row) if and only if it does not write back a text row that has gone; a rename always does |
| Invariants.RunKeepsIndex | internal/store/search.go:11-20 | over any run without such a write-back the index stays exact |
| Invariants.IndexIsCurrentIff | internal/store/search.go:11-20 | started exact, the index is exact after every step of a run if and only if no step is such a write-back |
| Invariants.UpdateAfterDeleteLeavesARow | internal/store/notes.go:44-77 | a note read for an update, deleted, and written back leaves an index row without a note |
| Invariants.DeleteEachIsDeleteFiles | internal/store/files.go:104-141 | deleting live files one by one in any order, repeats allowed, leaves the state that deleting them together leaves |
| Invariants.DeleteAllInAnyOrder | internal/store/files.go:174-233 | delete-all of a kind equals deleting its live files one by one in any order, and leaves every other live file as it was |
| Database.NothingUnreferenced | internal/store/blobs.go:63-79 | with exact counts the orphan query returns nothing |
| Database.DeleteRow | internal/store/files.go:119-136 | the statements inside one delete compute the deletion of that file, and report an orphan exactly when the hash has no live file left |
| Database.DeleteRows | internal/store/files.go:206-228 | the bulk loop computes the joint deletion whatever the row order, and collects, once each, exactly the hashes that lost a file and have none left |
| Database.DB.CreateFile | internal/store/files.go:27-60 | a fresh id becomes a live file with exactly the columns given (`FileAdded`), its blob row and index row; a taken id changes nothing; the invariants stay |
| Database.DB.GetFile | internal/store/files.go:63-73 | the row of a live file, not found for a deleted or unknown one |
| Database.DB.RenameFile | internal/store/files.go:76-99 | a live file gets the new name, time and index row and keeps its other columns; a missing one changes nothing |
| Database.DB.DeleteFile | internal/store/files.go:104-141 | exactly that live file goes, marked in no other column; its shares are revoked, its index row and count released, and the hash and orphan flag are right; a missing one changes nothing |
| Database.DB.DeleteAllFiles | internal/store/files.go:174-233 | a live file stays, unchanged, exactly when a kind was asked for and it is of another; the count is that of the files that went, and the duplicate-free list names exactly their hashes that no live file has |
| Database.DB.FileByHash | internal/store/files.go:304-315 | returns a live file with the hash created no later than any other, or none exactly when there is none |
| Database.DB.StatsBlobBytes | internal/store/misc.go:53-56 | the sum of the blob rows' sizes, whatever order they are added in |
| Database.DB.OrphanBlobHashes | internal/store/blobs.go:63-79 | hashes whose count is not positive, all of them when they fit the limit |
| Database.DB.DeleteBlobRow | internal/store/blobs.go:83-86 | that blob row goes, nothing else |
| Database.DB.CreateShare | internal/store/shares.go:23-34 | a share is stored with count zero, or refused when id or token is taken or the file row is missing |
| Database.DB.RevokeShare | internal/store/shares.go:57-72 | revokes once; an unknown or revoked share is reported and nothing changes |
| Database.DB.ResolveShareToken | internal/store/shares.go:77-102 | answers a share and its file exactly when the token's share is neither revoked, expired nor exhausted and its file is live, and says which refusal applies |
| Database.DB.RecordShareDownload | internal/store/shares.go:106-134 | one download more, and revoked in the same transaction exactly when one-time or at its cap; nothing else changes |
| Database.DB.ExpiredShareIDs | internal/store/shares.go:137-156 | only revoked or expired shares, and all of them when they are fewer than the limit |
| Database.DB.DeleteShare | internal/store/shares.go:159-162 | that share goes, nothing else |
| Database.DB.CreateText | internal/store/clipboard.go:10-36 | a new clipboard item, snippet or note with its index row |
| Database.DB.GetText | internal/store/clipboard.go:39-48 | the row, or not found |
| Database.DB.WriteText | internal/store/snippets.go:70-86 | writes the patched row where it still exists and the index row either way; the index stays exact if and only if the row is there |
| Database.DB.UpdateText | internal/store/clipboard.go:51-84 | taken alone, an update sets each column given, keeps the others and the time of creation, and the index follows; a missing row changes nothing |
| Database.DB.DeleteText | internal/store/clipboard.go:145-163 | the row and its index row go together; a missing one is reported |
| Database.DB.ClearClipboard | internal/store/clipboard.go:92-105 | all clipboard items and their index rows go, nothing else |
| BlobStores.BlobStore.Adopt | internal/blob/blob.go:80-112 | the source is gone and the blob present with its bytes; bytes already stored are kept; fails with nothing changed only when neither source nor blob is there |
| BlobStores.BlobStore.WriteFrom | internal/blob/blob.go:154-189 | the body is stored under its hash, its length and earlier presence are reported, and no temporary file is left |
| BlobStores.BlobStore.Open | internal/blob/blob.go:192-197 | the bytes stored under a hash, or none |
| BlobStores.BlobStore.Remove | internal/blob/blob.go:200-212 | exactly that blob goes |
| Server.CreateKeepsSound | internal/api/files.go:242-275 | storing bytes and creating their row keeps disk, counts, index and sizes in agreement |
| Server.DeleteKeepsSound | internal/api/files.go:86-123 | a delete followed by removing what no live file needs keeps that agreement |
| Server.TooLongForALiveFile | internal/api/files.go:242-252 | truncated oversize bytes are never a live file's, so adopting and removing them again restores the disk |
| Server.OnlyOneHashLoses | internal/api/files.go:86-100 | removing the reported orphan leaves exactly the bytes live files refer to |
| Server.OrphansAreTheRest | internal/api/files.go:104-123 | removing the hashes the bulk delete reports leaves exactly the bytes live files refer to |
| Server.Service.CheckStorage | internal/api/files.go:303-315 | passes exactly when no quota is set, the statistics query fails, or the stored bytes are below it |
| Server.Service.UploadDirect | internal/api/files.go:201-275 | quota and size refusals leave tables and disk as they were; otherwise the body is stored, its row created with exactly the name and type given, kind "screenshot" only when asked for, the true size and hash, and an older duplicate reported exactly when there is one; disk and tables keep agreeing and the upload directory is untouched |
| Server.Service.PreCreate | internal/uploads/uploads.go:97-116 | admits exactly declared sizes within the file limit whose 64-bit sum with the stored bytes is within the quota or wraps, and skips the quota when the query fails |
| Server.EarliestIsADuplicate | internal/uploads/uploads.go:208-223 | asking for the earliest file after creating the new one reports a live duplicate whenever one was created earlier, and never the new file itself |
| Server.Service.FinalizeUpload | internal/uploads/uploads.go:162-229 | the finished upload becomes a live file with exactly the name and type given, kind "screenshot" only when asked for, and its bytes on disk; its temporary file is gone, and disk and tables keep agreeing |
| Server.Service.DeleteFileHandler | internal/api/files.go:86-100 | exactly that live file is deleted and the disk keeps exactly the bytes still referred to; a missing one answers not found and changes nothing |
| Server.Service.DeleteAllHandler | internal/api/files.go:104-123 | a bad kind changes nothing; otherwise a live file stays exactly when a kind was asked for and it is of another, the count is that of the files that went, and the disk keeps exactly the bytes still referred to |
| Server.RemoveAll | internal/api/files.go:104-123 | exactly the listed blobs go |
| Server.Service.DeleteShares | internal/app/cleanup.go:45-53 | exactly the listed shares go, in whatever order |
| Server.Service.SweepBlobs | internal/app/cleanup.go:55-64 | exactly the listed blobs and their rows go |
| Server.Service.CleanupOnce | internal/app/cleanup.go:45-64 | only dead shares go, all of them when they fit one batch; no blob, file or byte is touched |
| Server.SweepChangesNoAnswer | internal/app/cleanup.go:45-53 | after the sweep every token is refused or served as it would have been without it, at every later time |
| Server.Service.DropDeadShares | internal/app/cleanup.go:45-53 | the step that removes dead shares, after which no blob row is unreferenced |
| Server.Service.SweepOrphans | internal/app/cleanup.go:55-64 | with no unreferenced row the sweep of blobs changes nothing |
| Server.NewShareServes | internal/api/shares.go:43-55 | the new row is for that file and token with exactly the positive limits asked for, and serves from then until its expiry, or never when the expiry wraps |
| Server.Service.CreateShareHandler | internal/api/shares.go:25-61 | succeeds exactly for a live file and then adds exactly that row and changes nothing else |
| Server.Service.ServePublicShare | internal/api/shares.go:88-110 | answers with the shared file's own bytes exactly when the token is not refused, not found exactly when no share has it; a GET counts one download and revokes exactly a one-time or used-up share; nothing else changes |
| DiskRaces.MoveKeepsBytesIff | internal/blob/blob.go:80-112 | one step of interleaved handlers keeps every live file's bytes if and only if it removes no live hash and creates no row over missing bytes |
| DiskRaces.HandlersAreARun | internal/api/files.go:86-123 | however handlers interleave, the tables are what a run of whole transactions makes them, those the handlers commit |
| DiskRaces.MoveKeepsGood | internal/api/files.go:86-100 | while no acceptable bytes are both adopted and awaiting removal, every step keeps tables and disk in agreement |
| DiskRaces.OrderlyRunsKeepEveryByte | internal/api/files.go:86-123 | over every such run from the empty store no live file loses its bytes, and at rest the disk holds the hashes of live files and at most what handlers that died left behind |
| DiskRaces.RunIsSafeIff | internal/blob/blob.go:80-112 | over any run every state is safe if and only if every move is harmless |
| DiskRaces.ClashIffBytesCanBeLost | internal/blob/blob.go:86-91 | from a good state, creating a row and then removing its bytes is possible exactly when some acceptable hash is both adopted and awaiting removal |
| DiskRaces.AbandonedBytesStay | internal/api/files.go:242-275 | an upload that dies between its two steps leaves bytes on the disk that no live file has and no sweep finds, stuck there if and only if no other handler holds the same bytes |
| DiskRaces.StuckIffNeverRemoved | internal/app/cleanup.go:55-64 | bytes have no row and no handler holds them if and only if no run of handlers and sweeps without a new upload of them removes them |
| DiskRaces.UploadDuringDeleteLosesBytes | internal/blob/blob.go:86-91 | an upload that adopts between a delete's commit and its removal ends as a live file without bytes |
| Shares.StepKeepsRefusal | internal/store/shares.go:77-134 | no transaction but creating a share with that token makes a refused token serve, then or later |
| Shares.RefusedForever | internal/api/shares.go:88-110 | once refused, a token is refused at every later time through any run of transactions that does not issue it |
| Shares.StopsServingIff | internal/store/shares.go:77-134 | a share that serves stops at a transaction if and only if it deletes its file, by itself or with its kind, revokes or removes the share, or counts the download that uses it up |
| Shares.ServesAfterGets | internal/store/shares.go:106-134 | one at a time, a one-time share serves once, one with a cap as often as its cap leaves, any other any number of times, each until it expires |
| Shares.TrafficIsARun | internal/api/shares.go:88-110 | however downloads interleave, the tables are what a run of whole transactions makes them |
| Shares.CapOverrun | internal/api/shares.go:88-110 | with at most k downloads under way, a share with cap m never counts more than m + k - 1 and a one-time share never more than k |
| Shares.CapOverrunFromStart | internal/store/shares.go:106-134 | the same from the empty store, so serial downloads never exceed the cap |
| Overruns.OverrunHappens | internal/api/shares.go:88-110 | k downloads of a serving share resolved together are all counted, whatever its cap and flag |
| Overruns.CapIsOverrun | internal/api/shares.go:88-110 | for every cap m and every k, a run from the empty store with at most k downloads under way that counts m + k - 1 |
| Overruns.OneTimeIsOverrun | internal/store/shares.go:106-134 | for every k, such a run that counts a one-time share k times, with or without a cap |
| BlobBytes.BytesUpsert | internal/store/misc.go:53-56 | a new hash adds its size to the stored bytes, a known one adds nothing |
| BlobBytes.BytesRecount | internal/store/misc.go:53-56 | deletes never increase the stored bytes |
| Quota.RunDoesWhatItSays | internal/uploads/uploads.go:97-116 | over every run an upload is in flight exactly from its admission until it is finished or given up, and the tables are what the finished uploads and the other transactions make them |
| Quota.EventKeepsWithin | internal/uploads/uploads.go:97-116 | each admission, finish, abort or other transaction keeps stored bytes plus outstanding commitments within the bound |
| Quota.MixedUploadsBound | internal/api/files.go:303-315 | with quota M, file limit F and at most k uploads in flight, every interleaving in which no admission sum wraps keeps stored bytes at most M - 1 + k F |
| Quota.TusUploadsBound | internal/uploads/uploads.go:97-116 | with resumable uploads only, and sums that do not wrap, at most M + (k - 1) min(F, M), where no limit counts as M, so one at a time never passes M |
| Quota.RepresentableAddsUp | internal/uploads/uploads.go:97-116 | while quota plus k + 1 largest files fits an int64, no admission sum of any run wraps |
| Quota.WrappedSumIsAdmitted | internal/uploads/uploads.go:105-113 | a declared size is admitted exactly when the sum stays within the quota or wraps |
| QuotaRuns.AllStored | internal/uploads/uploads.go:97-116 | contents stored in turn, then others admitted together: a run from the empty store that ends with all of them stored |
| QuotaRuns.MixedBoundIsMet | internal/api/files.go:303-315 | for every quota M, file limit F and k, a run from the empty store that reaches M - 1 + k F, given that many different contents |
| QuotaRuns.TusBoundIsMet | internal/uploads/uploads.go:97-116 | the same with resumable uploads only and M + (k - 1) min(F, M) |
| QuotaRuns.OneByteBoundIsMetIff | internal/api/files.go:303-315 | for files of one byte some run meets the mixed bound if and only if there are enough different bytes |
| Login.Manager.AllowAttempt | internal/auth/auth.go:242-256 | lets an attempt through exactly when the bucket is missing, over or not full, and counts it |
| Login.Manager.ResetAttempts | internal/auth/auth.go:258-262 | that address has no bucket any more |
| Login.Manager.Login | internal/auth/auth.go:127-150 | limited, refused or issued exactly as limiter and password say; success issues a session of 30 days from the moment it is stored and clears the bucket |
| Login.Manager.Logout | internal/auth/auth.go:153-157 | that session goes, nothing else |
| Login.Manager.ValidSession | internal/auth/auth.go:165-180 | true exactly for a stored, unexpired token; an expired one is dropped |
| Login.Manager.Gc | internal/auth/auth.go:264-282 | drops exactly the sessions expired and the buckets closed at the time it was given |
| Login.GcChangesNoAnswer | internal/auth/auth.go:264-282 | garbage collection at any points of any run, acting with clock readings as old as it likes, changes no answer of the limiter or the session check; only the other events need a monotone clock |
| Login.SessionsAreExact | internal/auth/auth.go:127-180 | after any such run a token is valid exactly when it was issued, not logged out since, and is not past its lifetime |
| Login.AttemptsPerWindow | internal/auth/auth.go:242-256 | in any such run with no successful login, every closed 15-minute interval has at most 19 allowed attempts from one address |
| Login.RefusedAfterTen | internal/auth/auth.go:242-256 | in any such run an attempt is refused only when ten from that address were let through in the 15 minutes before it |
| Login.ResetGivesTenMore | internal/auth/auth.go:258-262 | after a successful login ten attempts are let through, whatever came before |
| Login.NineteenGetThrough | internal/auth/auth.go:242-256 | a run in which 19 attempts are allowed within one interval |
| Like.FoldsTogetherIff | internal/store/files.go:253-256 | two characters match exactly when they are equal or the two cases of one ASCII letter |
| Like.EscapedPrefix | internal/store/files.go:317-320 | an escaped text followed by % matches exactly the texts that start with it, case folded |
| Like.SearchFindsSubstrings | internal/store/files.go:253-256 | %, the escaped text, % matches exactly the texts that contain it, ASCII case folded, for all texts including those full of %, _ and backslashes |
| Ulid.ShiftStep | internal/store/id.go:37-42 | one shift of the (hi, lo) pair takes off the low base-32 digit and leaves the quotient by 32 |
| Ulid.EncodeULID | internal/store/id.go:32-44 | the loop writes exactly the 26 base-32 digits of hi * 2^64 + lo |
| Base32.DigitsDecode | internal/store/id.go:32-44 | the digits read back as the number |
| Base32.OrderIsNumeric | internal/store/id.go:32-44 | texts of one length compare byte by byte as their numbers compare |
| Base32.DecodeInjective | internal/store/id.go:32-44 | texts of one length that stand for the same number are equal |
| Ulid.EncodedDecodes | internal/store/id.go:32-44 | every identifier decodes to its 128-bit number and starts with at most '7' |
| Ulid.OnlyCrockford | internal/store/id.go:32-44 | 26 characters, digits and capitals without I, L, O and U |
| Ulid.EncodingKeepsOrder | internal/store/id.go:32-44 | different bytes give different identifiers, in the order of their numbers |
| Ulid.TimestampKeeps48Bits | internal/store/id.go:18-24 | the six timestamp bytes are the milliseconds modulo 2^48 |
| Ulid.NewID | internal/store/id.go:16-30 | the clock followed by ten random bytes, encoded |
| Ulid.OlderSortsFirst | internal/store/id.go:16-30 | below 2^48 a smaller millisecond gives a smaller identifier whatever the random bits |
| PercentEncoding.EscapedIff | internal/api/files.go:363-377 | a byte stands for itself exactly when it is an ASCII letter, a digit, or one of - . _ ~; any other becomes % and two capital hexadecimal digits |
| PercentEncoding.UrlEncode | internal/api/files.go:363-377 | the output decodes to the input and holds only unreserved characters and upper-case escapes |
| PercentEncoding.DecodeOfEncode | internal/api/files.go:363-377 | percent-decoding inverts the encoder on every byte string, and the encoder's output is canonical |
| PercentEncoding.EncodeOfDecode | internal/api/files.go:363-377 | every canonical text is the encoding of what it decodes to |
| Decimal.Itoa64 | internal/api/scratch.go:70-82 | writes the decimal digits of a positive number backwards into its 20 bytes, never outrunning them |
| Decimal.ParseUnix | internal/api/scratch.go:59-68 | reads the leading digits with 64-bit wrap-around |
| Decimal.TimestampRoundTrip | internal/api/scratch.go:59-82 | writing and reading back gives the same 64-bit number if and only if it is not negative |
| Paging.ListingIsUnique | internal/store/files.go:259-280 | column then id is a total order, so a filtered listing has exactly one form |
| Paging.WalkIsWhatWasAskedFor | internal/store/files.go:236-300 | the pages hold exactly the live files of the kind asked for whose name contains the search text, rising in the column named, or falling when descending, and by identifier in the same direction where it is equal |
| Paging.OddCursorStartsOver | internal/store/files.go:240-245 | a cursor that is not a number starts from the beginning |
| Paging.PageIsAStretch | internal/store/files.go:237-300 | a page is the next stretch of that listing, as long as asked for between 1 and 200 rows, else 50, or up to its end; the total is the length of the listing and the cursor is where the page ends |
| Paging.WalkSeesEverythingOnce | internal/store/files.go:236-300 | following the cursor from the start terminates and joins to exactly the filtered listing, each row once, for every filter, sort, direction and limit |
| Fingerprint.BuildSignature | internal/fsbrowse/fsbrowse.go:461-471 | the builder loop computes the signature of the listing |
| Fingerprint.SignatureIsInjective | internal/fsbrowse/fsbrowse.go:461-471 | two listings with NUL-free names have equal signatures exactly when they are equal, newlines in names included |
| Fingerprint.Watcher.Tick | internal/app/watch.go:22-44 | a tick reports a change exactly when a root listing it reads differs from the last one recorded (empty at first or after an error) |
| Paths.CleanAbs | internal/safepath/safepath.go:184-191 | a clean absolute path is its list of names, and cleaning leaves it alone |
| Paths.StringPrefixIsSegmentPrefix | internal/safepath/safepath.go:184-191 | comparing strings behind a separator compares lists of names |
| SafePath.WithinIsSegmentPrefix | internal/safepath/safepath.go:184-191 | for a base other than the root, WithinBase holds exactly when the base's names are a prefix of the target's |
| SafePath.LocalIsStaysBelow | internal/safepath/safepath.go:166-171 | a relative path is local exactly when its walk never climbs above its start |
| SafePath.ResolveInsideExactly | internal/safepath/safepath.go:160-180 | for a base other than the root, succeeds exactly on local paths with the names appended (the last prefix test never rejects); for the root, only on local paths that name nothing |
| Browsing.ResolveExactly | internal/fsbrowse/fsbrowse.go:87-117 | what resolve answers for every input, by names: refused for dot-dot, metadata or outside targets, else the root followed by the names |
| Browsing.ResolveStaysInside | internal/fsbrowse/fsbrowse.go:87-117 | every resolved path is the root or below it with a first name other than the metadata directory |
| Browsing.List | internal/fsbrowse/fsbrowse.go:128-180 | refused exactly when the directory does not resolve, not found or failed exactly as reading it goes; else its own path, its parent, and the entries that are readable, not hidden and not links out of the root, each once, in order, with their paths |
| Browsing.ShownIffListed | internal/fsbrowse/fsbrowse.go:147-180 | a name is shown if and only if a directory entry has it that is readable, does not begin with ".myshare", and is no link out of the root |
| Browsing.ListingLeadsBackIff | internal/fsbrowse/fsbrowse.go:141-180 | every entry of a listing has a path that resolves back to it if and only if its name has no backslash and its real path is not outside the root |
| Browsing.ListingLeadsBack | internal/fsbrowse/fsbrowse.go:141-180 | where the root is its own real path, if and only if the name has no backslash |
| Browsing.LinkedRootRefusesFiles | internal/fsbrowse/fsbrowse.go:110-115 | where the root is a symbolic link, its listing shows files whose paths are refused |
| Browsing.ServedThroughALink | internal/fsbrowse/fsbrowse.go:110-115 | a file in /srv, where /srv is a link to /data, is one |
| Browsing.EntryResolvesBackIff | internal/fsbrowse/fsbrowse.go:141-180 | a listed entry whose real path is inside the root resolves back if and only if its name has no backslash |
| Browsing.ParentUndoesJoin | internal/fsbrowse/fsbrowse.go:418-434 | the parent of a joined path is the directory it was joined to |
| Portable.PortableIffSafe | internal/safepath/safepath.go:26-43 | what the guarantees exclude, character by character: the nine forbidden ones, controls, and the fifteen invisible ones |
| Portable.SanitizedIsPortable | internal/safepath/safepath.go:60-127 | every result is such a name, of at most 255 bytes, not empty, with no space or dot at its ends |
| Portable.PortableIsKept | internal/safepath/safepath.go:67-127 | and such a name, normal, unreserved and without white space at its ends, is kept as it is |
| Portable.DeviceGetsUnderscore | internal/safepath/safepath.go:110-118 | a device name comes out behind an underscore where that fits |
| Portable.ReplacedInPlace | internal/safepath/safepath.go:79-94 | each forbidden character becomes an underscore where it stands, every other stays |
| Portable.DroppedVanishes | internal/safepath/safepath.go:79-101 | a control or invisible character leaves nothing behind |
| Portable.OnlyTheLastComponent | internal/safepath/safepath.go:69-72 | what stands before the last separator of either kind makes no difference |
| Portable.NothingLeftIsFile | internal/safepath/safepath.go:103-108 | a name of spaces, dots, controls and invisible characters comes out as "file" |
| Portable.ClampKeepsTheMost | internal/safepath/safepath.go:132-155 | an extension of at most 16 bytes is kept, with as much of the stem as fits into 255 bytes beside it; with a longer one as much of the name as fits |
| Portable.ReservedIffDevice | internal/safepath/safepath.go:45-56 | a name is reserved exactly when what comes before its first dot is one of the 22 device names in any case |
| Filename.LongestFitIsLongest | internal/safepath/safepath.go:132-155 | every longer prefix of whole characters would pass the budget |
| Filename.CutToFit | internal/safepath/safepath.go:143-154 | stepping back over continuation bytes finds the longest prefix of whole characters within the budget |
| Filename.ClampBytesKeepingExt | internal/safepath/safepath.go:132-155 | on bytes, keeps the longest fitting stem next to the extension, which is given up when too long |
| Filename.SanitizeFilename | internal/safepath/safepath.go:67-127 | the loop and branches compute the sanitised name |
| Filename.SanitizedIsSafe | internal/safepath/safepath.go:67-127 | on every input: not empty, at most 255 bytes, no separator, colon, control or invisible character, no space or dot at either end |
| Filename.ReservedIff | internal/safepath/safepath.go:110-126 | for every cleaned name the result is a device name exactly when the name is not one before the clamp and the last trim and is one after them; without a clamp only the trim counts |
| Filename.SanitizedReservedIff | internal/safepath/safepath.go:67-127 | the same of every input |
| Filename.CutReservedIff | internal/safepath/safepath.go:110-126 | with no space or dot at its ends, exactly when clamping cuts an unreserved name without a kept extension down to a device name |
| Filename.TwoWaysToADevice | internal/safepath/safepath.go:103-126 | for every cleaned name, a device name comes out exactly when a leading space or dot hid it, or what the clamp keeps is a device name, a space, and only spaces and dots |
| Filename.AsciiNames | internal/safepath/safepath.go:67-127 | for ASCII names the result is ASCII, never reserved when no clamping is needed, and a fixed point exactly when not reserved |
| Filename.ClampExposesDevice | internal/safepath/safepath.go:110-126 | "con", 252 or more spaces, "x" comes out as "con" |
| Filename.HiddenDotExposesDevice | internal/safepath/safepath.go:103-126 | visible white space other than a blank, a dot and a device name come out as the device name |
| Filename.NoBreakSpaceDotCon | internal/safepath/safepath.go:103-126 | a no-break space and ".con" come out as "con" |
| Filename.TrailingDotExposesDevice | internal/safepath/safepath.go:103-126 | a device name, a space, dots and visible white space come out as the device name |
| Filename.ConSpaceDot | internal/safepath/safepath.go:103-126 | "con ." and a no-break space come out as "con" |
| NormalForm.SanitizedNormalIff | internal/safepath/safepath.go:67-127 | a result is NFC-normal exactly when what the clamp keeps is, and for a name the clamp leaves alone exactly when dropping and replacing characters left it normal |
| NormalForm.NothingDroppedIsNormal | internal/safepath/safepath.go:74-101 | a name with no control or invisible character comes out normal |
| NormalForm.DroppedInside | internal/safepath/safepath.go:74-101 | a dropped character between two that compose: the result is not normal, and the next pass composes them |
| NormalForm.ZeroWidthSpaceInside | internal/safepath/safepath.go:74-101 | "e", U+200B and U+0301 come out as "e" and U+0301, which is safe, unreserved and without white space, and the next pass gives U+00E9 |
| NormalForm.IdempotentIff | internal/safepath/safepath.go:67-127 | any safe name is unchanged by sanitising exactly when it is normal, not reserved, and has no white space at either end |
| NormalForm.SanitizedTwiceIff | internal/safepath/safepath.go:67-127 | so is every result, by sanitising again |
| Names.NumberBeforeExtension | internal/api/files.go:186-190 | the number goes between the name and its last dot, as "-2" in archives and as " (2)" in folders |
| Names.CandidatesDiffer | internal/api/files.go:181-196 | numbered candidates of one name are pairwise distinct and never the name itself |
| Names.NameTable.UniqueName | internal/api/files.go:181-196 | terminates with a name not handed out before: the name itself when free, else the first free candidate above the count kept for it |
| Names.EntryNames | internal/api/files.go:128-179 | over any list of names the archive's entries are pairwise distinct, each its name where that is free and else a numbered form of it |
| Names.SearchEndsIff | internal/fsbrowse/fsbrowse.go:405-416 | the loop ends if and only if the name or a numbered form up to one past the number of entries is absent and within the length limit |
| Names.LongNameNeverEnds | internal/fsbrowse/fsbrowse.go:405-416 | a taken name with no room for four more bytes keeps the loop going for any number of turns |
| Names.TwoHundredFiftyFive | internal/fsbrowse/fsbrowse.go:405-416 | a taken name of 255 bytes under a limit of 255 is such a name |
| Names.ShortNameEnds | internal/fsbrowse/fsbrowse.go:405-416 | the loop ends whenever the longest number it could need still fits |
| Names.UniquePath | internal/fsbrowse/fsbrowse.go:405-416 | where the loop ends, the name itself when free, else the smallest free numbered one |
| Sse.Hub.Connect | internal/sse/sse.go:122-134 | a new client with an empty queue under a new id, the others untouched |
| Sse.Hub.Disconnect | internal/sse/sse.go:130-134 | that client goes, nobody else changes |
| Sse.Hub.Drain | internal/sse/sse.go:150-171 | takes the oldest queued item and loses nothing |
| Sse.Hub.BroadcastExcept | internal/sse/sse.go:83-103 | in any client order, a client of the originator's origin is left as it was; every other has the event queued where its queue has fewer than 64 items, and is left as it was, but for being marked full, where it has not |
| Sse.UninterruptedBroadcast | internal/sse/sse.go:66-103 | a broadcast in the interleaved machine that is left alone ends where the hub's loop ends |
| Sse.MoveKeepsGood | internal/sse/sse.go:64-103 | each step of interleaved broadcasts, connects, drains and disconnects keeps queues bounded, streams orderly and nothing missing but what is still to come |
| Sse.EveryStreamIsOrderly | internal/sse/sse.go:64-103 | in every reachable state a queue has at most 64 items and a stream has each event at most once, none from before connecting, only events with no origin or another than its own, and each broadcaster's in order |
| Sse.NeverFullMissesNothing | internal/sse/sse.go:64-103 | between broadcasts, a client whose queue was never found full has been sent exactly the events since it connected that have no origin or another than its own |
| Sse.ClientsAndBroadcasts | internal/sse/sse.go:109-134 | over every run the broadcasts are those begun, with their origins, and a client is connected exactly from its connecting to its disconnecting, under the origin it gave |
| Sse.NeverBlocks | internal/sse/sse.go:64-79 | a broadcast in progress always has a step of its own to take |
| Sse.ResyncSentIff | internal/sse/sse.go:66-79 | over every run, a client has been sent a resync if and only if some retry found room in its queue |
| Sse.ResyncNeedsADrainInBetween | internal/sse/sse.go:66-79 | a client that has been sent one took something from its own queue while a broadcast owed it a retry |
| Sse.MissedAndNeverTold | internal/sse/sse.go:64-79 | for every number of broadcasts past 64, a run in which a connected client misses all but the first 64 and is sent no resync |

## Left out

- Identifiers, tokens, random bytes and the clock are parameters; a handler that creates a row is given an id not in use, and a share a token not issued before.
- SHA-256 is an injective constructor, so the test that a hash is 64 hexadecimal digits, the fan-out path it guards and the pruning of empty fan-out directories are not modelled.
- BlobStores.BlobStore.Adopt: failing I/O, copying across devices and fsync are not modelled.
- BlobStores.BlobStore.WriteFrom: a write, sync or close that fails is not modelled.
- A request that is cancelled or a process that stops between two steps is a move of its own in `DiskRaces`; handlers otherwise run to completion.
- Quota.MixedUploadsBound: no statistics query fails in a run, because one that fails lets an upload through unchecked.
- Server.Service.PreCreate: an overflow of the database's own SUM is not modelled; it would need 2^63 bytes stored.
- Shares.CapOverrun: a request that dies before it records is an event of its own (`Abandon`), because the code records with the request's context.
- SQLite is a value of tables with atomic transactions; rows without ORDER BY come in an arbitrary order. LIKE on text with NUL characters and full-text tokenising, ranking and query building (`Search`, `ftsQuery`) are left out.
- Database.DB.CreateText: clipboard items, snippets and notes share one row shape keyed by kind and id, because the three files differ only in column names and default tags.
- Server.Service.FinalizeUpload: the upload was admitted, so it has its declared length within the file limit; directory mode, which moves the upload into the served folder without hashing, is left out, and so are the rows of upload sessions and the notices sent.
- Server.Service.UploadDirect: the name comes sanitised and the type guessed, so the name made up for a screenshot without one and the guessing are left out, and so is a body without a file field.
- Listing of clipboard items, snippets, notes and shares, settings rows and the other statistics would only add easy members.
- Sse.Hub.Connect: heartbeats, shutdown and JSON encoding errors of a client's own loop are not modelled; taking an item counts as delivering it.
- Filename.SanitizeFilename: Unicode NFC is an arbitrary function parameter, lower-casing covers ASCII only, which is all the device names need, and a name is a sequence of code points, so bytes that are not valid UTF-8 are not modelled.
- NormalForm.SanitizedNormalIff: of NFC it uses what UAX #15 says of it, as the premise `Normaliser`: a result is normal, parts of normal text are normal, texts joined by an underscore, a dot or normal white space stay normal, ASCII is normal, and no control or invisible character arises.
- Browsing.ResolveExactly: symbolic links are a parameter giving the evaluated target, and separators are those of Unix.
- Browsing.List: what reading the directory gives is a parameter; the sort that puts directories first, sizes, times and media types are not modelled, nor are saving, renaming, deleting and walking directories.
- Names.UniquePath: the limit on names is a parameter; an Lstat that fails for any other reason, and another process creating the name in between, are not modelled.
- Fingerprint.Watcher.Tick: the served root only, which is the one directory the watcher ever knows.
- Login.Manager.Login: argon2 verification is a parameter (an error, wrong, or right), and drawing the random token does not fail. The method runs its three sections under the mutex one after another with nothing in between; the run model takes them as separate events.
- Paging.WalkSeesEverythingOnce: the file table is unchanged between pages, and has fewer than 2^63 rows as COUNT promises.
- The wire protocol of resumable uploads, upload-session rows, configuration, HTTP routing and headers, TLS, the command line, LAN discovery and the web frontend are not part of this model.
