// Public links: when a token is served, why a refusal is final, and how far
// concurrent downloads can run past a cap.
module Shares {
  import opened Common
  import opened Schema
  import opened Invariants

  // The checks of ResolveShareToken on one share row.
  predicate Serves(t: Tables, s: Id, now: int) {
    && s in t.shares
    && t.shares[s].revokedAt.None?
    && (t.shares[s].expiresAt.Some? ==> now < t.shares[s].expiresAt.value)
    && (t.shares[s].maxDownloads.Some? ==> t.shares[s].downloads < t.shares[s].maxDownloads.value)
    && IsLive(t.files, t.shares[s].fileId)
  }

  predicate Refused(t: Tables, tokenHash: string, now: int) {
    forall s | s in t.shares && t.shares[s].tokenHash == tokenHash :: !Serves(t, s, now)
  }

  function Dead(t: Tables, now: int): set<Id> {
    set s | s in t.shares &&
      (t.shares[s].revokedAt.Some? ||
       (t.shares[s].expiresAt.Some? && t.shares[s].expiresAt.value <= now))
  }

  // ---------------------------------------------------------------------------
  // A refusal is final
  // ---------------------------------------------------------------------------

  predicate Issues(x: Txn, tokenHash: string) {
    x.TxCreateShare? && x.tokenHash == tokenHash
  }

  // What can happen to a share row while it exists.
  predicate NoBetter(was: ShareRow, becomes: ShareRow) {
    && becomes.tokenHash == was.tokenHash
    && becomes.fileId == was.fileId
    && becomes.expiresAt == was.expiresAt
    && becomes.maxDownloads == was.maxDownloads
    && becomes.oneTime == was.oneTime
    && becomes.downloads >= was.downloads
    && (was.revokedAt.Some? ==> becomes.revokedAt.Some?)
  }

  lemma ShareRowsOnlyWorsen(t: Tables, x: Txn, at: int, s: Id)
    requires s in Step(t, x, at).shares
    ensures s in t.shares ==> NoBetter(t.shares[s], Step(t, x, at).shares[s])
    ensures s !in t.shares ==> x.TxCreateShare? && x.tokenHash == Step(t, x, at).shares[s].tokenHash
  {
    if OnFiles(x) {
      FileTxnsOnlyRevoke(t, x, at, s);
    } else if OnShares(x) {
      ShareTxnsOnlyWorsen(t, x, at, s);
    } else {
      assert Step(t, x, at).shares == t.shares;
    }
  }

  lemma FileTxnsOnlyRevoke(t: Tables, x: Txn, at: int, s: Id)
    requires OnFiles(x) && s in Step(t, x, at).shares
    ensures s in t.shares && NoBetter(t.shares[s], Step(t, x, at).shares[s])
  {
  }

  lemma ShareTxnsOnlyWorsen(t: Tables, x: Txn, at: int, s: Id)
    requires OnShares(x) && s in Step(t, x, at).shares
    ensures s in t.shares ==> NoBetter(t.shares[s], Step(t, x, at).shares[s])
    ensures s !in t.shares ==> x.TxCreateShare? && x.tokenHash == Step(t, x, at).shares[s].tokenHash
  {
    var after := Step(t, x, at).shares;
    if x.TxCreateShare? {
      assert after == t.shares || (x.id !in t.shares && after == t.shares[x.id := after[x.id]]);
    } else if x.TxDeleteShare? {
      assert after == t.shares - {x.id};
    } else {
      assert x.id in t.shares ==> NoBetter(t.shares[x.id], after[x.id]);
      assert after == t.shares || after == t.shares[x.id := after[x.id]];
    }
  }

  // No transaction but the creation of a share with that very token makes a
  // refused token serve again, at that time or later.
  lemma StepKeepsRefusal(t: Tables, x: Txn, at: int, tokenHash: string, now: int, later: int)
    requires Inv(t) && Refused(t, tokenHash, now) && now <= later
    requires !Issues(x, tokenHash)
    ensures Refused(Step(t, x, at), tokenHash, later)
  {
    var t' := Step(t, x, at);
    forall s | s in t'.shares && t'.shares[s].tokenHash == tokenHash
      ensures !Serves(t', s, later)
    {
      ShareRowsOnlyWorsen(t, x, at, s);
      OneRefusalStays(t, t', x, at, s, now, later);
    }
  }

  lemma OneRefusalStays(t: Tables, t': Tables, x: Txn, at: int, s: Id, now: int, later: int)
    requires SharesSound(t) && t' == Step(t, x, at) && now <= later
    requires s in t.shares && s in t'.shares && NoBetter(t.shares[s], t'.shares[s])
    requires !Serves(t, s, now)
    ensures !Serves(t', s, later)
  {
    var f := t.shares[s].fileId;
    if !IsLive(t.files, f) {
      FilesStayDeleted(t, x, at, f);
    }
  }

  lemma FilesStayDeleted(t: Tables, x: Txn, at: int, f: Id)
    requires f in t.files && !IsLive(t.files, f)
    ensures !IsLive(Step(t, x, at).files, f)
  {
  }

  lemma {:induction false} RefusedForever(t: Tables, xs: seq<Timed>, tokenHash: string, now: int, later: int)
    requires Inv(t) && Refused(t, tokenHash, now) && now <= later
    requires forall i | 0 <= i < |xs| :: !Issues(xs[i].txn, tokenHash)
    ensures Inv(Run(t, xs)) && Refused(Run(t, xs), tokenHash, later)
  {
    if xs == [] {
      forall s | s in t.shares && t.shares[s].tokenHash == tokenHash
        ensures !Serves(t, s, later)
      {
        assert !Serves(t, s, now);
      }
    } else {
      var last := xs[|xs|-1];
      RefusedForever(t, xs[..|xs|-1], tokenHash, now, later);
      StepKeepsInv(Run(t, xs[..|xs|-1]), last.txn, last.now);
      StepKeepsRefusal(Run(t, xs[..|xs|-1]), last.txn, last.now, tokenHash, later, later);
    }
  }

  // ---------------------------------------------------------------------------
  // What takes a link down
  // ---------------------------------------------------------------------------

  // In terms of the rows: its file goes, it is revoked or removed, or a
  // download uses it up.
  predicate TakesDown(t: Tables, x: Txn, s: Id)
    requires s in t.shares && t.shares[s].fileId in t.files
  {
    var row := t.shares[s];
    match x
    case TxDeleteFile(id) => id == row.fileId
    case TxDeleteAllFiles(kind) => kind == "" || kind == t.files[row.fileId].kind
    case TxRevokeShare(id) => id == s
    case TxDeleteShare(id) => id == s
    case TxRecordDownload(id) =>
      id == s && (row.oneTime || (row.maxDownloads.Some? && row.downloads + 1 >= row.maxDownloads.value))
    case _ => false
  }

  // A share that serves goes on serving unless the transaction takes it down.
  lemma StopsServingIff(t: Tables, x: Txn, at: int, s: Id, now: int)
    requires Serves(t, s, now)
    ensures !Serves(Step(t, x, at), s, now) <==> TakesDown(t, x, s)
  {
    if OnFiles(x) {
      FileTxnsTakeDown(t, x, at, s, now);
    } else if OnShares(x) {
      ShareTxnsTakeDown(t, x, at, s, now);
    } else {
      assert Step(t, x, at).shares == t.shares && Step(t, x, at).files == t.files;
    }
  }

  lemma FileTxnsTakeDown(t: Tables, x: Txn, at: int, s: Id, now: int)
    requires Serves(t, s, now) && OnFiles(x)
    ensures !Serves(Step(t, x, at), s, now) <==> TakesDown(t, x, s)
  {
  }

  lemma ShareTxnsTakeDown(t: Tables, x: Txn, at: int, s: Id, now: int)
    requires Serves(t, s, now) && OnShares(x)
    ensures !Serves(Step(t, x, at), s, now) <==> TakesDown(t, x, s)
  {
    if !(x.TxRecordDownload? && x.id == s) && x.id != s {
      assert s in Step(t, x, at).shares ==> Step(t, x, at).shares[s] == t.shares[s];
    }
  }

  // The downloads of one share recorded at these times, one after another.
  function Gets(s: Id, times: seq<int>): seq<Timed> {
    seq(|times|, i requires 0 <= i < |times| => Timed(TxRecordDownload(s), times[i]))
  }

  // Columns of the share after n downloads.
  ghost predicate AfterGets(t: Tables, u: Tables, s: Id, n: nat)
    requires s in t.shares
  {
    && s in u.shares && u.files == t.files
    && var was, row := t.shares[s], u.shares[s];
       && row == was.(downloads := was.downloads + n, revokedAt := row.revokedAt)
       && (row.revokedAt.None? <==>
             was.revokedAt.None? &&
             (n > 0 ==> !was.oneTime && (was.maxDownloads.Some? ==> was.downloads + n < was.maxDownloads.value)))
  }

  lemma {:induction false} GetsCount(t: Tables, s: Id, times: seq<int>)
    requires s in t.shares
    ensures AfterGets(t, Run(t, Gets(s, times)), s, |times|)
  {
    if times != [] {
      var front := times[..|times|-1];
      GetsCount(t, s, front);
      var gets := Gets(s, times);
      assert gets[..|gets|-1] == Gets(s, front);
      OneMoreGet(t, Run(t, Gets(s, front)), s, |front|, times[|times|-1]);
    }
  }

  lemma OneMoreGet(t: Tables, u: Tables, s: Id, n: nat, at: int)
    requires s in t.shares && AfterGets(t, u, s, n)
    ensures AfterGets(t, Step(u, TxRecordDownload(s), at), s, n + 1)
  {
  }

  // Of a share that serves, taken one download at a time: a one-time share
  // serves once, one with a cap as often as the cap leaves, and any other for
  // ever, each until it expires.
  lemma {:induction false} ServesAfterGets(t: Tables, s: Id, times: seq<int>, start: int, now: int)
    requires Serves(t, s, start)
    ensures Serves(Run(t, Gets(s, times)), s, now) <==>
            var row := t.shares[s];
            && (row.expiresAt.Some? ==> now < row.expiresAt.value)
            && (row.oneTime ==> times == [])
            && (row.maxDownloads.Some? ==> |times| < row.maxDownloads.value - row.downloads)
  {
    GetsCount(t, s, times);
  }

  // ---------------------------------------------------------------------------
  // Downloads in flight
  // ---------------------------------------------------------------------------

  // A GET of a public link resolves its share, streams the bytes, and records
  // the download last; any number of requests may be between the two.
  datatype Traffic = Traffic(t: Tables, inFlight: map<nat, Id>)

  datatype Event =
    | Resolve(req: nat, share: Id)
    | Record(req: nat)
    | Abandon(req: nat)  // the request died before it recorded anything
    | Other(txn: Txn)

  datatype At = At(event: Event, now: int)

  function InFlightOf(d: Traffic, s: Id): set<nat> {
    set r | r in d.inFlight && d.inFlight[r] == s
  }

  // None when the event cannot happen in this state.
  function Next(d: Traffic, e: Event, now: int): Option<Traffic> {
    match e
    case Resolve(req, s) =>
      if req in d.inFlight || !Serves(d.t, s, now) then None
      else Some(d.(inFlight := d.inFlight[req := s]))
    case Record(req) =>
      if req !in d.inFlight then None
      else Some(Traffic(RecordDownload(d.t, d.inFlight[req], now), d.inFlight - {req}))
    case Abandon(req) =>
      if req !in d.inFlight then None else Some(d.(inFlight := d.inFlight - {req}))
    case Other(x) =>
      if x.TxRecordDownload? then None else Some(d.(t := Step(d.t, x, now)))
  }

  // createShare passes a cap on only when it is positive.
  predicate CapsArePositive(e: Event) {
    e.Other? && e.txn.TxCreateShare? && e.txn.maxDownloads.Some? ==> e.txn.maxDownloads.value >= 1
  }

  // The run is possible and never has more than k downloads of s in flight.
  ghost predicate Possible(d: Traffic, es: seq<At>, s: Id, k: nat)
    decreases |es|
  {
    && |InFlightOf(d, s)| <= k
    && (es != [] ==>
          && CapsArePositive(es[0].event)
          && Next(d, es[0].event, es[0].now).Some?
          && Possible(Next(d, es[0].event, es[0].now).value, es[1..], s, k))
  }

  ghost function After(d: Traffic, es: seq<At>, s: Id, k: nat): Traffic
    requires Possible(d, es, s, k)
    decreases |es|
  {
    if es == [] then d else After(Next(d, es[0].event, es[0].now).value, es[1..], s, k)
  }

  // Resolved, and neither recorded nor abandoned since.
  predicate StillInFlight(was: Option<Id>, e: Event, req: nat, becomes: Option<Id>) {
    match e
    case Resolve(r, s) => becomes == if r == req then Some(s) else was
    case Record(r) => becomes == if r == req then None else was
    case Abandon(r) => becomes == if r == req then None else was
    case Other(_) => becomes == was
  }

  function ShareOf(d: Traffic, req: nat): Option<Id> {
    if req in d.inFlight then Some(d.inFlight[req]) else None
  }

  // A download is recorded once, when its request gets to it; the other
  // transactions are made as they come.
  function TxnOf(d: Traffic, e: At): seq<Timed> {
    match e.event
    case Record(r) => if r in d.inFlight then [Timed(TxRecordDownload(d.inFlight[r]), e.now)] else []
    case Other(x) => [Timed(x, e.now)]
    case _ => []
  }

  lemma EventDoesWhatItSays(d: Traffic, e: At, req: nat)
    requires Next(d, e.event, e.now).Some?
    ensures var d' := Next(d, e.event, e.now).value;
            && StillInFlight(ShareOf(d, req), e.event, req, ShareOf(d', req))
            && d'.t == Run(d.t, TxnOf(d, e))
  {
    if TxnOf(d, e) != [] {
      OneTxn(d.t, TxnOf(d, e)[0]);
    }
  }

  ghost function TxnsOf(d: Traffic, es: seq<At>, s: Id, k: nat): seq<Timed>
    requires Possible(d, es, s, k)
    decreases |es|
  {
    if es == [] then []
    else TxnOf(d, es[0]) + TxnsOf(Next(d, es[0].event, es[0].now).value, es[1..], s, k)
  }

  // However downloads interleave, the tables are a run of whole transactions.
  lemma {:induction false} TrafficIsARun(d: Traffic, es: seq<At>, s: Id, k: nat)
    requires Possible(d, es, s, k)
    ensures After(d, es, s, k).t == Run(d.t, TxnsOf(d, es, s, k))
    decreases |es|
  {
    if es != [] {
      var d' := Next(d, es[0].event, es[0].now).value;
      EventDoesWhatItSays(d, es[0], 0);
      TrafficIsARun(d', es[1..], s, k);
      RunConcat(d.t, TxnOf(d, es[0]), TxnsOf(d', es[1..], s, k));
    }
  }

  // Each download in flight has been promised one unit of the count.
  ghost predicate Promised(d: Traffic, s: Id, k: nat) {
    s in d.t.shares ==>
      var row := d.t.shares[s];
      && row.downloads >= 0
      && (row.maxDownloads.Some? ==>
            row.maxDownloads.value >= 1 &&
            row.downloads + |InFlightOf(d, s)| <= row.maxDownloads.value - 1 + k)
      && (row.oneTime ==>
            (row.downloads > 0 ==> row.revokedAt.Some?) &&
            row.downloads + |InFlightOf(d, s)| <= k)
  }

  lemma EnterFlight(d: Traffic, d': Traffic, req: nat, share: Id, s: Id)
    requires req !in d.inFlight && d'.inFlight == d.inFlight[req := share]
    ensures |InFlightOf(d', s)| == |InFlightOf(d, s)| + (if share == s then 1 else 0)
  {
    if share == s {
      assert InFlightOf(d', s) == InFlightOf(d, s) + {req};
    } else {
      assert InFlightOf(d', s) == InFlightOf(d, s);
    }
  }

  lemma EventKeepsPromise(d: Traffic, e: Event, now: int, s: Id, k: nat)
    requires Promised(d, s, k) && CapsArePositive(e) && Next(d, e, now).Some?
    requires |InFlightOf(Next(d, e, now).value, s)| <= k
    requires |InFlightOf(d, s)| <= k
    ensures Promised(Next(d, e, now).value, s, k)
  {
    var d' := Next(d, e, now).value;
    match e
    case Resolve(req, share) => EnterFlight(d, d', req, share, s);
    case Record(req) => LeaveFlight(d, d', req, s);
    case Abandon(req) => LeaveFlight(d, d', req, s);
    case Other(x) => OtherKeepsPromise(d, x, now, s, k);
  }

  lemma OtherKeepsPromise(d: Traffic, x: Txn, now: int, s: Id, k: nat)
    requires Promised(d, s, k) && CapsArePositive(Other(x)) && !x.TxRecordDownload?
    requires |InFlightOf(d, s)| <= k
    ensures Promised(d.(t := Step(d.t, x, now)), s, k)
  {
    var d' := d.(t := Step(d.t, x, now));
    assert InFlightOf(d', s) == InFlightOf(d, s);
    if s in d'.t.shares {
      if s in d.t.shares {
        OtherTxnsDoNotCount(d.t, x, now, s);
      } else {
        NewShareRow(d.t, x, now, s);
      }
    }
  }

  lemma NewShareRow(t: Tables, x: Txn, now: int, s: Id)
    requires s !in t.shares && s in Step(t, x, now).shares
    ensures x.TxCreateShare?
    ensures var row := Step(t, x, now).shares[s];
            row.downloads == 0 && row.maxDownloads == x.maxDownloads
  {
  }

  lemma LeaveFlight(d: Traffic, d': Traffic, req: nat, s: Id)
    requires req in d.inFlight && d'.inFlight == d.inFlight - {req}
    ensures |InFlightOf(d', s)| == |InFlightOf(d, s)| - (if d.inFlight[req] == s then 1 else 0)
  {
    if d.inFlight[req] == s {
      assert InFlightOf(d', s) == InFlightOf(d, s) - {req};
    } else {
      assert InFlightOf(d', s) == InFlightOf(d, s);
    }
  }

  lemma OtherTxnsDoNotCount(t: Tables, x: Txn, now: int, s: Id)
    requires s in t.shares && s in Step(t, x, now).shares && !x.TxRecordDownload?
    ensures var was, becomes := t.shares[s], Step(t, x, now).shares[s];
            && becomes.downloads == was.downloads && becomes.oneTime == was.oneTime
            && becomes.maxDownloads == was.maxDownloads
            && (was.revokedAt.Some? ==> becomes.revokedAt.Some?)
  {
  }

  // With at most k downloads of a share in flight at any moment, a share with
  // cap m never counts more than m + k - 1, and a one-time share is recorded
  // at most k times.  One at a time, the cap is exact.
  lemma {:induction false} CapOverrun(d: Traffic, es: seq<At>, s: Id, k: nat)
    requires Possible(d, es, s, k) && Promised(d, s, k)
    ensures var d' := After(d, es, s, k);
            s in d'.t.shares ==>
              && (d'.t.shares[s].maxDownloads.Some? ==>
                    d'.t.shares[s].downloads <= d'.t.shares[s].maxDownloads.value + k - 1)
              && (d'.t.shares[s].oneTime ==> d'.t.shares[s].downloads <= k)
    decreases |es|
  {
    if es != [] {
      EventKeepsPromise(d, es[0].event, es[0].now, s, k);
      CapOverrun(Next(d, es[0].event, es[0].now).value, es[1..], s, k);
    }
  }

  lemma CapOverrunFromStart(es: seq<At>, s: Id, k: nat)
    requires Possible(Traffic(EMPTY, map[]), es, s, k)
    ensures var t := After(Traffic(EMPTY, map[]), es, s, k).t;
            s in t.shares ==>
              && (t.shares[s].maxDownloads.Some? ==>
                    t.shares[s].downloads <= t.shares[s].maxDownloads.value + k - 1)
              && (t.shares[s].oneTime ==> t.shares[s].downloads <= k)
  {
    CapOverrun(Traffic(EMPTY, map[]), es, s, k);
  }
}
