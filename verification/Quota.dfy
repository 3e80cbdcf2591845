// The storage quota.  Room is checked when an upload is admitted and taken up
// when it is finished, so uploads admitted side by side can pass the limit
// together; how far is bounded here, over every run.
module Quota {
  import opened Common
  import Decimal
  import opened Schema
  import opened BlobBytes
  import opened MapSum

  // A tus upload declares its length when it is created; a direct upload is
  // only known to be cut off past the file size limit.
  datatype Admitted = Tus(size: nat) | Direct

  datatype State = State(t: Tables, inFlight: map<nat, Admitted>)

  datatype Event =
    | AdmitTus(upload: nat, size: nat)
    | AdmitDirect(upload: nat)
    | Finish(upload: nat, id: Id, bytes: seq<byte>, name: string, kind: string, mime: string)
    | Abort(upload: nat)
    | Unrelated(txn: Txn)

  datatype At = At(event: Event, now: int)

  // MaxStorage and MaxFileSize, where a file size of 0 means no limit.
  datatype Limits = Limits(storage: int, file: int)

  predicate Set(l: Limits) {
    0 < l.storage < Decimal.INT64_LIMIT && 0 <= l.file < Decimal.INT64_LIMIT
  }

  predicate WithinFileLimit(size: nat, l: Limits) {
    l.file > 0 ==> size <= l.file
  }

  // No upload larger than this is ever admitted by its declared length.
  function Largest(l: Limits): int {
    if 0 < l.file < l.storage then l.file else l.storage
  }

  function Start(): State { State(EMPTY, map[]) }

  // None when the event cannot happen in this state.
  ghost function Next(s: State, e: Event, l: Limits, now: int): Option<State> {
    match e
    case AdmitTus(u, size) =>
      if u in s.inFlight || size >= Decimal.INT64_LIMIT || !WithinFileLimit(size, l) ||
         Decimal.Wrap64(Bytes(s.t.blobs) + size) > l.storage then None
      else Some(s.(inFlight := s.inFlight[u := Tus(size)]))
    case AdmitDirect(u) =>
      if u in s.inFlight || Bytes(s.t.blobs) >= l.storage then None
      else Some(s.(inFlight := s.inFlight[u := Direct]))
    case Finish(u, id, bytes, name, kind, mime) =>
      if u !in s.inFlight || !WithinFileLimit(|bytes|, l) ||
         (s.inFlight[u].Tus? && |bytes| != s.inFlight[u].size) then None
      else Some(State(CreateFile(s.t, id, name, kind, mime, |bytes|, Sha256(bytes), now), s.inFlight - {u}))
    case Abort(u) =>
      if u !in s.inFlight then None else Some(s.(inFlight := s.inFlight - {u}))
    case Unrelated(x) =>
      if x.TxCreateFile? then None else Some(s.(t := Step(s.t, x, now)))
  }

  // The run is possible and never has more than k uploads in flight.
  ghost predicate Possible(s: State, es: seq<At>, l: Limits, k: nat)
    decreases |es|
  {
    && |s.inFlight| <= k
    && (es != [] ==>
          && Next(s, es[0].event, l, es[0].now).Some?
          && Possible(Next(s, es[0].event, l, es[0].now).value, es[1..], l, k))
  }

  ghost function After(s: State, es: seq<At>, l: Limits, k: nat): State
    requires Possible(s, es, l, k)
    decreases |es|
  {
    if es == [] then s else After(Next(s, es[0].event, l, es[0].now).value, es[1..], l, k)
  }

  // The sum a tus admission compares is the true one.
  ghost predicate AddsUp(s: State, e: Event) {
    e.AdmitTus? ==> Bytes(s.t.blobs) + e.size < Decimal.INT64_LIMIT
  }

  ghost predicate AlwaysAddsUp(s: State, es: seq<At>, l: Limits, k: nat)
    requires Possible(s, es, l, k)
    decreases |es|
  {
    es != [] ==>
      AddsUp(s, es[0].event) && AlwaysAddsUp(Next(s, es[0].event, l, es[0].now).value, es[1..], l, k)
  }

  // ---------------------------------------------------------------------------
  // What a run has done
  // ---------------------------------------------------------------------------

  // Admitted, and neither finished nor given up since.
  predicate Opens(open: bool, e: Event, u: nat) {
    match e
    case AdmitTus(v, _) => open || v == u
    case AdmitDirect(v) => open || v == u
    case Finish(v, _, _, _, _, _) => open && v != u
    case Abort(v) => open && v != u
    case Unrelated(_) => open
  }

  predicate StillOpen(open: bool, es: seq<At>, u: nat)
    decreases |es|
  {
    if es == [] then open else StillOpen(Opens(open, es[0].event, u), es[1..], u)
  }

  // One transaction for each finished upload, and the unrelated ones.
  function TxnOf(e: At): seq<Timed> {
    match e.event
    case Finish(_, id, bytes, name, kind, mime) =>
      [Timed(TxCreateFile(id, name, kind, mime, |bytes|, Sha256(bytes)), e.now)]
    case Unrelated(x) => [Timed(x, e.now)]
    case _ => []
  }

  function TxnsOf(es: seq<At>): seq<Timed>
    decreases |es|
  {
    if es == [] then [] else TxnOf(es[0]) + TxnsOf(es[1..])
  }

  lemma EventDoesWhatItSays(s: State, e: At, l: Limits, u: nat)
    requires Next(s, e.event, l, e.now).Some?
    ensures var s' := Next(s, e.event, l, e.now).value;
            && (u in s'.inFlight <==> Opens(u in s.inFlight, e.event, u))
            && s'.t == Run(s.t, TxnOf(e))
  {
    if TxnOf(e) != [] {
      OneTxn(s.t, TxnOf(e)[0]);
    }
  }

  // An upload is in flight exactly while it is open, and the tables are what
  // the transactions of the run make them.
  lemma {:induction false} RunDoesWhatItSays(s: State, es: seq<At>, l: Limits, k: nat, u: nat)
    requires Possible(s, es, l, k)
    ensures u in After(s, es, l, k).inFlight <==> StillOpen(u in s.inFlight, es, u)
    ensures After(s, es, l, k).t == Run(s.t, TxnsOf(es))
    decreases |es|
  {
    if es != [] {
      EventDoesWhatItSays(s, es[0], l, u);
      RunDoesWhatItSays(Next(s, es[0].event, l, es[0].now).value, es[1..], l, k, u);
      RunConcat(s.t, TxnOf(es[0]), TxnsOf(es[1..]));
    }
  }

  // ---------------------------------------------------------------------------
  // What a transaction does to BlobBytes
  // ---------------------------------------------------------------------------

  lemma CreateAddsAtMost(t: Tables, id: Id, name: string, kind: string, mime: string, bytes: seq<byte>, now: int)
    requires SizesKnown(t.blobs)
    ensures var t' := CreateFile(t, id, name, kind, mime, |bytes|, Sha256(bytes), now);
            SizesKnown(t'.blobs) && Bytes(t'.blobs) <= Bytes(t.blobs) + |bytes|
  {
    BytesUpsert(t.blobs, Sha256(bytes), |bytes|, now);
  }

  lemma OthersAddNothing(t: Tables, x: Txn, now: int)
    requires SizesKnown(t.blobs) && !x.TxCreateFile?
    ensures SizesKnown(Step(t, x, now).blobs) && Bytes(Step(t, x, now).blobs) <= Bytes(t.blobs)
  {
    if x.TxDeleteFile? {
      BytesRecount(t.blobs, MarkDeleted(t.files, {x.id}, now));
    } else if x.TxDeleteAllFiles? {
      BytesRecount(t.blobs, MarkDeleted(t.files, LiveOfKind(t.files, x.kind), now));
    }
  }

  // ---------------------------------------------------------------------------
  // Every run
  // ---------------------------------------------------------------------------

  // What each upload in flight may still add.
  function Commitments(inFlight: map<nat, Admitted>, l: Limits): map<nat, int> {
    map u | u in inFlight :: if inFlight[u].Tus? then inFlight[u].size else l.file
  }

  function Bound(l: Limits, k: nat, tusOnly: bool): int {
    if tusOnly then l.storage + (k - 1) * Largest(l) else l.storage - 1 + k * l.file
  }

  // The largest single upload: by its declared length, or by the cut-off.
  function Cap(l: Limits, tusOnly: bool): int {
    if tusOnly then Largest(l) else l.file
  }

  ghost predicate Within(s: State, l: Limits, k: nat, tusOnly: bool) {
    && SizesKnown(s.t.blobs)
    && (forall u | u in s.inFlight ::
          if s.inFlight[u].Tus? then s.inFlight[u].size <= Cap(l, tusOnly) else !tusOnly)
    && Bytes(s.t.blobs) + Sum(Commitments(s.inFlight, l)) <= Bound(l, k, tusOnly)
  }

  // The uploads already in flight leave room for k - 1 files at most.
  lemma Admission(inFlight: map<nat, Admitted>, u: nat, a: Admitted, l: Limits, k: nat, cap: int)
    requires cap >= 0 && u !in inFlight && |inFlight[u := a]| <= k
    requires forall v | v in inFlight :: Commitments(inFlight, l)[v] <= cap
    ensures k >= 1
    ensures Sum(Commitments(inFlight[u := a], l)) <= (k - 1) * cap + if a.Tus? then a.size else l.file
  {
    var c := Commitments(inFlight, l);
    assert Commitments(inFlight[u := a], l) == c[u := if a.Tus? then a.size else l.file];
    SumInsert(c, u, if a.Tus? then a.size else l.file);
    assert |inFlight[u := a]| == |inFlight| + 1;
    assert c.Keys == inFlight.Keys;
    assert |c| == |c.Keys| && |inFlight| == |inFlight.Keys|;
    SumAtMost(c, cap);
    FewerFiles(|c|, k - 1, cap);
  }

  lemma FewerFiles(a: nat, b: nat, file: int)
    requires a <= b && file >= 0
    ensures a * file <= b * file
  {
  }

  lemma Leaving(inFlight: map<nat, Admitted>, u: nat, l: Limits)
    requires u in inFlight
    ensures Sum(Commitments(inFlight, l)) ==
            Sum(Commitments(inFlight - {u}, l)) + if inFlight[u].Tus? then inFlight[u].size else l.file
  {
    SumSplit(Commitments(inFlight, l), u);
    assert Commitments(inFlight - {u}, l) == Commitments(inFlight, l) - {u};
  }

  // Direct uploads have no bound unless there is a file size limit.
  predicate Bounded(l: Limits, tusOnly: bool) {
    Set(l) && (tusOnly || l.file > 0)
  }

  lemma AdmissionKeepsWithin(s: State, u: nat, a: Admitted, l: Limits, k: nat, tusOnly: bool)
    requires Bounded(l, tusOnly) && Within(s, l, k, tusOnly)
    requires u !in s.inFlight && |s.inFlight[u := a]| <= k
    requires a.Tus? ==> WithinFileLimit(a.size, l) && Bytes(s.t.blobs) + a.size <= l.storage
    requires a.Direct? ==> !tusOnly && Bytes(s.t.blobs) < l.storage
    ensures Within(s.(inFlight := s.inFlight[u := a]), l, k, tusOnly)
  {
    BytesAreNotNegative(s.t.blobs);
    EachAtMostCap(s, l, k, tusOnly);
    Admission(s.inFlight, u, a, l, k, Cap(l, tusOnly));
    OneMore(k - 1, Cap(l, tusOnly));
  }

  lemma EachAtMostCap(s: State, l: Limits, k: nat, tusOnly: bool)
    requires Within(s, l, k, tusOnly)
    ensures forall v | v in s.inFlight :: Commitments(s.inFlight, l)[v] <= Cap(l, tusOnly)
  {
  }

  lemma BytesAreNotNegative(blobs: map<Digest, BlobRow>)
    requires SizesKnown(blobs)
    ensures Bytes(blobs) >= 0
  {
    SumSubset(map[], Sizes(blobs));
  }

  lemma EventKeepsWithin(s: State, e: Event, l: Limits, k: nat, tusOnly: bool, now: int)
    requires Bounded(l, tusOnly) && Within(s, l, k, tusOnly) && Next(s, e, l, now).Some?
    requires |Next(s, e, l, now).value.inFlight| <= k
    requires (tusOnly ==> !e.AdmitDirect?) && AddsUp(s, e)
    ensures Within(Next(s, e, l, now).value, l, k, tusOnly)
  {
    match e
    case AdmitTus(u, size) =>
      TrueSum(s, e, l, now);
      AdmissionKeepsWithin(s, u, Tus(size), l, k, tusOnly);
    case AdmitDirect(u) => AdmissionKeepsWithin(s, u, Direct, l, k, tusOnly);
    case Finish(u, id, bytes, name, kind, mime) => FinishKeepsWithin(s, e, l, k, tusOnly, now);
    case Abort(u) => AbortKeepsWithin(s, u, l, k, tusOnly);
    case Unrelated(x) => UnrelatedKeepsWithin(s, x, l, k, tusOnly, now);
  }

  lemma TrueSum(s: State, e: Event, l: Limits, now: int)
    requires e.AdmitTus? && Next(s, e, l, now).Some? && AddsUp(s, e) && SizesKnown(s.t.blobs)
    ensures WithinFileLimit(e.size, l) && Bytes(s.t.blobs) + e.size <= l.storage
    ensures e.upload !in s.inFlight && Next(s, e, l, now) == Some(s.(inFlight := s.inFlight[e.upload := Tus(e.size)]))
  {
    BytesAreNotNegative(s.t.blobs);
  }

  lemma AbortKeepsWithin(s: State, u: nat, l: Limits, k: nat, tusOnly: bool)
    requires Bounded(l, tusOnly) && Within(s, l, k, tusOnly) && u in s.inFlight
    ensures Within(s.(inFlight := s.inFlight - {u}), l, k, tusOnly)
  {
    Leaving(s.inFlight, u, l);
  }

  lemma UnrelatedKeepsWithin(s: State, x: Txn, l: Limits, k: nat, tusOnly: bool, now: int)
    requires Within(s, l, k, tusOnly) && !x.TxCreateFile?
    ensures Within(s.(t := Step(s.t, x, now)), l, k, tusOnly)
  {
    OthersAddNothing(s.t, x, now);
  }

  lemma FinishKeepsWithin(s: State, e: Event, l: Limits, k: nat, tusOnly: bool, now: int)
    requires Bounded(l, tusOnly) && Within(s, l, k, tusOnly) && e.Finish? && Next(s, e, l, now).Some?
    ensures Within(Next(s, e, l, now).value, l, k, tusOnly)
  {
    Leaving(s.inFlight, e.upload, l);
    CreateAddsAtMost(s.t, e.id, e.name, e.kind, e.mime, e.bytes, now);
  }

  predicate NoDirect(es: seq<At>) {
    forall i | 0 <= i < |es| :: !es[i].event.AdmitDirect?
  }

  lemma CommitmentsAreNotNegative(inFlight: map<nat, Admitted>, l: Limits)
    requires Set(l)
    ensures Sum(Commitments(inFlight, l)) >= 0
  {
    SumSubset(map[], Commitments(inFlight, l));
  }

  lemma {:induction false} RunStaysWithin(s: State, es: seq<At>, l: Limits, k: nat, tusOnly: bool)
    requires Bounded(l, tusOnly) && Possible(s, es, l, k) && Within(s, l, k, tusOnly)
    requires AlwaysAddsUp(s, es, l, k) && (tusOnly ==> NoDirect(es))
    ensures Bytes(After(s, es, l, k).t.blobs) <= Bound(l, k, tusOnly)
    decreases |es|
  {
    if es == [] {
      CommitmentsAreNotNegative(s.inFlight, l);
    } else {
      assert tusOnly ==> !es[0].event.AdmitDirect?;
      EventKeepsWithin(s, es[0].event, l, k, tusOnly, es[0].now);
      RunStaysWithin(Next(s, es[0].event, l, es[0].now).value, es[1..], l, k, tusOnly);
    }
  }

  // ---------------------------------------------------------------------------
  // When the 64-bit sum is the true one
  // ---------------------------------------------------------------------------

  // One file more than the bound still fits an int64.
  predicate Representable(l: Limits, k: nat) {
    l.file > 0 && l.storage + k * l.file + l.file <= Decimal.INT64_LIMIT
  }

  lemma {:induction false} RepresentableAddsUp(s: State, es: seq<At>, l: Limits, k: nat)
    requires Set(l) && Representable(l, k) && Possible(s, es, l, k) && Within(s, l, k, false)
    ensures AlwaysAddsUp(s, es, l, k)
    decreases |es|
  {
    if es != [] {
      CommitmentsAreNotNegative(s.inFlight, l);
      EventKeepsWithin(s, es[0].event, l, k, false, es[0].now);
      RepresentableAddsUp(Next(s, es[0].event, l, es[0].now).value, es[1..], l, k);
    }
  }

  // Where it is not, the admission check lets the upload through.
  lemma WrappedSumIsAdmitted(s: State, u: nat, size: nat, l: Limits, now: int)
    requires Set(l) && SizesKnown(s.t.blobs) && Bytes(s.t.blobs) < Decimal.INT64_LIMIT
    requires u !in s.inFlight && size < Decimal.INT64_LIMIT && WithinFileLimit(size, l)
    ensures Next(s, AdmitTus(u, size), l, now).Some? <==>
            Bytes(s.t.blobs) + size <= l.storage || !AddsUp(s, AdmitTus(u, size))
  {
    BytesAreNotNegative(s.t.blobs);
    Decimal.SumWithinIff(Bytes(s.t.blobs), size, l.storage);
  }

  // ---------------------------------------------------------------------------
  // The bounds
  // ---------------------------------------------------------------------------

  lemma StartIsWithin(l: Limits, k: nat, tusOnly: bool)
    requires Bounded(l, tusOnly) && (tusOnly ==> k >= 1)
    ensures Within(Start(), l, k, tusOnly)
  {
    assert Sizes(Start().t.blobs) == map[] && Commitments(map[], l) == map[];
    MulAtLeast(if tusOnly then k - 1 else k, Cap(l, tusOnly));
  }

  lemma MulAtLeast(k: nat, file: int)
    requires file >= 0
    ensures k * file >= 0
  {
  }

  // With at most k uploads in flight, BlobBytes never passes M - 1 + k F.
  lemma MixedUploadsBound(es: seq<At>, l: Limits, k: nat)
    requires Set(l) && l.file > 0 && Possible(Start(), es, l, k)
    requires Representable(l, k) || AlwaysAddsUp(Start(), es, l, k)
    ensures Bytes(After(Start(), es, l, k).t.blobs) <= l.storage - 1 + k * l.file
  {
    StartIsWithin(l, k, false);
    MixedRunStaysWithin(Start(), es, l, k);
  }

  lemma {:induction false} MixedRunStaysWithin(s: State, es: seq<At>, l: Limits, k: nat)
    requires Set(l) && l.file > 0 && Possible(s, es, l, k) && Within(s, l, k, false)
    requires Representable(l, k) || AlwaysAddsUp(s, es, l, k)
    ensures Bytes(After(s, es, l, k).t.blobs) <= Bound(l, k, false)
  {
    if !AlwaysAddsUp(s, es, l, k) {
      RepresentableAddsUp(s, es, l, k);
    }
    RunStaysWithin(s, es, l, k, false);
  }

  // With tus uploads only it never passes M + (k - 1) min(F, M); one at a
  // time, it never passes M.
  lemma TusUploadsBound(es: seq<At>, l: Limits, k: nat)
    requires Set(l) && k >= 1 && Possible(Start(), es, l, k) && NoDirect(es)
    requires Representable(l, k) || AlwaysAddsUp(Start(), es, l, k)
    ensures Bytes(After(Start(), es, l, k).t.blobs) <= l.storage + (k - 1) * Largest(l)
    ensures k == 1 ==> Bytes(After(Start(), es, l, k).t.blobs) <= l.storage
  {
    StartIsWithin(l, k, true);
    if Representable(l, k) {
      StartIsWithin(l, k, false);
    }
    TusRunStaysWithin(Start(), es, l, k);
  }

  lemma {:induction false} TusRunStaysWithin(s: State, es: seq<At>, l: Limits, k: nat)
    requires Set(l) && k >= 1 && Possible(s, es, l, k) && NoDirect(es) && Within(s, l, k, true)
    requires (Representable(l, k) && Within(s, l, k, false)) || AlwaysAddsUp(s, es, l, k)
    ensures Bytes(After(s, es, l, k).t.blobs) <= Bound(l, k, true)
  {
    if !AlwaysAddsUp(s, es, l, k) {
      RepresentableAddsUp(s, es, l, k);
    }
    RunStaysWithin(s, es, l, k, true);
  }
}
