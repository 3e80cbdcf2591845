// internal/sse: fanning events out to bounded client queues.  Broadcasts hold
// only a read lock, so several of them, and the clients draining their
// queues, interleave attempt by attempt.
module Sse {
  import opened Common

  const CLIENT_BUFFER := 64

  // An event is known by the broadcast that sent it.
  datatype Item = Event(cast: nat) | Resync

  // `delivered` and `queue` together are what has been sent to the client;
  // `since` is the number of broadcasts begun before it connected, and `full`
  // records that some attempt found its queue full.
  datatype Client = Client(origin: string, delivered: seq<Item>, queue: seq<Item>, since: nat, full: bool)

  function Stream(c: Client): seq<Item> {
    c.delivered + c.queue
  }

  // ---------------------------------------------------------------------------
  // The two attempts of one broadcast at one client
  // ---------------------------------------------------------------------------

  function Push(c: Client, item: Item): Client {
    c.(queue := c.queue + [item])
  }

  predicate HasRoom(c: Client) {
    |c.queue| < CLIENT_BUFFER
  }

  function TryEvent(c: Client, cast: nat): Client {
    if HasRoom(c) then Push(c, Event(cast)) else c.(full := true)
  }

  function TryResync(c: Client): Client {
    if HasRoom(c) then Push(c, Resync) else c
  }

  // Both attempts with nothing in between.
  function Offered(c: Client, cast: nat): Client {
    if HasRoom(c) then TryEvent(c, cast) else TryResync(TryEvent(c, cast))
  }

  // The client's own loop moves the head of its queue to the wire.
  function Taken(c: Client): (r: Client)
    requires c.queue != []
    ensures Stream(r) == Stream(c) && |r.queue| < |c.queue|
  {
    c.(delivered := c.delivered + [c.queue[0]], queue := c.queue[1..])
  }

  predicate Wants(c: Client, origin: string) {
    origin == "" || c.origin != origin
  }

  function Interested(clients: map<nat, Client>, origin: string): set<nat> {
    set id | id in clients && Wants(clients[id], origin)
  }

  ghost function AllOffered(clients: map<nat, Client>, todo: set<nat>, cast: nat): map<nat, Client> {
    map id | id in clients :: if id in todo then Offered(clients[id], cast) else clients[id]
  }

  // What one broadcast does to one client: nothing when it is the one that
  // caused the event; else the event is queued where there is room, and a full
  // queue stays as it is.
  predicate Reached(c: Client, r: Client, origin: string, cast: nat) {
    && (origin != "" && c.origin == origin ==> r == c)
    && (origin == "" || c.origin != origin ==>
          && (|c.queue| < 64 ==> r == c.(queue := c.queue + [Event(cast)]))
          && (|c.queue| >= 64 ==> r == c.(full := true)))
  }

  // The hub when broadcasts are not interrupted.
  class Hub {
    var clients: map<nat, Client>
    var nextID: nat
    var begun: nat

    ghost predicate Valid()
      reads this
    {
      && (forall id | id in clients :: 1 <= id <= nextID)
      && (forall id | id in clients :: |clients[id].queue| <= CLIENT_BUFFER)
    }

    constructor ()
      ensures Valid() && clients == map[] && begun == 0
    {
      clients, nextID, begun := map[], 0, 0;
    }

    method Connect(origin: string) returns (id: nat)
      requires Valid()
      modifies this
      ensures Valid() && id !in old(clients) && begun == old(begun)
      ensures clients == old(clients)[id := Client(origin, [], [], begun, false)]
    {
      nextID := nextID + 1;
      id := nextID;
      clients := clients[id := Client(origin, [], [], begun, false)];
    }

    method Disconnect(id: nat)
      requires Valid()
      modifies this
      ensures Valid() && clients == old(clients) - {id} && begun == old(begun)
    {
      clients := clients - {id};
    }

    method Drain(id: nat) returns (item: Option<Item>)
      requires Valid()
      modifies this
      ensures Valid() && begun == old(begun)
      ensures item.None? <==> id !in old(clients) || old(clients)[id].queue == []
      ensures item.None? ==> clients == old(clients)
      ensures item.Some? ==>
                var c := old(clients)[id];
                && [item.value] + c.queue[1..] == c.queue
                && clients == old(clients)[id := c.(delivered := c.delivered + [item.value], queue := c.queue[1..])]
    {
      if id !in clients || clients[id].queue == [] {
        return None;
      }
      var c := clients[id];
      item := Some(c.queue[0]);
      clients := clients[id := Taken(c)];
    }

    // The clients come in whatever order the map yields them; an empty origin
    // skips nobody.
    method BroadcastExcept(originID: string)
      requires Valid()
      modifies this
      ensures Valid() && begun == old(begun) + 1
      ensures clients == AllOffered(old(clients), Interested(old(clients), originID), old(begun))
      ensures clients.Keys == old(clients).Keys
      ensures forall id | id in old(clients) :: Reached(old(clients)[id], clients[id], originID, old(begun))
    {
      var cast := begun;
      begun := begun + 1;
      var rest := clients.Keys;
      while rest != {}
        invariant rest <= old(clients).Keys && nextID == old(nextID) && begun == old(begun) + 1
        invariant clients == AllOffered(old(clients), Interested(old(clients), originID) - rest, cast)
        decreases rest
      {
        var id :| id in rest;
        rest := rest - {id};
        var c := clients[id];
        if originID != "" && c.origin == originID {
          continue;
        }
        if |c.queue| < CLIENT_BUFFER {
          clients := clients[id := c.(queue := c.queue + [Event(cast)])];
        } else {
          c := c.(full := true);
          if |c.queue| < CLIENT_BUFFER {
            c := c.(queue := c.queue + [Resync]);
          }
          clients := clients[id := c];
        }
      }
    }
  }

  // ---------------------------------------------------------------------------
  // Interleaved
  // ---------------------------------------------------------------------------

  // A broadcast in progress: the clients still to come, and the one whose
  // queue was found full and is owed a resync attempt.
  datatype Cast = Cast(todo: set<nat>, retry: Option<nat>)

  datatype Info = Info(caster: nat, origin: string)

  // `begun` lists every broadcast ever started; a broadcast is its index there.
  datatype State = State(clients: map<nat, Client>, nextID: nat, begun: seq<Info>, casts: map<nat, Cast>)

  datatype Move =
    | Connect(origin: string)
    | Disconnect(id: nat)
    | Begin(caster: nat, origin: string)
    | Attempt(cast: nat, id: nat)
    | Retry(cast: nat)
    | Finish(cast: nat)
    | Drain(id: nat)

  const START := State(map[], 0, [], map[])

  // None when the move cannot happen.  Connecting and disconnecting take the
  // write lock, so no broadcast may be in progress; a broadcaster starts its
  // next broadcast when the last one is over.
  function Next(s: State, m: Move): Option<State> {
    match m
    case Connect(origin) =>
      if s.casts != map[] then None
      else Some(s.(clients := s.clients[s.nextID + 1 := Client(origin, [], [], |s.begun|, false)],
                   nextID := s.nextID + 1))
    case Disconnect(id) =>
      if s.casts != map[] || id !in s.clients then None else Some(s.(clients := s.clients - {id}))
    case Begin(caster, origin) =>
      if exists n | n in s.casts :: n < |s.begun| && s.begun[n].caster == caster then None
      else
        var todo := Interested(s.clients, origin);
        Some(s.(begun := s.begun + [Info(caster, origin)], casts := s.casts[|s.begun| := Cast(todo, None)]))
    case Attempt(n, id) =>
      if n !in s.casts || s.casts[n].retry.Some? || id !in s.casts[n].todo || id !in s.clients then None
      else
        var c := s.clients[id];
        Some(s.(clients := s.clients[id := TryEvent(c, n)],
                casts := s.casts[n := Cast(s.casts[n].todo - {id}, if HasRoom(c) then None else Some(id))]))
    case Retry(n) =>
      if n !in s.casts || s.casts[n].retry.None? || s.casts[n].retry.value !in s.clients then None
      else
        var id := s.casts[n].retry.value;
        Some(s.(clients := s.clients[id := TryResync(s.clients[id])],
                casts := s.casts[n := s.casts[n].(retry := None)]))
    case Finish(n) =>
      if n !in s.casts || s.casts[n] != Cast({}, None) then None else Some(s.(casts := s.casts - {n}))
    case Drain(id) =>
      if id !in s.clients || s.clients[id].queue == [] then None
      else Some(s.(clients := s.clients[id := Taken(s.clients[id])]))
  }

  ghost predicate Possible(s: State, ms: seq<Move>)
    decreases |ms|
  {
    ms != [] ==> Next(s, ms[0]).Some? && Possible(Next(s, ms[0]).value, ms[1..])
  }

  ghost function After(s: State, ms: seq<Move>): State
    requires Possible(s, ms)
    decreases |ms|
  {
    if ms == [] then s else After(Next(s, ms[0]).value, ms[1..])
  }

  // ---------------------------------------------------------------------------
  // What every client sees
  // ---------------------------------------------------------------------------

  // Every event was broadcast while the client was connected, by somebody
  // else, and comes once; events of one broadcaster come in the order sent.
  ghost predicate Orderly(c: Client, begun: seq<Info>) {
    var st := Stream(c);
    && |c.queue| <= CLIENT_BUFFER
    && (forall i | 0 <= i < |st| && st[i].Event? ::
          c.since <= st[i].cast < |begun| && Wants(c, begun[st[i].cast].origin))
    && (forall i, j | 0 <= i < j < |st| && st[i].Event? && st[j].Event? ::
          st[i].cast != st[j].cast &&
          (begun[st[i].cast].caster == begun[st[j].cast].caster ==> st[i].cast < st[j].cast))
  }

  // A broadcast still has to make its first attempt at the client.
  predicate StillToCome(s: State, n: nat, id: nat) {
    n in s.casts && id in s.casts[n].todo
  }

  // Unless an attempt found the queue full, nothing is missing but what is
  // still to come.
  ghost predicate Complete(s: State, id: nat)
    requires id in s.clients
  {
    var c := s.clients[id];
    !c.full ==>
      forall n | c.since <= n < |s.begun| && Wants(c, s.begun[n].origin) ::
        Event(n) in Stream(c) || StillToCome(s, n, id)
  }

  ghost predicate CastsSound(s: State) {
    && (forall n | n in s.casts :: n < |s.begun|)
    && (forall n, m | n in s.casts && 0 <= m < |s.begun| && s.begun[m].caster == s.begun[n].caster :: m <= n)
    && (forall n, id | n in s.casts && id in s.casts[n].todo ::
          id in s.clients && Wants(s.clients[id], s.begun[n].origin) && s.clients[id].since <= n &&
          Event(n) !in Stream(s.clients[id]))
    && (forall n | n in s.casts && s.casts[n].retry.Some? :: s.casts[n].retry.value in s.clients)
    && (forall id | id in s.clients :: s.clients[id].since <= |s.begun|)
  }

  ghost predicate Good(s: State) {
    && CastsSound(s)
    && (forall id | id in s.clients :: 1 <= id <= s.nextID)
    && (forall id | id in s.clients :: Orderly(s.clients[id], s.begun))
    && (forall id | id in s.clients :: Complete(s, id))
  }

  lemma {:induction false} PushEventStaysOrderly(c: Client, begun: seq<Info>, n: nat)
    requires Orderly(c, begun) && HasRoom(c)
    requires c.since <= n < |begun| && Wants(c, begun[n].origin)
    requires Event(n) !in Stream(c)
    requires forall m | 0 <= m < |begun| && begun[m].caster == begun[n].caster :: m <= n
    ensures Orderly(Push(c, Event(n)), begun)
  {
    assert Stream(Push(c, Event(n))) == Stream(c) + [Event(n)];
    assert forall i | 0 <= i < |Stream(c)| :: Stream(c)[i] in Stream(c);
  }

  lemma {:induction false} PushResyncStaysOrderly(c: Client, begun: seq<Info>)
    requires Orderly(c, begun) && HasRoom(c)
    ensures Orderly(Push(c, Resync), begun)
    ensures forall n: nat :: Event(n) in Stream(Push(c, Resync)) <==> Event(n) in Stream(c)
  {
    assert Stream(Push(c, Resync)) == Stream(c) + [Resync];
  }

  lemma ConnectKeepsGood(s: State, origin: string)
    requires Good(s) && s.casts == map[]
    ensures Good(Next(s, Connect(origin)).value)
  {
  }

  lemma DisconnectKeepsGood(s: State, id: nat)
    requires Good(s) && s.casts == map[] && id in s.clients
    ensures Good(Next(s, Disconnect(id)).value)
  {
    var s' := Next(s, Disconnect(id)).value;
    forall k | k in s'.clients
      ensures Complete(s', k)
    {
      assert Complete(s, k);
    }
  }

  lemma {:induction false} NotYetCast(c: Client, begun: seq<Info>, n: nat)
    requires Orderly(c, begun) && |begun| <= n
    ensures Event(n) !in Stream(c)
  {
    var st := Stream(c);
    assert forall i | 0 <= i < |st| :: st[i] != Event(n);
  }

  ghost predicate Begun(s: State, t: State, info: Info, todo: set<nat>) {
    && t == s.(begun := s.begun + [info], casts := s.casts[|s.begun| := Cast(todo, None)])
    && (forall n | n in s.casts && n < |s.begun| :: s.begun[n].caster != info.caster)
    && todo == Interested(s.clients, info.origin)
  }

  lemma {:induction false} BegunOrderly(c: Client, begun: seq<Info>, info: Info)
    requires Orderly(c, begun)
    ensures Orderly(c, begun + [info])
  {
  }

  lemma {:induction false} BegunComplete(s: State, t: State, info: Info, todo: set<nat>, id: nat)
    requires Begun(s, t, info, todo) && CastsSound(s) && id in s.clients && Complete(s, id)
    ensures Complete(t, id)
  {
    forall n | t.clients[id].since <= n < |t.begun| && Wants(t.clients[id], t.begun[n].origin) && !t.clients[id].full
      ensures Event(n) in Stream(t.clients[id]) || StillToCome(t, n, id)
    {
      if n < |s.begun| {
        assert StillToCome(s, n, id) ==> StillToCome(t, n, id);
      } else {
        assert id in t.casts[n].todo;
      }
    }
  }

  lemma {:induction false} BegunCastsSound(s: State, t: State, info: Info, todo: set<nat>)
    requires Begun(s, t, info, todo) && CastsSound(s)
    requires forall id | id in s.clients :: Event(|s.begun|) !in Stream(s.clients[id])
    ensures CastsSound(t)
  {
    forall n, m | n in t.casts && 0 <= m < |t.begun| && t.begun[m].caster == t.begun[n].caster
      ensures m <= n
    {
      assert n != |s.begun| ==> n in s.casts && n < |s.begun|;
    }
    forall n, id | n in t.casts && id in t.casts[n].todo
      ensures id in t.clients && Wants(t.clients[id], t.begun[n].origin) && t.clients[id].since <= n
      ensures Event(n) !in Stream(t.clients[id])
    {
      assert n != |s.begun| ==> n in s.casts && n < |s.begun|;
    }
  }

  lemma {:induction false} BeginKeepsGood(s: State, caster: nat, origin: string)
    requires Good(s) && Next(s, Begin(caster, origin)).Some?
    ensures Good(Next(s, Begin(caster, origin)).value)
  {
    var t := Next(s, Begin(caster, origin)).value;
    var info := Info(caster, origin);
    var todo := t.casts[|s.begun|].todo;
    forall id | id in s.clients
      ensures Event(|s.begun|) !in Stream(s.clients[id])
      ensures Orderly(t.clients[id], t.begun) && Complete(t, id)
    {
      NotYetCast(s.clients[id], s.begun, |s.begun|);
      BegunOrderly(s.clients[id], s.begun, info);
      BegunComplete(s, t, info, todo, id);
    }
    BegunCastsSound(s, t, info, todo);
  }

  // What an update of one client has to meet to leave everything good.
  ghost predicate Touched(s: State, t: State, id: nat) {
    && id in s.clients && id in t.clients
    && t.clients == s.clients[id := t.clients[id]]
    && t.begun == s.begun && t.nextID == s.nextID && t.casts.Keys == s.casts.Keys
    && t.clients[id].origin == s.clients[id].origin && t.clients[id].since == s.clients[id].since
    && (forall n | n in s.casts :: t.casts[n].todo == s.casts[n].todo || t.casts[n].todo == s.casts[n].todo - {id})
    && (forall n | n in t.casts && t.casts[n].retry.Some? :: t.casts[n].retry.value in s.clients)
    && (forall n | StillToCome(t, n, id) :: Event(n) !in Stream(t.clients[id]))
  }

  lemma {:induction false} TouchedCastsSound(s: State, t: State, id: nat)
    requires CastsSound(s) && Touched(s, t, id)
    ensures CastsSound(t)
  {
    forall n, k | n in t.casts && k in t.casts[n].todo
      ensures k in t.clients && Wants(t.clients[k], t.begun[n].origin) && t.clients[k].since <= n
      ensures Event(n) !in Stream(t.clients[k])
    {
      assert k in s.casts[n].todo;
      if k == id {
        assert StillToCome(t, n, id);
      }
    }
  }

  lemma {:induction false} TouchedOthersComplete(s: State, t: State, id: nat, k: nat)
    requires Touched(s, t, id) && k in s.clients && k != id && Complete(s, k)
    ensures Complete(t, k)
  {
    assert t.clients[k] == s.clients[k];
    assert forall n | StillToCome(s, n, k) :: StillToCome(t, n, k);
  }

  lemma {:induction false} TouchedGood(s: State, t: State, id: nat)
    requires Good(s) && Touched(s, t, id)
    requires Orderly(t.clients[id], t.begun) && Complete(t, id)
    ensures Good(t)
  {
    assert CastsSound(t) by {
      TouchedCastsSound(s, t, id);
    }
    forall k | k in t.clients
      ensures Complete(t, k) && Orderly(t.clients[k], t.begun)
    {
      if k != id {
        TouchedOthersComplete(s, t, id, k);
      }
    }
  }

  lemma {:induction false} OnlyCastOf(s: State, n: nat, id: nat)
    requires CastsSound(s) && StillToCome(s, n, id)
    ensures forall m | 0 <= m < |s.begun| && s.begun[m].caster == s.begun[n].caster :: m <= n
    ensures id in s.clients && Event(n) !in Stream(s.clients[id])
    ensures s.clients[id].since <= n < |s.begun| && Wants(s.clients[id], s.begun[n].origin)
  {
  }

  lemma {:induction false} AttemptSends(s: State, t: State, n: nat, id: nat)
    requires Good(s) && Next(s, Attempt(n, id)) == Some(t) && HasRoom(s.clients[id])
    ensures Orderly(t.clients[id], t.begun) && Complete(t, id) && Touched(s, t, id)
  {
    var c, d := s.clients[id], t.clients[id];
    assert StillToCome(s, n, id);
    OnlyCastOf(s, n, id);
    assert Stream(d) == Stream(c) + [Event(n)];
    assert Orderly(d, t.begun) by {
      PushEventStaysOrderly(c, s.begun, n);
    }
    assert Complete(t, id) by {
      assert Complete(s, id);
      assert Event(n) in Stream(d);
      assert forall m | m != n :: StillToCome(s, m, id) ==> StillToCome(t, m, id);
    }
    assert forall m | StillToCome(t, m, id) :: m != n && StillToCome(s, m, id);
  }

  lemma {:induction false} AttemptFails(s: State, t: State, n: nat, id: nat)
    requires Good(s) && Next(s, Attempt(n, id)) == Some(t) && !HasRoom(s.clients[id])
    ensures Orderly(t.clients[id], t.begun) && Complete(t, id) && Touched(s, t, id)
  {
    assert StillToCome(s, n, id);
    OnlyCastOf(s, n, id);
    assert Stream(t.clients[id]) == Stream(s.clients[id]);
    assert forall m | StillToCome(t, m, id) :: m != n && StillToCome(s, m, id);
  }

  lemma {:induction false} AttemptKeepsGood(s: State, n: nat, id: nat)
    requires Good(s) && Next(s, Attempt(n, id)).Some?
    ensures Good(Next(s, Attempt(n, id)).value)
  {
    var t := Next(s, Attempt(n, id)).value;
    if HasRoom(s.clients[id]) {
      AttemptSends(s, t, n, id);
    } else {
      AttemptFails(s, t, n, id);
    }
    TouchedGood(s, t, id);
  }

  lemma {:induction false} RetryKeepsGood(s: State, n: nat)
    requires Good(s) && Next(s, Retry(n)).Some?
    ensures Good(Next(s, Retry(n)).value)
  {
    var t := Next(s, Retry(n)).value;
    var id := s.casts[n].retry.value;
    var c := s.clients[id];
    if HasRoom(c) {
      PushResyncStaysOrderly(c, s.begun);
    }
    assert forall m :: StillToCome(t, m, id) <==> StillToCome(s, m, id);
    assert forall m: nat :: Event(m) in Stream(t.clients[id]) <==> Event(m) in Stream(c);
    assert Complete(s, id);
    TouchedGood(s, t, id);
  }

  lemma {:induction false} FinishKeepsGood(s: State, n: nat)
    requires Good(s) && Next(s, Finish(n)).Some?
    ensures Good(Next(s, Finish(n)).value)
  {
    var t := Next(s, Finish(n)).value;
    assert CastsSound(t);
    forall k | k in t.clients
      ensures Complete(t, k) && Orderly(t.clients[k], t.begun)
    {
      assert Complete(s, k);
      assert forall m | StillToCome(s, m, k) :: StillToCome(t, m, k);
    }
  }

  lemma {:induction false} DrainKeepsGood(s: State, id: nat)
    requires Good(s) && Next(s, Drain(id)).Some?
    ensures Good(Next(s, Drain(id)).value)
  {
    var t := Next(s, Drain(id)).value;
    assert forall m :: StillToCome(t, m, id) <==> StillToCome(s, m, id);
    assert Complete(s, id);
    TouchedGood(s, t, id);
  }

  lemma {:induction false} MoveKeepsGood(s: State, m: Move)
    requires Good(s) && Next(s, m).Some?
    ensures Good(Next(s, m).value)
  {
    match m
    case Connect(origin) => ConnectKeepsGood(s, origin);
    case Disconnect(id) => DisconnectKeepsGood(s, id);
    case Begin(caster, origin) => BeginKeepsGood(s, caster, origin);
    case Attempt(n, id) => AttemptKeepsGood(s, n, id);
    case Retry(n) => RetryKeepsGood(s, n);
    case Finish(n) => FinishKeepsGood(s, n);
    case Drain(id) => DrainKeepsGood(s, id);
  }

  lemma {:induction false} RunKeepsGood(s: State, ms: seq<Move>)
    requires Good(s) && Possible(s, ms)
    ensures Good(After(s, ms))
    decreases |ms|
  {
    if ms != [] {
      MoveKeepsGood(s, ms[0]);
      RunKeepsGood(Next(s, ms[0]).value, ms[1..]);
    }
  }

  // A broadcast never waits: in every reachable state each broadcast in
  // progress has a move of its own to make.
  lemma {:induction false} NeverBlocks(ms: seq<Move>, n: nat)
    requires Possible(START, ms) && n in After(START, ms).casts
    ensures var s := After(START, ms);
            Next(s, Finish(n)).Some? || Next(s, Retry(n)).Some? || exists id :: Next(s, Attempt(n, id)).Some?
  {
    RunKeepsGood(START, ms);
    var s := After(START, ms);
    if s.casts[n].retry.None? && s.casts[n].todo != {} {
      var id :| id in s.casts[n].todo;
      assert Next(s, Attempt(n, id)).Some?;
    }
  }

  // In every reachable state each queue is bounded, and each stream has every
  // event at most once, none of the client's own, and each broadcaster's
  // events in order.
  lemma {:induction false} EveryStreamIsOrderly(ms: seq<Move>, id: nat)
    requires Possible(START, ms) && id in After(START, ms).clients
    ensures var c, begun := After(START, ms).clients[id], After(START, ms).begun;
            var st := Stream(c);
            && |c.queue| <= 64
            && (forall i | 0 <= i < |st| && st[i].Event? ::
                  c.since <= st[i].cast < |begun| &&
                  (begun[st[i].cast].origin == "" || begun[st[i].cast].origin != c.origin))
            && (forall i, j | 0 <= i < j < |st| && st[i].Event? && st[j].Event? ::
                  st[i].cast != st[j].cast &&
                  (begun[st[i].cast].caster == begun[st[j].cast].caster ==> st[i].cast < st[j].cast))
  {
    RunKeepsGood(START, ms);
    assert Orderly(After(START, ms).clients[id], After(START, ms).begun);
  }

  // When no broadcast is in progress, a client whose queue was never found
  // full has been sent exactly the events of others since it connected.
  lemma {:induction false} NeverFullMissesNothing(ms: seq<Move>, id: nat)
    requires Possible(START, ms) && id in After(START, ms).clients
    requires After(START, ms).casts == map[] && !After(START, ms).clients[id].full
    ensures var s := After(START, ms);
            var c := s.clients[id];
            forall n: nat :: Event(n) in Stream(c) <==>
              c.since <= n < |s.begun| && (s.begun[n].origin == "" || s.begun[n].origin != c.origin)
  {
    RunKeepsGood(START, ms);
    var s := After(START, ms);
    var c := s.clients[id];
    assert Complete(s, id) && Orderly(c, s.begun);
    forall n: nat | Event(n) in Stream(c)
      ensures c.since <= n < |s.begun| && Wants(c, s.begun[n].origin)
    {
      var i :| 0 <= i < |Stream(c)| && Stream(c)[i] == Event(n);
    }
  }

  // ---------------------------------------------------------------------------
  // Who is connected, and what has been broadcast
  // ---------------------------------------------------------------------------

  // The broadcasts of a run, in the order they began.
  function Broadcasts(ms: seq<Move>): seq<Info>
    decreases |ms|
  {
    if ms == [] then []
    else BegunBy(ms[0]) + Broadcasts(ms[1..])
  }

  function BegunBy(m: Move): seq<Info> {
    if m.Begin? then [Info(m.caster, m.origin)] else []
  }

  // When a client came and under which origin: after how many broadcasts.
  datatype Arrival = Arrival(origin: string, since: nat)

  // Identifiers are given out in turn; a client is there from its connecting
  // to its disconnecting.
  function Arrives(last: nat, begun: nat, was: Option<Arrival>, m: Move, id: nat): Option<Arrival> {
    match m
    case Connect(origin) => if id == last + 1 then Some(Arrival(origin, begun)) else was
    case Disconnect(k) => if id == k then None else was
    case _ => was
  }

  function Arrived(last: nat, begun: nat, was: Option<Arrival>, ms: seq<Move>, id: nat): Option<Arrival>
    decreases |ms|
  {
    if ms == [] then was
    else
      Arrived(last + (if ms[0].Connect? then 1 else 0), begun + (if ms[0].Begin? then 1 else 0),
              Arrives(last, begun, was, ms[0], id), ms[1..], id)
  }

  function ArrivalOf(s: State, id: nat): Option<Arrival> {
    if id in s.clients then Some(Arrival(s.clients[id].origin, s.clients[id].since)) else None
  }

  lemma {:induction false} RunRemembers(s: State, ms: seq<Move>, id: nat)
    requires Possible(s, ms)
    ensures After(s, ms).begun == s.begun + Broadcasts(ms)
    ensures ArrivalOf(After(s, ms), id) == Arrived(s.nextID, |s.begun|, ArrivalOf(s, id), ms, id)
    decreases |ms|
  {
    if ms == [] {
      assert s.begun + [] == s.begun;
    } else {
      var t := Next(s, ms[0]).value;
      MoveRemembers(s, ms[0], t, id);
      RunRemembers(t, ms[1..], id);
      Regrouped(s.begun, BegunBy(ms[0]), Broadcasts(ms[1..]));
    }
  }

  lemma MoveRemembers(s: State, m: Move, t: State, id: nat)
    requires Next(s, m) == Some(t)
    ensures t.begun == s.begun + BegunBy(m)
    ensures t.nextID == s.nextID + if m.Connect? then 1 else 0
    ensures ArrivalOf(t, id) == Arrives(s.nextID, |s.begun|, ArrivalOf(s, id), m, id)
  {
  }

  // From the start: the broadcasts are those begun, with their origins, and a
  // client is connected exactly from its Connect to its Disconnect, under the
  // origin it gave.
  lemma {:induction false} ClientsAndBroadcasts(ms: seq<Move>, id: nat)
    requires Possible(START, ms)
    ensures After(START, ms).begun == Broadcasts(ms)
    ensures ArrivalOf(After(START, ms), id) == Arrived(0, 0, None, ms, id)
  {
    RunRemembers(START, ms, id);
    assert [] + Broadcasts(ms) == Broadcasts(ms);
  }

  // ---------------------------------------------------------------------------
  // A broadcast nobody interrupts
  // ---------------------------------------------------------------------------

  lemma {:induction false} FirstMove(s: State, m: Move, t: State, ms: seq<Move>)
    requires Next(s, m) == Some(t) && Possible(t, ms)
    ensures Possible(s, [m] + ms) && After(s, [m] + ms) == After(t, ms)
  {
    assert ([m] + ms)[1..] == ms;
  }

  // One client's turn: the attempt, and the resync attempt when it is owed.
  lemma {:induction false} OneTurn(s: State, n: nat, id: nat) returns (t: State, turn: seq<Move>)
    requires n in s.casts && s.casts[n].retry.None? && id in s.casts[n].todo && id in s.clients
    ensures Possible(s, turn) && After(s, turn) == t
    ensures t == s.(clients := s.clients[id := Offered(s.clients[id], n)],
                    casts := s.casts[n := Cast(s.casts[n].todo - {id}, None)])
  {
    var u := Next(s, Attempt(n, id)).value;
    if HasRoom(s.clients[id]) {
      t, turn := u, [Attempt(n, id)] + [];
      FirstMove(s, Attempt(n, id), u, []);
    } else {
      t := Next(u, Retry(n)).value;
      FirstMove(u, Retry(n), t, []);
      turn := [Attempt(n, id)] + ([Retry(n)] + []);
      FirstMove(s, Attempt(n, id), u, [Retry(n)] + []);
    }
  }

  lemma {:induction false} RunsJoin(s: State, a: seq<Move>, b: seq<Move>)
    requires Possible(s, a) && Possible(After(s, a), b)
    ensures Possible(s, a + b) && After(s, a + b) == After(After(s, a), b)
    decreases |a|
  {
    if a == [] {
      assert a + b == b;
    } else {
      RunsJoin(Next(s, a[0]).value, a[1..], b);
      assert a + b == [a[0]] + (a[1..] + b);
      FirstMove(s, a[0], Next(s, a[0]).value, a[1..] + b);
    }
  }

  // Left alone, a broadcast in progress ends with every client it still had
  // to reach offered the event: what the hub's own loop computes.
  lemma {:induction false} UninterruptedBroadcast(s: State, n: nat) returns (ms: seq<Move>)
    requires n in s.casts && s.casts[n].retry.None? && s.casts[n].todo <= s.clients.Keys
    ensures Possible(s, ms)
    ensures After(s, ms) == s.(clients := AllOffered(s.clients, s.casts[n].todo, n), casts := s.casts - {n})
    decreases s.casts[n].todo
  {
    var todo := s.casts[n].todo;
    if todo == {} {
      var t := s.(casts := s.casts - {n});
      assert AllOffered(s.clients, {}, n) == s.clients;
      FirstMove(s, Finish(n), t, []);
      ms := [Finish(n)] + [];
    } else {
      var id :| id in todo;
      var t, turn := OneTurn(s, n, id);
      var rest := UninterruptedBroadcast(t, n);
      RunsJoin(s, turn, rest);
      ms := turn + rest;
      assert AllOffered(t.clients, todo - {id}, n) == AllOffered(s.clients, todo, n);
      assert t.casts - {n} == s.casts - {n};
    }
  }

  // ---------------------------------------------------------------------------
  // When a resync gets through
  // ---------------------------------------------------------------------------

  // The move is a retry that finds room in this client's queue.
  predicate SendsResync(s: State, m: Move, id: nat) {
    && m.Retry? && m.cast in s.casts && s.casts[m.cast].retry == Some(id)
    && id in s.clients && HasRoom(s.clients[id])
  }

  // A retry sends a resync if and only if the queue has room at that moment.
  lemma RetrySendsIff(s: State, n: nat, t: State, id: nat)
    requires Next(s, Retry(n)) == Some(t) && s.casts[n].retry == Some(id)
    ensures SendsResync(s, Retry(n), id) <==> HasRoom(s.clients[id])
    ensures Stream(t.clients[id]) == Stream(s.clients[id]) + if HasRoom(s.clients[id]) then [Resync] else []
  {
  }

  lemma {:induction false} MoveSendsIff(s: State, m: Move, t: State, id: nat)
    requires Next(s, m) == Some(t) && id in t.clients && forall k | k in s.clients :: k <= s.nextID
    ensures Resync in Stream(t.clients[id]) <==>
            (id in s.clients && Resync in Stream(s.clients[id])) || SendsResync(s, m, id)
  {
    match m
    case Attempt(n, k) =>
      if HasRoom(s.clients[k]) {
        assert Stream(Push(s.clients[k], Event(n))) == Stream(s.clients[k]) + [Event(n)];
      }
    case Retry(n) => RetrySendsIff(s, n, t, s.casts[n].retry.value);
    case _ =>
  }

  ghost predicate ResyncSent(s: State, ms: seq<Move>, id: nat)
    requires Possible(s, ms)
    decreases |ms|
  {
    ms != [] && (SendsResync(s, ms[0], id) || ResyncSent(Next(s, ms[0]).value, ms[1..], id))
  }

  // An identifier is not given out again.
  lemma {:induction false} GoneForGood(s: State, ms: seq<Move>, id: nat)
    requires Possible(s, ms) && id !in s.clients && id <= s.nextID
    ensures id !in After(s, ms).clients
    decreases |ms|
  {
    if ms != [] {
      GoneForGood(Next(s, ms[0]).value, ms[1..], id);
    }
  }

  lemma {:induction false} SentOverARun(s: State, ms: seq<Move>, id: nat)
    requires Possible(s, ms) && id in After(s, ms).clients && (forall k | k in s.clients :: k <= s.nextID)
    ensures Resync in Stream(After(s, ms).clients[id]) <==>
            (id in s.clients && Resync in Stream(s.clients[id])) || ResyncSent(s, ms, id)
    decreases |ms|
  {
    if ms != [] {
      var t := Next(s, ms[0]).value;
      if id in t.clients {
        MoveSendsIff(s, ms[0], t, id);
      } else if id in s.clients {
        GoneForGood(t, ms[1..], id);
      }
      SentOverARun(t, ms[1..], id);
    }
  }

  // Over every run, a client has been sent a resync if and only if some retry
  // found room in its queue.
  lemma {:induction false} ResyncSentIff(ms: seq<Move>, id: nat)
    requires Possible(START, ms) && id in After(START, ms).clients
    ensures Resync in Stream(After(START, ms).clients[id]) <==> ResyncSent(START, ms, id)
  {
    SentOverARun(START, ms, id);
  }

  // This client takes from its queue while some broadcast owes it a retry.
  ghost predicate DrainsWhileOwed(s: State, ms: seq<Move>, id: nat)
    requires Possible(s, ms)
    decreases |ms|
  {
    ms != [] &&
    ((ms[0] == Drain(id) && exists n | n in s.casts :: s.casts[n].retry == Some(id)) ||
     DrainsWhileOwed(Next(s, ms[0]).value, ms[1..], id))
  }

  // Whoever owes it a retry finds its queue as full as before.
  ghost predicate OwedIsFull(s: State, id: nat) {
    forall n | n in s.casts && s.casts[n].retry == Some(id) :: id in s.clients && !HasRoom(s.clients[id])
  }

  lemma {:induction false} MoveKeepsOwedFull(s: State, m: Move, t: State, id: nat)
    requires OwedIsFull(s, id) && Next(s, m) == Some(t)
    requires !(m == Drain(id) && exists n | n in s.casts :: s.casts[n].retry == Some(id))
    ensures OwedIsFull(t, id) && !SendsResync(s, m, id)
  {
    if m == Drain(id) {
      assert forall n | n in s.casts :: s.casts[n].retry != Some(id);
    }
  }

  lemma {:induction false} NoDrainNoResync(s: State, ms: seq<Move>, id: nat)
    requires OwedIsFull(s, id) && Possible(s, ms) && !DrainsWhileOwed(s, ms, id)
    ensures !ResyncSent(s, ms, id)
    decreases |ms|
  {
    if ms != [] {
      MoveKeepsOwedFull(s, ms[0], Next(s, ms[0]).value, id);
      NoDrainNoResync(Next(s, ms[0]).value, ms[1..], id);
    }
  }

  // The resync goes to the very queue that was just found full: a client that
  // has been sent one took something from its queue in between.
  lemma {:induction false} ResyncNeedsADrainInBetween(ms: seq<Move>, id: nat)
    requires Possible(START, ms) && id in After(START, ms).clients
    requires Resync in Stream(After(START, ms).clients[id])
    ensures DrainsWhileOwed(START, ms, id)
  {
    ResyncSentIff(ms, id);
    if !DrainsWhileOwed(START, ms, id) {
      NoDrainNoResync(START, ms, id);
    }
  }

  // ---------------------------------------------------------------------------
  // A client that is never told
  // ---------------------------------------------------------------------------

  // One whole broadcast with nothing else going on.
  lemma {:induction false} OneBroadcast(s: State, info: Info) returns (ms: seq<Move>)
    requires s.casts == map[]
    ensures Possible(s, ms)
    ensures After(s, ms) == s.(clients := AllOffered(s.clients, Interested(s.clients, info.origin), |s.begun|),
                               begun := s.begun + [info])
  {
    var n := |s.begun|;
    var m := Begin(info.caster, info.origin);
    var t := Next(s, m).value;
    var rest := UninterruptedBroadcast(t, n);
    ms := [m] + rest;
    FirstMove(s, m, t, rest);
    assert t.casts - {n} == s.casts;
  }

  function Events(n: nat): seq<Item> {
    if n == 0 then [] else Events(n - 1) + [Event(n - 1)]
  }

  lemma {:induction false} EventsAre(n: nat)
    ensures |Events(n)| == n && Resync !in Events(n)
    ensures forall k: nat :: Event(k) in Events(n) <==> k < n
  {
    if n > 0 {
      EventsAre(n - 1);
    }
  }

  function Sent(n: nat): nat {
    if n <= CLIENT_BUFFER then n else CLIENT_BUFFER
  }

  // A client that has taken nothing, after n broadcasts.
  function Stuck(n: nat): Client {
    Client("", [], Events(Sent(n)), 0, n > CLIENT_BUFFER)
  }

  lemma {:induction false} StuckOffered(n: nat)
    ensures Offered(Stuck(n), n) == Stuck(n + 1)
  {
    EventsAre(Sent(n));
  }

  ghost predicate Ignored(s: State, n: nat) {
    s.casts == map[] && |s.begun| == n && s.clients == map[1 := Stuck(n)]
  }

  lemma {:induction false} OneMoreIgnored(s: State, n: nat) returns (ms: seq<Move>)
    requires Ignored(s, n)
    ensures Possible(s, ms) && Ignored(After(s, ms), n + 1)
  {
    ms := OneBroadcast(s, Info(0, ""));
    StuckOffered(n);
    EverybodyOffered(s.clients, Stuck(n), n);
  }

  lemma {:induction false} EverybodyOffered(clients: map<nat, Client>, c: Client, n: nat)
    requires clients == map[1 := c]
    ensures AllOffered(clients, Interested(clients, ""), n) == map[1 := Offered(c, n)]
  {
    assert Interested(clients, "") == {1};
  }

  lemma {:induction false} IgnoredRun(n: nat) returns (ms: seq<Move>)
    ensures Possible(START, ms) && Ignored(After(START, ms), n)
    decreases n
  {
    if n == 0 {
      var t := Next(START, Connect("")).value;
      FirstMove(START, Connect(""), t, []);
      ms := [Connect("")] + [];
    } else {
      var before := IgnoredRun(n - 1);
      var last := OneMoreIgnored(After(START, before), n - 1);
      RunsJoin(START, before, last);
      ms := before + last;
    }
  }

  // However many broadcasts come, a client that takes nothing from its queue
  // misses all but the first 64 and is not told so.
  lemma {:induction false} MissedAndNeverTold(n: nat) returns (ms: seq<Move>)
    requires n > 64
    ensures Possible(START, ms) && 1 in After(START, ms).clients
    ensures var c := After(START, ms).clients[1];
            && |After(START, ms).begun| == n && After(START, ms).casts == map[]
            && c.full && c.since == 0 && c.delivered == []
            && Resync !in Stream(c)
            && forall k: nat :: Event(k) in Stream(c) <==> k < 64
  {
    ms := IgnoredRun(n);
    StuckAt64(After(START, ms), n, CLIENT_BUFFER);
  }

  lemma {:induction false} StuckAt64(s: State, n: nat, sent: nat)
    requires Ignored(s, n) && n > sent == CLIENT_BUFFER
    ensures 1 in s.clients && s.clients[1].full && s.clients[1].since == 0 && s.clients[1].delivered == []
    ensures Resync !in Stream(s.clients[1])
    ensures forall k: nat :: Event(k) in Stream(s.clients[1]) <==> k < sent
  {
    NothingElseSent(s.clients[1], sent);
  }

  lemma {:induction false} NothingElseSent(c: Client, sent: nat)
    requires c.delivered == [] && c.queue == Events(sent)
    ensures Resync !in Stream(c)
    ensures forall k: nat :: Event(k) in Stream(c) <==> k < sent
  {
    EventsAre(sent);
    assert Stream(c) == c.queue;
  }
}
