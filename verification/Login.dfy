// internal/auth: the login limiter and the session table.
module Login {
  import opened Common

  // Nanoseconds, as time.Duration counts them.
  const SECOND := 1_000_000_000
  const SESSION_TTL := 30 * 24 * 3600 * SECOND
  const LOGIN_WINDOW := 15 * 60 * SECOND
  const LOGIN_MAX_TRIES := 10

  datatype Bucket = Bucket(count: int, reset: int)

  datatype State = State(sessions: map<string, int>, attempts: map<string, Bucket>)

  // ---------------------------------------------------------------------------
  // One critical section at a time
  // ---------------------------------------------------------------------------

  predicate Allowed(attempts: map<string, Bucket>, ip: string, now: int) {
    ip !in attempts || now > attempts[ip].reset || attempts[ip].count < LOGIN_MAX_TRIES
  }

  function Attempted(attempts: map<string, Bucket>, ip: string, now: int): map<string, Bucket> {
    if ip !in attempts || now > attempts[ip].reset then attempts[ip := Bucket(1, now + LOGIN_WINDOW)]
    else if attempts[ip].count >= LOGIN_MAX_TRIES then attempts
    else attempts[ip := attempts[ip].(count := attempts[ip].count + 1)]
  }

  predicate SessionOk(sessions: map<string, int>, token: string, now: int) {
    token != "" && token in sessions && now <= sessions[token]
  }

  function Unexpired(sessions: map<string, int>, now: int): map<string, int> {
    map k | k in sessions && now <= sessions[k] :: sessions[k]
  }

  function OpenBuckets(attempts: map<string, Bucket>, now: int): map<string, Bucket> {
    map k | k in attempts && now <= attempts[k].reset :: attempts[k]
  }

  datatype LoginError = RateLimited | BadCredentials | Internal

  class Manager {
    var sessions: map<string, int>
    var attempts: map<string, Bucket>

    constructor ()
      ensures sessions == map[] && attempts == map[]
    {
      sessions, attempts := map[], map[];
    }

    method AllowAttempt(ip: string, now: int) returns (ok: bool)
      modifies this
      ensures ok <==> Allowed(old(attempts), ip, now)
      ensures attempts == Attempted(old(attempts), ip, now) && sessions == old(sessions)
      ensures !ok <==> ip in old(attempts) && now <= old(attempts)[ip].reset && old(attempts)[ip].count >= 10
      ensures !ok ==> attempts == old(attempts)
      ensures ok ==> ip in attempts && attempts == old(attempts)[ip := attempts[ip]]
      ensures ok && ip in old(attempts) && now <= old(attempts)[ip].reset ==>
                attempts[ip] == Bucket(old(attempts)[ip].count + 1, old(attempts)[ip].reset)
      ensures ok && !(ip in old(attempts) && now <= old(attempts)[ip].reset) ==>
                attempts[ip] == Bucket(1, now + 900 * SECOND)
    {
      if ip !in attempts || now > attempts[ip].reset {
        attempts := attempts[ip := Bucket(1, now + LOGIN_WINDOW)];
        return true;
      }
      var b := attempts[ip];
      if b.count >= LOGIN_MAX_TRIES {
        return false;
      }
      attempts := attempts[ip := b.(count := b.count + 1)];
      return true;
    }

    method ResetAttempts(ip: string)
      modifies this
      ensures attempts == old(attempts) - {ip} && sessions == old(sessions)
    {
      attempts := attempts - {ip};
    }

    // `verified` is what argon2 says of the password, None when the stored hash
    // cannot be read; `raw` is 32 random bytes in hex.
    // The limiter, the password check and the session take the lock one after
    // another; `later` is the clock when the session is stored.
    method Login(ip: string, verified: Option<bool>, raw: string, now: int, later: int)
      returns (r: Result<string, LoginError>)
      modifies this
      ensures r == Failure(RateLimited) <==>
              ip in old(attempts) && now <= old(attempts)[ip].reset && old(attempts)[ip].count >= 10
      ensures r.Success? <==> Allowed(old(attempts), ip, now) && verified == Some(true)
      ensures r.Failure? ==> sessions == old(sessions) && attempts == Attempted(old(attempts), ip, now)
      ensures r.Success? ==> r.value == raw && sessions == old(sessions)[raw := later + 2_592_000 * SECOND]
      ensures r.Success? ==> attempts == old(attempts) - {ip}
    {
      var ok := AllowAttempt(ip, now);
      if !ok {
        return Failure(RateLimited);
      }
      if verified.None? {
        return Failure(Internal);
      }
      if !verified.value {
        return Failure(BadCredentials);
      }
      ResetAttempts(ip);
      assert attempts == old(attempts) - {ip};
      sessions := sessions[raw := later + SESSION_TTL];
      return Success(raw);
    }

    method Logout(token: string)
      modifies this
      ensures sessions == old(sessions) - {token} && attempts == old(attempts)
    {
      sessions := sessions - {token};
    }

    method ValidSession(token: string, now: int) returns (ok: bool)
      modifies this
      ensures ok <==> token != "" && token in old(sessions) && now <= old(sessions)[token]
      ensures sessions ==
              if token != "" && token in old(sessions) && !ok then old(sessions) - {token} else old(sessions)
      ensures attempts == old(attempts)
    {
      if token == "" {
        return false;
      }
      if token !in sessions {
        return false;
      }
      if now > sessions[token] {
        sessions := sessions - {token};
        return false;
      }
      return true;
    }

    // One pass of the hourly collector.
    method Gc(now: int)
      modifies this
      ensures sessions == map k | k in old(sessions) && now <= old(sessions)[k] :: old(sessions)[k]
      ensures attempts == map k | k in old(attempts) && now <= old(attempts)[k].reset :: old(attempts)[k]
    {
      var toks := sessions.Keys;
      while toks != {}
        invariant toks <= old(sessions).Keys
        invariant attempts == old(attempts)
        invariant sessions == map k | k in old(sessions) && (k in toks || now <= old(sessions)[k]) :: old(sessions)[k]
        decreases toks
      {
        var tok :| tok in toks;
        toks := toks - {tok};
        if now > sessions[tok] {
          sessions := sessions - {tok};
        }
      }
      var ips := attempts.Keys;
      while ips != {}
        invariant ips <= old(attempts).Keys
        invariant sessions == Unexpired(old(sessions), now)
        invariant attempts ==
                  map k | k in old(attempts) && (k in ips || now <= old(attempts)[k].reset) :: old(attempts)[k]
        decreases ips
      {
        var ip :| ip in ips;
        ips := ips - {ip};
        if now > attempts[ip].reset {
          attempts := attempts - {ip};
        }
      }
    }
  }

  // ---------------------------------------------------------------------------
  // Runs
  // ---------------------------------------------------------------------------

  // Login is an Attempt, then on success a Reset and an Issue; other requests
  // may come between.
  datatype Event =
    | Attempt(ip: string)
    | Reset(ip: string)
    | Issue(token: string)
    | Logout(token: string)
    | Check(token: string)
    | Gc

  datatype At = At(event: Event, now: int)

  function Next(s: State, e: Event, now: int): State {
    match e
    case Attempt(ip) => s.(attempts := Attempted(s.attempts, ip, now))
    case Reset(ip) => s.(attempts := s.attempts - {ip})
    case Issue(token) => s.(sessions := s.sessions[token := now + SESSION_TTL])
    case Logout(token) => s.(sessions := s.sessions - {token})
    case Check(token) =>
      if token != "" && token in s.sessions && now > s.sessions[token] then s.(sessions := s.sessions - {token}) else s
    case Gc => State(Unexpired(s.sessions, now), OpenBuckets(s.attempts, now))
  }

  // What the caller is told; events that answer nothing give the empty sequence.
  function Answer(s: State, e: Event, now: int): seq<bool> {
    match e
    case Attempt(ip) => [Allowed(s.attempts, ip, now)]
    case Check(token) => [SessionOk(s.sessions, token, now)]
    case _ => []
  }

  const START := State(map[], map[])

  function After(es: seq<At>): State {
    if es == [] then START
    else Next(After(es[..|es|-1]), es[|es|-1].event, es[|es|-1].now)
  }

  function Answers(es: seq<At>): seq<bool> {
    if es == [] then []
    else Answers(es[..|es|-1]) + Answer(After(es[..|es|-1]), es[|es|-1].event, es[|es|-1].now)
  }

  // time.Now carries a monotonic reading.  The collector reads it before it
  // takes the lock, so it may act with an earlier time than what it follows.
  predicate Monotone(es: seq<At>) {
    forall i, j | 0 <= i < j < |es| && !es[j].event.Gc? :: es[i].now <= es[j].now
  }

  predicate NoLaterThan(es: seq<At>, now: int) {
    forall i | 0 <= i < |es| :: es[i].now <= now
  }

  // ---------------------------------------------------------------------------
  // The collector cannot be noticed
  // ---------------------------------------------------------------------------

  function WithoutGc(es: seq<At>): seq<At> {
    if es == [] then []
    else WithoutGc(es[..|es|-1]) + if es[|es|-1].event.Gc? then [] else [es[|es|-1]]
  }

  // Equal but for entries that no longer count at this time.
  ghost predicate Same(a: State, b: State, now: int) {
    && Unexpired(a.sessions, now) == Unexpired(b.sessions, now)
    && OpenBuckets(a.attempts, now) == OpenBuckets(b.attempts, now)
  }

  lemma SameLater(a: State, b: State, now: int, later: int)
    requires Same(a, b, now) && now <= later
    ensures Same(a, b, later)
  {
    forall k
      ensures k in Unexpired(a.sessions, later) <==> k in Unexpired(b.sessions, later)
      ensures k in Unexpired(a.sessions, later) ==> a.sessions[k] == b.sessions[k]
    {
      assert k in Unexpired(a.sessions, now) <==> k in Unexpired(b.sessions, now);
      if k in Unexpired(a.sessions, now) {
        assert Unexpired(a.sessions, now)[k] == Unexpired(b.sessions, now)[k];
      }
    }
    forall k
      ensures k in OpenBuckets(a.attempts, later) <==> k in OpenBuckets(b.attempts, later)
      ensures k in OpenBuckets(a.attempts, later) ==> a.attempts[k] == b.attempts[k]
    {
      assert k in OpenBuckets(a.attempts, now) <==> k in OpenBuckets(b.attempts, now);
      if k in OpenBuckets(a.attempts, now) {
        assert OpenBuckets(a.attempts, now)[k] == OpenBuckets(b.attempts, now)[k];
      }
    }
  }

  lemma SameEntries(a: State, b: State, now: int, k: string)
    requires Same(a, b, now)
    ensures (k in a.sessions && now <= a.sessions[k]) <==> (k in b.sessions && now <= b.sessions[k])
    ensures k in a.sessions && now <= a.sessions[k] ==> a.sessions[k] == b.sessions[k]
    ensures (k in a.attempts && now <= a.attempts[k].reset) <==> (k in b.attempts && now <= b.attempts[k].reset)
    ensures k in a.attempts && now <= a.attempts[k].reset ==> a.attempts[k] == b.attempts[k]
  {
    assert k in Unexpired(a.sessions, now) <==> k in Unexpired(b.sessions, now);
    assert k in OpenBuckets(a.attempts, now) <==> k in OpenBuckets(b.attempts, now);
    if k in Unexpired(a.sessions, now) {
      assert Unexpired(a.sessions, now)[k] == Unexpired(b.sessions, now)[k];
    }
    if k in OpenBuckets(a.attempts, now) {
      assert OpenBuckets(a.attempts, now)[k] == OpenBuckets(b.attempts, now)[k];
    }
  }

  lemma SameStep(a: State, b: State, e: Event, now: int)
    requires Same(a, b, now)
    ensures Answer(a, e, now) == Answer(b, e, now)
    ensures Same(Next(a, e, now), Next(b, e, now), now)
  {
    if e.Attempt? { SameEntries(a, b, now, e.ip); }
    if e.Check? { SameEntries(a, b, now, e.token); }
    SameSessions(a, b, e, now);
    SameBuckets(a, b, e, now);
  }

  lemma SameSessions(a: State, b: State, e: Event, now: int)
    requires Same(a, b, now)
    ensures Unexpired(Next(a, e, now).sessions, now) == Unexpired(Next(b, e, now).sessions, now)
  {
    var a', b' := Next(a, e, now).sessions, Next(b, e, now).sessions;
    forall k
      ensures k in Unexpired(a', now) <==> k in Unexpired(b', now)
      ensures k in Unexpired(a', now) ==> a'[k] == b'[k]
    {
      SameEntries(a, b, now, k);
    }
  }

  lemma SameBuckets(a: State, b: State, e: Event, now: int)
    requires Same(a, b, now)
    ensures OpenBuckets(Next(a, e, now).attempts, now) == OpenBuckets(Next(b, e, now).attempts, now)
  {
    var a', b' := Next(a, e, now).attempts, Next(b, e, now).attempts;
    forall k
      ensures k in OpenBuckets(a', now) <==> k in OpenBuckets(b', now)
      ensures k in OpenBuckets(a', now) ==> a'[k] == b'[k]
    {
      SameEntries(a, b, now, k);
    }
  }

  lemma GcIsSame(s: State, now: int)
    ensures Same(Next(s, Gc, now), s, now)
  {
    assert Unexpired(Next(s, Gc, now).sessions, now) == Unexpired(s.sessions, now);
    assert OpenBuckets(Next(s, Gc, now).attempts, now) == OpenBuckets(s.attempts, now);
  }

  // Taking every collector pass out of a run changes no answer in it.
  lemma {:induction false} GcChangesNoAnswer(es: seq<At>, now: int)
    requires Monotone(es) && NoLaterThan(es, now)
    ensures Answers(es) == Answers(WithoutGc(es))
    ensures Same(After(es), After(WithoutGc(es)), now)
  {
    if es != [] {
      var front, last := es[..|es|-1], es[|es|-1];
      var kept := WithoutGc(front);
      if last.event.Gc? {
        GcChangesNoAnswer(front, now);
        assert WithoutGc(es) == kept;
        GcThenSame(After(front), After(kept), last.now, now);
      } else {
        assert NoLaterThan(front, last.now);
        GcChangesNoAnswer(front, last.now);
        assert WithoutGc(es) == kept + [last];
        assert (kept + [last])[..|kept|] == kept;
        SameStep(After(front), After(kept), last.event, last.now);
        SameLater(After(es), After(WithoutGc(es)), last.now, now);
      }
    }
  }

  // A collector that read the clock earlier drops only what is over by now.
  lemma GcThenSame(s: State, s': State, read: int, now: int)
    requires Same(s, s', now) && read <= now
    ensures Same(Next(s, Gc, read), s', now)
  {
    GcIsSame(s, read);
    SameLater(Next(s, Gc, read), s, read, now);
  }

  // ---------------------------------------------------------------------------
  // Sessions
  // ---------------------------------------------------------------------------

  // When the token was last issued, unless it has been logged out since.
  function Issued(es: seq<At>, token: string): Option<int> {
    if es == [] then None
    else
      var last := es[|es|-1];
      if last.event == Issue(token) then Some(last.now)
      else if last.event == Logout(token) then None
      else Issued(es[..|es|-1], token)
  }

  // A token is accepted exactly when it was issued, has not been logged out,
  // and its thirty days are not over.
  lemma {:induction false} SessionsAreExact(es: seq<At>, token: string, now: int)
    requires Monotone(es) && NoLaterThan(es, now)
    ensures SessionOk(After(es).sessions, token, now) <==>
            token != "" && Issued(es, token).Some? && now <= Issued(es, token).value + 2_592_000 * SECOND
    ensures token in After(es).sessions ==> Issued(es, token) == Some(After(es).sessions[token] - SESSION_TTL)
  {
    if es != [] {
      var front, last := es[..|es|-1], es[|es|-1];
      SessionsAreExact(front, token, now);
      if !last.event.Gc? {
        assert NoLaterThan(front, last.now);
        SessionsAreExact(front, token, last.now);
      }
    }
  }

  // ---------------------------------------------------------------------------
  // How many attempts get through
  // ---------------------------------------------------------------------------

  // An attempt that was let through, and when its bucket was opened.
  datatype Grant = Grant(at: int, since: int)

  function Granted(s: State, e: At, ip: string): seq<Grant> {
    if e.event == Attempt(ip) && Allowed(s.attempts, ip, e.now)
    then [Grant(e.now, Attempted(s.attempts, ip, e.now)[ip].reset - LOGIN_WINDOW)]
    else []
  }

  function Grants(es: seq<At>, ip: string): seq<Grant> {
    if es == [] then []
    else Grants(es[..|es|-1], ip) + Granted(After(es[..|es|-1]), es[|es|-1], ip)
  }

  // The last c grants share a bucket, opened by the first of them; every
  // earlier one fell in a bucket opened more than a window before.
  ghost predicate LastBucket(g: seq<Grant>, c: int) {
    && 1 <= c <= LOGIN_MAX_TRIES && c <= |g|
    && g[|g|-c].at == g[|g|-c].since
    && (forall i | |g| - c <= i < |g| :: g[i].since == g[|g|-1].since)
    && (forall i | 0 <= i < |g| - c :: g[i].since + LOGIN_WINDOW < g[|g|-1].since)
  }

  // Ten grants further on a new bucket has been opened, and a bucket that
  // holds ten was opened by the first of them.
  ghost predicate Spaced(g: seq<Grant>) {
    && (forall i | 0 <= i < |g| :: g[i].since <= g[i].at <= g[i].since + LOGIN_WINDOW)
    && (forall i, j | 0 <= i <= j < |g| :: g[i].at <= g[j].at && g[i].since <= g[j].since)
    && (forall i, j | 0 <= i < j < |g| :: g[i].since == g[j].since || g[i].since + LOGIN_WINDOW < g[j].since)
    && (forall i | 0 <= i && i + LOGIN_MAX_TRIES < |g| :: g[i].since < g[i + LOGIN_MAX_TRIES].since)
    && (forall i | 0 <= i && i + LOGIN_MAX_TRIES - 1 < |g| ::
          g[i].since == g[i + LOGIN_MAX_TRIES - 1].since ==> g[i].at == g[i].since)
  }

  ghost predicate Explains(s: State, g: seq<Grant>, ip: string, now: int) {
    && Spaced(g)
    && (g == [] ==> ip !in s.attempts)
    && (g != [] ==>
          && g[|g|-1].at <= now
          && (ip in s.attempts ==>
                s.attempts[ip].reset == g[|g|-1].since + LOGIN_WINDOW && LastBucket(g, s.attempts[ip].count))
          && (ip !in s.attempts ==> now > g[|g|-1].since + LOGIN_WINDOW))
  }

  // What one more attempt has to meet next to those before it.
  ghost predicate Follows(g: seq<Grant>, x: Grant) {
    && x.since <= x.at <= x.since + LOGIN_WINDOW
    && (forall i | 0 <= i < |g| :: g[i].at <= x.at && g[i].since <= x.since)
    && (forall i | 0 <= i < |g| :: g[i].since == x.since || g[i].since + LOGIN_WINDOW < x.since)
    && (forall i | 0 <= i && i + LOGIN_MAX_TRIES == |g| :: g[i].since < x.since)
    && (forall i | 0 <= i && i + LOGIN_MAX_TRIES - 1 == |g| :: g[i].since == x.since ==> g[i].at == g[i].since)
  }

  lemma SpacedGrows(g: seq<Grant>, x: Grant, g': seq<Grant>)
    requires Spaced(g) && Follows(g, x) && g' == g + [x]
    ensures Spaced(g')
  {
    assert forall i | 0 <= i < |g| :: g'[i] == g[i];
  }

  lemma OpenBucket(g: seq<Grant>, now: int, g': seq<Grant>)
    requires Spaced(g) && g' == g + [Grant(now, now)]
    requires g != [] ==> now > g[|g|-1].since + LOGIN_WINDOW && g[|g|-1].at <= now
    ensures Spaced(g') && LastBucket(g', 1)
  {
    assert Follows(g, Grant(now, now));
    SpacedGrows(g, Grant(now, now), g');
  }

  lemma FillBucket(g: seq<Grant>, c: int, now: int, g': seq<Grant>)
    requires Spaced(g) && LastBucket(g, c) && c < LOGIN_MAX_TRIES
    requires g[|g|-1].at <= now <= g[|g|-1].since + LOGIN_WINDOW
    requires g' == g + [Grant(now, g[|g|-1].since)]
    ensures Spaced(g') && LastBucket(g', c + 1)
  {
    var x := Grant(now, g[|g|-1].since);
    assert Follows(g, x);
    SpacedGrows(g, x, g');
    BucketGrows(g, c, x, g');
  }

  lemma BucketGrows(g: seq<Grant>, c: int, x: Grant, g': seq<Grant>)
    requires LastBucket(g, c) && c < LOGIN_MAX_TRIES && x.since == g[|g|-1].since && g' == g + [x]
    ensures LastBucket(g', c + 1)
  {
    assert forall i | 0 <= i < |g| :: g'[i] == g[i];
    assert |g'| - (c + 1) == |g| - c;
  }

  lemma NewBucketExplains(s: State, s': State, g: seq<Grant>, g': seq<Grant>, ip: string, now: int)
    requires Explains(s, g, ip, now)
    requires ip !in s.attempts || now > s.attempts[ip].reset
    requires ip in s'.attempts && s'.attempts[ip] == Bucket(1, now + LOGIN_WINDOW) && g' == g + [Grant(now, now)]
    ensures Explains(s', g', ip, now)
  {
    OpenBucket(g, now, g');
  }

  lemma FullerBucketExplains(s: State, s': State, g: seq<Grant>, g': seq<Grant>, ip: string, now: int)
    requires Explains(s, g, ip, now)
    requires ip in s.attempts && now <= s.attempts[ip].reset && s.attempts[ip].count < LOGIN_MAX_TRIES
    requires ip in s'.attempts && s'.attempts[ip] == Bucket(s.attempts[ip].count + 1, s.attempts[ip].reset)
    requires g' == g + [Grant(now, s.attempts[ip].reset - LOGIN_WINDOW)]
    ensures Explains(s', g', ip, now)
  {
    FillBucket(g, s.attempts[ip].count, now, g');
  }

  lemma UntouchedExplains(s: State, s': State, g: seq<Grant>, ip: string, now: int)
    requires Explains(s, g, ip, now)
    requires ip in s'.attempts ==> ip in s.attempts && s'.attempts[ip] == s.attempts[ip]
    requires ip in s.attempts && ip !in s'.attempts ==> now > s.attempts[ip].reset
    ensures Explains(s', g, ip, now)
  {
  }

  // What an event does to the buckets of one address.
  lemma GrantStep(s: State, s': State, g: seq<Grant>, g': seq<Grant>, e: At, ip: string)
    requires Explains(s, g, ip, e.now) && e.event != Reset(ip)
    requires s' == Next(s, e.event, e.now) && g' == g + Granted(s, e, ip)
    ensures Explains(s', g', ip, e.now)
  {
    if !(e.event == Attempt(ip) && Allowed(s.attempts, ip, e.now)) {
      OtherEvents(s, e.event, ip, e.now);
      assert g' == g;
      UntouchedExplains(s, s', g, ip, e.now);
    } else {
      GrantingEvent(s, e, ip);
      if ip in s.attempts && e.now <= s.attempts[ip].reset {
        FullerBucketExplains(s, s', g, g', ip, e.now);
      } else {
        NewBucketExplains(s, s', g, g', ip, e.now);
      }
    }
  }

  lemma GrantingEvent(s: State, e: At, ip: string)
    requires e.event == Attempt(ip) && Allowed(s.attempts, ip, e.now)
    ensures var a := Next(s, e.event, e.now).attempts;
            && ip in a
            && Granted(s, e, ip) == [Grant(e.now, a[ip].reset - LOGIN_WINDOW)]
            && a[ip] == if ip in s.attempts && e.now <= s.attempts[ip].reset
                        then Bucket(s.attempts[ip].count + 1, s.attempts[ip].reset)
                        else Bucket(1, e.now + LOGIN_WINDOW)
  {
  }

  lemma OtherEvents(s: State, e: Event, ip: string, now: int)
    requires e != Reset(ip) && !(e == Attempt(ip) && Allowed(s.attempts, ip, now))
    ensures var s' := Next(s, e, now);
            && (ip in s'.attempts ==> ip in s.attempts && s'.attempts[ip] == s.attempts[ip])
            && (ip in s.attempts && ip !in s'.attempts ==> now > s.attempts[ip].reset)
  {
  }

  lemma ExplainsLater(s: State, g: seq<Grant>, ip: string, now: int, later: int)
    requires Explains(s, g, ip, now) && now <= later
    ensures Explains(s, g, ip, later)
  {
  }

  lemma GcExplains(s: State, g: seq<Grant>, ip: string, read: int, now: int)
    requires Explains(s, g, ip, now) && read <= now
    ensures Explains(Next(s, Gc, read), g, ip, now)
  {
    OtherEvents(s, Gc, ip, read);
    UntouchedExplains(s, Next(s, Gc, read), g, ip, now);
  }

  lemma {:induction false} Latest(es: seq<At>) returns (now: int)
    ensures NoLaterThan(es, now)
  {
    if es == [] {
      now := 0;
    } else {
      var front := Latest(es[..|es|-1]);
      now := if front < es[|es|-1].now then es[|es|-1].now else front;
    }
  }

  lemma {:induction false} GrantsExplained(es: seq<At>, ip: string, now: int)
    requires Monotone(es) && NoLaterThan(es, now)
    requires forall i | 0 <= i < |es| :: es[i].event != Reset(ip)
    ensures Explains(After(es), Grants(es, ip), ip, now)
  {
    if es != [] {
      var front, last := es[..|es|-1], es[|es|-1];
      if last.event.Gc? {
        GrantsExplained(front, ip, now);
        GcExplains(After(front), Grants(front, ip), ip, last.now, now);
        assert Grants(es, ip) == Grants(front, ip);
      } else {
        assert NoLaterThan(front, last.now);
        GrantsExplained(front, ip, last.now);
        GrantStep(After(front), After(es), Grants(front, ip), Grants(es, ip), last, ip);
        ExplainsLater(After(es), Grants(es, ip), ip, last.now, now);
      }
    }
  }

  // Nineteen grants further on, more than a window has passed: of two buckets
  // met within one window, the first was opened before it.
  lemma NineteenApart(g: seq<Grant>, i: int, j: int)
    requires Spaced(g) && 0 <= i && i + 2 * LOGIN_MAX_TRIES - 1 <= j < |g|
    ensures g[j].at > g[i].at + LOGIN_WINDOW
  {
    var k := i + LOGIN_MAX_TRIES - 1;
    assert g[i].since < g[i + LOGIN_MAX_TRIES].since;
    assert g[k].since < g[k + LOGIN_MAX_TRIES].since;
    assert g[k + LOGIN_MAX_TRIES].at <= g[j].at;
  }

  function Range(m: int, n: nat): set<int> {
    if n == 0 then {} else Range(m, n - 1) + {m + n - 1}
  }

  lemma {:induction false} RangeSize(m: int, n: nat)
    ensures |Range(m, n)| == n
    ensures forall i :: i in Range(m, n) <==> m <= i < m + n
  {
    if n > 0 {
      RangeSize(m, n - 1);
    }
  }

  function GrantedWithin(g: seq<Grant>, from: int): set<int> {
    set i | 0 <= i < |g| && from <= g[i].at <= from + 900 * SECOND
  }

  // From one address, with no login succeeding, any closed interval of fifteen
  // minutes sees at most nineteen attempts let through: two buckets of ten, of
  // which the first must have been opened before the interval began.
  lemma {:induction false} AttemptsPerWindow(es: seq<At>, ip: string, from: int)
    requires Monotone(es)
    requires forall i | 0 <= i < |es| :: es[i].event != Reset(ip)
    ensures |GrantedWithin(Grants(es, ip), from)| <= 19
  {
    var g := Grants(es, ip);
    var now := Latest(es);
    GrantsExplained(es, ip, now);
    var inside := GrantedWithin(g, from);
    if inside != {} {
      var first := 0;
      while first !in inside && first < |g|
        invariant 0 <= first <= |g|
        invariant forall k | 0 <= k < first :: k !in inside
      {
        first := first + 1;
      }
      RangeSize(first, 2 * LOGIN_MAX_TRIES - 1);
      forall i | i in inside
        ensures i in Range(first, 2 * LOGIN_MAX_TRIES - 1)
      {
        if i >= first + 2 * LOGIN_MAX_TRIES - 1 {
          NineteenApart(g, first, i);
        }
      }
      SubsetSize(inside, Range(first, 2 * LOGIN_MAX_TRIES - 1));
    }
  }

  // Nobody is kept out for less: an attempt is refused only when ten were let
  // through in the fifteen minutes before it.
  lemma {:induction false} RefusedAfterTen(es: seq<At>, ip: string, now: int)
    requires Monotone(es) && NoLaterThan(es, now)
    requires forall i | 0 <= i < |es| :: es[i].event != Reset(ip)
    requires !Allowed(After(es).attempts, ip, now)
    ensures |GrantedWithin(Grants(es, ip), now - 900 * SECOND)| >= 10
  {
    var g := Grants(es, ip);
    GrantsExplained(es, ip, now);
    var first := |g| - LOGIN_MAX_TRIES;
    RangeSize(first, LOGIN_MAX_TRIES);
    forall i | i in Range(first, LOGIN_MAX_TRIES)
      ensures i in GrantedWithin(g, now - 900 * SECOND)
    {
      assert g[i].since == g[|g|-1].since && g[i].since <= g[i].at <= g[|g|-1].at;
    }
    SubsetSize(Range(first, LOGIN_MAX_TRIES), GrantedWithin(g, now - 900 * SECOND));
  }

  // ---------------------------------------------------------------------------
  // Nineteen do get through
  // ---------------------------------------------------------------------------

  function Burst(ip: string, n: nat, at: int): seq<At> {
    if n == 0 then [] else Burst(ip, n - 1, at) + [At(Attempt(ip), at)]
  }

  lemma {:induction false} OneMore(es: seq<At>, e: At, ip: string)
    ensures After(es + [e]) == Next(After(es), e.event, e.now)
    ensures Grants(es + [e], ip) == Grants(es, ip) + Granted(After(es), e, ip)
  {
    var longer := es + [e];
    assert longer[..|longer|-1] == es;
  }

  function Copies(n: nat, g: Grant): seq<Grant> {
    if n == 0 then [] else Copies(n - 1, g) + [g]
  }

  lemma {:induction false} OneMoreGrant(es: seq<At>, ip: string, at: int)
    requires Allowed(After(es).attempts, ip, at)
    ensures var longer := es + [At(Attempt(ip), at)];
            var was := After(es).attempts;
            && ip in After(longer).attempts
            && After(longer).attempts[ip] ==
               (if ip in was && at <= was[ip].reset then Bucket(was[ip].count + 1, was[ip].reset)
                else Bucket(1, at + LOGIN_WINDOW))
            && Grants(longer, ip) == Grants(es, ip) + [Grant(at, After(longer).attempts[ip].reset - LOGIN_WINDOW)]
  {
    OneMore(es, At(Attempt(ip), at), ip);
    GrantingEvent(After(es), At(Attempt(ip), at), ip);
  }

  ghost predicate Reached(es: seq<At>, ip: string, b: Bucket, g: seq<Grant>) {
    ip in After(es).attempts && After(es).attempts[ip] == b && Grants(es, ip) == g
  }

  lemma {:induction false} OneMoreReached(es: seq<At>, es': seq<At>, ip: string, at: int, b: Bucket,
                                          g: seq<Grant>, g': seq<Grant>)
    requires Reached(es, ip, b, g) && at <= b.reset && b.count < LOGIN_MAX_TRIES
    requires es' == es + [At(Attempt(ip), at)] && g' == g + [Grant(at, b.reset - LOGIN_WINDOW)]
    ensures Reached(es', ip, Bucket(b.count + 1, b.reset), g')
  {
    OneMoreGrant(es, ip, at);
  }

  lemma {:induction false} NewBucketReached(es: seq<At>, es': seq<At>, ip: string, at: int, b: Bucket,
                                            g: seq<Grant>, g': seq<Grant>)
    requires Reached(es, ip, b, g) && at > b.reset
    requires es' == es + [At(Attempt(ip), at)] && g' == g + [Grant(at, at)]
    ensures Reached(es', ip, Bucket(1, at + LOGIN_WINDOW), g')
  {
    OneMoreGrant(es, ip, at);
  }

  // Attempts made together are let through while their bucket has room.
  lemma {:induction false} BurstFills(es: seq<At>, es': seq<At>, ip: string, n: nat, at: int, b: Bucket,
                                      g: seq<Grant>, g': seq<Grant>)
    requires Reached(es, ip, b, g)
    requires at <= b.reset && b.count + n <= LOGIN_MAX_TRIES
    requires es' == es + Burst(ip, n, at) && g' == g + Copies(n, Grant(at, b.reset - LOGIN_WINDOW))
    ensures Reached(es', ip, Bucket(b.count + n, b.reset), g')
    decreases n
  {
    if n == 0 {
      assert es' == es && g' == g;
    } else {
      var some := Grant(at, b.reset - LOGIN_WINDOW);
      var shorter, fewer := es + Burst(ip, n - 1, at), g + Copies(n - 1, some);
      BurstFills(es, shorter, ip, n - 1, at, b, g, fewer);
      assert es' == shorter + [At(Attempt(ip), at)];
      assert g' == fewer + [some];
      OneMoreReached(shorter, es', ip, at, Bucket(b.count + (n - 1), b.reset), fewer, g');
    }
  }

  // A successful login wipes the slate: whatever came before, ten attempts made
  // after it are let through.
  lemma {:induction false} ResetGivesTenMore(es: seq<At>, ip: string, at: int) returns (longer: seq<At>)
    ensures longer == es + [At(Reset(ip), at)] + [At(Attempt(ip), at)] + Burst(ip, 9, at)
    ensures Grants(longer, ip) == Grants(es, ip) + Copies(10, Grant(at, at))
  {
    var e0 := es + [At(Reset(ip), at)];
    OneMore(es, At(Reset(ip), at), ip);
    assert Grants(e0, ip) == Grants(es, ip);
    var e1 := e0 + [At(Attempt(ip), at)];
    OneMoreGrant(e0, ip, at);
    var g1 := Grants(es, ip) + [Grant(at, at)];
    longer := e1 + Burst(ip, 9, at);
    BurstFills(e1, longer, ip, 9, at, Bucket(1, at + LOGIN_WINDOW), g1, g1 + Copies(9, Grant(at, at)));
    OneThenMore(9, Grant(at, at));
    Regrouped(Grants(es, ip), [Grant(at, at)], Copies(9, Grant(at, at)));
  }

  lemma {:induction false} OneThenMore(n: nat, g: Grant)
    ensures [g] + Copies(n, g) == Copies(n + 1, g)
  {
    if n > 0 {
      OneThenMore(n - 1, g);
      Regrouped([g], Copies(n - 1, g), [g]);
    } else {
      assert [g] + Copies(0, g) == Copies(0, g) + [g];
    }
  }

  predicate OnlyAttempts(es: seq<At>, ip: string) {
    forall i | 0 <= i < |es| :: es[i].event == Attempt(ip)
  }

  // One attempt opens a bucket, nine fill it as its window ends, and ten more
  // follow just after: nineteen of the twenty fall within fifteen minutes.
  lemma {:induction false} NineteenGetThrough(ip: string) returns (es: seq<At>)
    ensures OnlyAttempts(es, ip) && Monotone(es)
    ensures |GrantedWithin(Grants(es, ip), 1)| == 19
  {
    var w := LOGIN_WINDOW;
    var b1, b2 := Burst(ip, 9, w), Burst(ip, 9, w + 1);
    var e0, g0 := [At(Attempt(ip), 0)], [Grant(0, 0)];
    FirstReached(ip, e0, g0);
    var e1, g1 := e0 + b1, g0 + Copies(9, Grant(w, 0));
    BurstFills(e0, e1, ip, 9, w, Bucket(1, w), g0, g1);
    var e2, g2 := e1 + [At(Attempt(ip), w + 1)], g1 + [Grant(w + 1, w + 1)];
    NewBucketReached(e1, e2, ip, w + 1, Bucket(10, w), g1, g2);
    var g := g2 + Copies(9, Grant(w + 1, w + 1));
    es := e2 + b2;
    BurstFills(e2, es, ip, 9, w + 1, Bucket(1, w + 1 + w), g2, g);
    NineteenOfTwenty(g);
    BurstEvents(ip, 9, w);
    BurstEvents(ip, 9, w + 1);
    OrderOfBursts(ip, es, b1, b2);
  }

  lemma {:induction false} OrderOfBursts(ip: string, es: seq<At>, b1: seq<At>, b2: seq<At>)
    requires es == [At(Attempt(ip), 0)] + b1 + [At(Attempt(ip), LOGIN_WINDOW + 1)] + b2
    requires forall i | 0 <= i < |b1| :: b1[i] == At(Attempt(ip), LOGIN_WINDOW)
    requires forall i | 0 <= i < |b2| :: b2[i] == At(Attempt(ip), LOGIN_WINDOW + 1)
    ensures OnlyAttempts(es, ip) && Monotone(es)
  {
  }

  lemma {:induction false} FirstReached(ip: string, es: seq<At>, g: seq<Grant>)
    requires es == [At(Attempt(ip), 0)] && g == [Grant(0, 0)]
    ensures Reached(es, ip, Bucket(1, LOGIN_WINDOW), g)
  {
    OneMoreGrant([], ip, 0);
    assert [] + es == es;
  }

  lemma {:induction false} NineteenOfTwenty(g: seq<Grant>)
    requires g == [Grant(0, 0)] + Copies(9, Grant(LOGIN_WINDOW, 0)) + [Grant(LOGIN_WINDOW + 1, LOGIN_WINDOW + 1)] +
                  Copies(9, Grant(LOGIN_WINDOW + 1, LOGIN_WINDOW + 1))
    ensures |GrantedWithin(g, 1)| == 2 * LOGIN_MAX_TRIES - 1
  {
    CopiesAt(9, Grant(LOGIN_WINDOW, 0));
    CopiesAt(9, Grant(LOGIN_WINDOW + 1, LOGIN_WINDOW + 1));
    AllButTheFirst(g, 1, |g| - 1);
  }

  lemma {:induction false} AllButTheFirst(g: seq<Grant>, from: int, n: nat)
    requires |g| == n + 1
    requires forall i | 0 <= i < |g| :: 1 <= i <==> from <= g[i].at <= from + LOGIN_WINDOW
    ensures |GrantedWithin(g, from)| == n
  {
    RangeSize(1, n);
    assert GrantedWithin(g, from) == Range(1, n);
  }

  lemma {:induction false} CopiesAt(n: nat, g: Grant)
    ensures |Copies(n, g)| == n && forall i | 0 <= i < n :: Copies(n, g)[i] == g
  {
    if n > 0 { CopiesAt(n - 1, g); }
  }

  lemma {:induction false} BurstEvents(ip: string, n: nat, at: int)
    ensures forall i | 0 <= i < |Burst(ip, n, at)| :: Burst(ip, n, at)[i] == At(Attempt(ip), at)
  {
    if n > 0 { BurstEvents(ip, n - 1, at); }
  }
}
