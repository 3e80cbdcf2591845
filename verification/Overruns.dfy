// Runs that meet the bounds on share downloads: for every cap and every number
// of downloads under way there is one that counts exactly as many as the bound
// allows.
module Overruns {
  import opened Common
  import opened Schema
  import opened Shares

  ghost predicate Reaches(d: Traffic, es: seq<At>, d': Traffic, s: Id, k: nat) {
    Possible(d, es, s, k) && After(d, es, s, k) == d'
  }

  lemma {:induction false} OneEvent(d: Traffic, e: At, d': Traffic, s: Id, k: nat)
    requires CapsArePositive(e.event) && Next(d, e.event, e.now) == Some(d')
    requires |InFlightOf(d, s)| <= k && |InFlightOf(d', s)| <= k
    ensures Reaches(d, [e], d', s, k)
  {
    assert [e][1..] == [];
    assert Possible(d', [], s, k) && After(d', [], s, k) == d';
  }

  lemma {:induction false} Join(d: Traffic, a: seq<At>, m: Traffic, b: seq<At>, d': Traffic, s: Id, k: nat)
    requires Reaches(d, a, m, s, k) && Reaches(m, b, d', s, k)
    ensures Reaches(d, a + b, d', s, k)
    decreases |a|
  {
    if a == [] {
      assert a + b == b;
    } else {
      assert (a + b)[0] == a[0] && (a + b)[1..] == a[1..] + b;
      Join(Next(d, a[0].event, a[0].now).value, a[1..], m, b, d', s, k);
    }
  }

  // Requests 0 to n - 1, all for the share s.
  function Flights(n: nat, s: Id): (m: map<nat, Id>)
    ensures forall r: nat :: r in m <==> r < n
    ensures forall r | r in m :: m[r] == s
  {
    if n == 0 then map[] else Flights(n - 1, s)[n - 1 := s]
  }

  lemma {:induction false} FlightCount(t: Tables, n: nat, s: Id)
    ensures |InFlightOf(Traffic(t, Flights(n, s)), s)| == n
  {
    var d := Traffic(t, Flights(n, s));
    if n == 0 {
      assert InFlightOf(d, s) == {};
    } else {
      FlightCount(t, n - 1, s);
      EnterFlight(Traffic(t, Flights(n - 1, s)), d, n - 1, s, s);
    }
  }

  // n requests resolve before any of them records.
  lemma {:induction false} ResolveMany(t: Tables, s: Id, n: nat, k: nat, now: int) returns (es: seq<At>)
    requires Serves(t, s, now) && n <= k
    ensures Reaches(Traffic(t, map[]), es, Traffic(t, Flights(n, s)), s, k)
    decreases n
  {
    FlightCount(t, n, s);
    if n == 0 {
      assert Flights(0, s) == map[];
      es := [];
    } else {
      var front := ResolveMany(t, s, n - 1, k, now);
      FlightCount(t, n - 1, s);
      var last := At(Resolve(n - 1, s), now);
      assert Flights(n, s) == Flights(n - 1, s)[n - 1 := s];
      OneEvent(Traffic(t, Flights(n - 1, s)), last, Traffic(t, Flights(n, s)), s, k);
      es := front + [last];
      Join(Traffic(t, map[]), front, Traffic(t, Flights(n - 1, s)), [last], Traffic(t, Flights(n, s)), s, k);
    }
  }

  // The share's row, but for what downloads change.
  ghost predicate CountedOn(t: Tables, t': Tables, s: Id, n: nat) {
    && s in t.shares && s in t'.shares && t'.files == t.files
    && t'.shares[s].downloads == t.shares[s].downloads + n
    && t'.shares[s].(downloads := 0, revokedAt := None) == t.shares[s].(downloads := 0, revokedAt := None)
  }

  // Then each of them is counted, whatever the others did to the share.
  lemma {:induction false} RecordMany(t: Tables, s: Id, n: nat, k: nat, now: int) returns (es: seq<At>, t': Tables)
    requires s in t.shares && n <= k
    ensures Reaches(Traffic(t, Flights(n, s)), es, Traffic(t', map[]), s, k) && CountedOn(t, t', s, n)
    decreases n
  {
    if n == 0 {
      FlightCount(t, 0, s);
      es, t' := [], t;
    } else {
      var first, u := RecordLast(t, s, n, k, now);
      var rest;
      rest, t' := RecordMany(u, s, n - 1, k, now);
      es := first + rest;
      Join(Traffic(t, Flights(n, s)), first, Traffic(u, Flights(n - 1, s)), rest, Traffic(t', map[]), s, k);
    }
  }

  lemma {:induction false} RecordLast(t: Tables, s: Id, n: nat, k: nat, now: int) returns (es: seq<At>, u: Tables)
    requires s in t.shares && 1 <= n <= k
    ensures Reaches(Traffic(t, Flights(n, s)), es, Traffic(u, Flights(n - 1, s)), s, k) && CountedOn(t, u, s, 1)
  {
    u := RecordDownload(t, s, now);
    FlightCount(t, n, s);
    FlightCount(u, n - 1, s);
    assert Flights(n - 1, s) == Flights(n, s) - {n - 1};
    OneEvent(Traffic(t, Flights(n, s)), At(Record(n - 1), now), Traffic(u, Flights(n - 1, s)), s, k);
    es := [At(Record(n - 1), now)];
  }

  // Downloads one at a time, short of the cap.
  lemma {:induction false} SerialDownloads(t: Tables, s: Id, n: nat, k: nat, now: int) returns (es: seq<At>, t': Tables)
    requires Serves(t, s, now) && !t.shares[s].oneTime && t.shares[s].maxDownloads.Some? && k >= 1
    requires t.shares[s].downloads + n < t.shares[s].maxDownloads.value
    ensures Reaches(Traffic(t, map[]), es, Traffic(t', map[]), s, k)
    ensures CountedOn(t, t', s, n) && Serves(t', s, now)
    decreases n
  {
    if n == 0 {
      FlightCount(t, 0, s);
      assert Flights(0, s) == map[];
      es, t' := [], t;
    } else {
      var a := ResolveMany(t, s, 1, k, now);
      var u := RecordDownload(t, s, now);
      FlightCount(t, 1, s);
      FlightCount(u, 0, s);
      assert Flights(1, s) - {0} == Flights(0, s) == map[];
      OneEvent(Traffic(t, Flights(1, s)), At(Record(0), now), Traffic(u, map[]), s, k);
      Join(Traffic(t, map[]), a, Traffic(t, Flights(1, s)), [At(Record(0), now)], Traffic(u, map[]), s, k);
      var rest;
      rest, t' := SerialDownloads(u, s, n - 1, k, now);
      es := a + [At(Record(0), now)] + rest;
      Join(Traffic(t, map[]), a + [At(Record(0), now)], Traffic(u, map[]), rest, Traffic(t', map[]), s, k);
    }
  }

  // A file and a share of it, from the empty store.
  lemma {:induction false} Shared(s: Id, cap: Option<int>, once: bool, k: nat, now: int)
    returns (es: seq<At>, t: Tables)
    requires cap.Some? ==> cap.value >= 1
    ensures Reaches(Traffic(EMPTY, map[]), es, Traffic(t, map[]), s, k)
    ensures s in t.shares && Serves(t, s, now) && t.shares[s].downloads == 0
    ensures t.shares[s].maxDownloads == cap && t.shares[s].oneTime == once
  {
    var a := At(Other(TxCreateFile("f", "n", "file", "", 0, Sha256([]))), now);
    var b := At(Other(TxCreateShare(s, "token", "f", None, cap, once)), now);
    var u := Step(EMPTY, a.event.txn, now);
    t := Step(u, b.event.txn, now);
    assert forall v: Tables :: InFlightOf(Traffic(v, map[]), s) == {};
    OneEvent(Traffic(EMPTY, map[]), a, Traffic(u, map[]), s, k);
    OneEvent(Traffic(u, map[]), b, Traffic(t, map[]), s, k);
    es := [a] + [b];
    Join(Traffic(EMPTY, map[]), [a], Traffic(u, map[]), [b], Traffic(t, map[]), s, k);
  }

  // k downloads of a serving share, resolved before any of them records, are
  // all counted, whatever its cap and its flag.
  lemma {:induction false} OverrunHappens(t: Tables, s: Id, k: nat, now: int) returns (es: seq<At>, t': Tables)
    requires Serves(t, s, now)
    ensures Reaches(Traffic(t, map[]), es, Traffic(t', map[]), s, k) && CountedOn(t, t', s, k)
  {
    var a := ResolveMany(t, s, k, k, now);
    var b;
    b, t' := RecordMany(t, s, k, k, now);
    es := a + b;
    Join(Traffic(t, map[]), a, Traffic(t, Flights(k, s)), b, Traffic(t', map[]), s, k);
  }

  // For every cap m and every k there is a run from the empty store, never
  // with more than k downloads under way, that counts m + k - 1.
  lemma {:induction false} CapIsOverrun(s: Id, m: nat, k: nat, now: int) returns (es: seq<At>)
    requires m >= 1 && k >= 1
    ensures Possible(Traffic(EMPTY, map[]), es, s, k)
    ensures var t := After(Traffic(EMPTY, map[]), es, s, k).t;
            && s in t.shares && t.shares[s].maxDownloads == Some(m) && !t.shares[s].oneTime
            && t.shares[s].downloads == m + k - 1
  {
    var start := Traffic(EMPTY, map[]);
    var a, t0 := Shared(s, Some(m), false, k, now);
    var b, t1 := SerialDownloads(t0, s, m - 1, k, now);
    Join(start, a, Traffic(t0, map[]), b, Traffic(t1, map[]), s, k);
    var c, t2 := OverrunHappens(t1, s, k, now);
    es := a + b + c;
    Join(start, a + b, Traffic(t1, map[]), c, Traffic(t2, map[]), s, k);
  }

  // And one that counts a one-time share, with or without a cap, k times.
  lemma {:induction false} OneTimeIsOverrun(s: Id, cap: Option<int>, k: nat, now: int) returns (es: seq<At>)
    requires cap.Some? ==> cap.value >= 1
    ensures Possible(Traffic(EMPTY, map[]), es, s, k)
    ensures var t := After(Traffic(EMPTY, map[]), es, s, k).t;
            && s in t.shares && t.shares[s].oneTime && t.shares[s].maxDownloads == cap
            && t.shares[s].downloads == k
  {
    var a, t0 := Shared(s, cap, true, k, now);
    var b, t1 := OverrunHappens(t0, s, k, now);
    es := a + b;
    Join(Traffic(EMPTY, map[]), a, Traffic(t0, map[]), b, Traffic(t1, map[]), s, k);
  }
}
