// Runs that meet the bounds of the storage quota.  Bytes stored twice count
// once, so such a run needs that many different contents.
module QuotaRuns {
  import opened Common
  import opened Schema
  import opened BlobBytes
  import opened MapSum
  import opened Quota
  import Ulid

  ghost predicate Reaches(s: State, es: seq<At>, s': State, l: Limits, k: nat) {
    Possible(s, es, l, k) && After(s, es, l, k) == s'
  }

  lemma {:induction false} OneEvent(s: State, e: At, s': State, l: Limits, k: nat)
    requires Next(s, e.event, l, e.now) == Some(s') && |s.inFlight| <= k && |s'.inFlight| <= k
    ensures Reaches(s, [e], s', l, k)
  {
    assert [e][1..] == [];
    assert Possible(s', [], l, k) && After(s', [], l, k) == s';
  }

  lemma {:induction false} Join(s: State, a: seq<At>, m: State, b: seq<At>, s': State, l: Limits, k: nat)
    requires Reaches(s, a, m, l, k) && Reaches(m, b, s', l, k)
    ensures Reaches(s, a + b, s', l, k)
    decreases |a|
  {
    if a == [] {
      assert a + b == b;
    } else {
      assert (a + b)[0] == a[0] && (a + b)[1..] == a[1..] + b;
      Join(Next(s, a[0].event, l, a[0].now).value, a[1..], m, b, s', l, k);
    }
  }

  // ---------------------------------------------------------------------------
  // A store that holds given contents
  // ---------------------------------------------------------------------------

  function Total(cs: seq<seq<byte>>): nat {
    if cs == [] then 0 else Total(cs[..|cs|-1]) + |cs[|cs|-1]|
  }

  predicate Distinct(cs: seq<seq<byte>>) {
    forall i, j | 0 <= i < j < |cs| :: cs[i] != cs[j]
  }

  ghost predicate Holding(s: State, cs: seq<seq<byte>>) {
    && (forall h: Digest :: h in s.t.blobs <==> h.content in cs)
    && Bytes(s.t.blobs) == Total(cs)
    && (forall id | id in s.t.files :: |id| < |cs|)
  }

  function Name(n: nat): Id {
    seq(n, _ => 'x')
  }

  function Admit(direct: bool, u: nat, size: nat): Event {
    if direct then AdmitDirect(u) else AdmitTus(u, size)
  }

  function Ticket(direct: bool, size: nat): Admitted {
    if direct then Direct else Tus(size)
  }

  // There is room for one more upload.
  predicate Room(used: nat, direct: bool, size: nat, l: Limits) {
    WithinFileLimit(size, l) && if direct then used < l.storage else used + size <= l.storage
  }

  lemma Admission1(s: State, cs: seq<seq<byte>>, direct: bool, u: nat, size: nat, l: Limits, now: int)
    requires Set(l) && Holding(s, cs) && u !in s.inFlight && Room(Total(cs), direct, size, l)
    ensures Next(s, Admit(direct, u, size), l, now) == Some(s.(inFlight := s.inFlight[u := Ticket(direct, size)]))
  {
  }

  lemma {:induction false} Finished(s: State, cs: seq<seq<byte>>, u: nat, c: seq<byte>, l: Limits, now: int)
    returns (e: At, s': State)
    requires Holding(s, cs) && u in s.inFlight && c !in cs && WithinFileLimit(|c|, l)
    requires s.inFlight[u].Tus? ==> s.inFlight[u].size == |c|
    ensures !e.event.AdmitDirect? && Next(s, e.event, l, e.now) == Some(s')
    ensures s'.inFlight == s.inFlight - {u} && Holding(s', cs + [c])
  {
    e := At(Finish(u, Name(|cs|), c, "n", "file", ""), now);
    s' := Next(s, e.event, l, now).value;
    assert |Name(|cs|)| == |cs|;
    NowHolding(s, cs, Name(|cs|), c, s', now);
  }

  lemma {:induction false} NowHolding(s: State, cs: seq<seq<byte>>, id: Id, c: seq<byte>, s': State, now: int)
    requires Holding(s, cs) && c !in cs && |id| == |cs|
    requires s'.t == CreateFile(s.t, id, "n", "file", "", |c|, Sha256(c), now)
    ensures Holding(s', cs + [c])
  {
    BytesUpsert(s.t.blobs, Sha256(c), |c|, now);
    assert (cs + [c])[..|cs|] == cs;
    assert forall h: Digest :: h.content in cs + [c] <==> h.content in cs || h == Sha256(c);
    assert s'.t.blobs == UpsertBlobRef(s.t.blobs, Sha256(c), |c|, now);
  }

  // ---------------------------------------------------------------------------
  // One upload after another
  // ---------------------------------------------------------------------------

  // Every content fits in its turn.
  predicate FitsInTurn(cs: seq<seq<byte>>, direct: bool, l: Limits) {
    forall i | 0 <= i < |cs| :: Room(Total(cs[..i]), direct, |cs[i]|, l)
  }

  // One upload from admission to finish, with nothing else under way.
  lemma {:induction false} Alone(s: State, cs: seq<seq<byte>>, c: seq<byte>, direct: bool, l: Limits, k: nat, now: int)
    returns (es: seq<At>, s': State)
    requires Set(l) && k >= 1 && s.inFlight == map[] && Holding(s, cs) && c !in cs && Room(Total(cs), direct, |c|, l)
    ensures Reaches(s, es, s', l, k) && s'.inFlight == map[] && Holding(s', cs + [c])
    ensures !direct ==> NoDirect(es)
  {
    var a := At(Admit(direct, 0, |c|), now);
    Admission1(s, cs, direct, 0, |c|, l, now);
    var s1 := s.(inFlight := s.inFlight[0 := Ticket(direct, |c|)]);
    assert s1.inFlight == map[0 := Ticket(direct, |c|)];
    OneEvent(s, a, s1, l, k);
    var b;
    b, s' := Finished(s1, cs, 0, c, l, now);
    OneEvent(s1, b, s', l, k);
    es := [a] + [b];
    Join(s, [a], s1, [b], s', l, k);
  }

  lemma {:induction false} EmptyHolds(s: State)
    requires s == Start()
    ensures Holding(s, []) && s.inFlight == map[]
  {
    assert Sizes(s.t.blobs) == map[];
  }

  lemma {:induction false} FrontFits(cs: seq<seq<byte>>, direct: bool, l: Limits, front: seq<seq<byte>>, c: seq<byte>)
    requires Distinct(cs) && FitsInTurn(cs, direct, l) && cs == front + [c]
    ensures Distinct(front) && FitsInTurn(front, direct, l) && c !in front && Room(Total(front), direct, |c|, l)
  {
    assert forall i | 0 <= i < |front| :: front[..i] == cs[..i] && front[i] == cs[i];
    assert cs[..|front|] == front && cs[|front|] == c;
  }

  lemma {:induction false} OneByOne(start: State, cs: seq<seq<byte>>, direct: bool, l: Limits, k: nat, now: int)
    returns (es: seq<At>, s: State)
    requires start == Start()
    requires Set(l) && k >= 1 && Distinct(cs) && FitsInTurn(cs, direct, l)
    ensures Reaches(start, es, s, l, k) && s.inFlight == map[] && Holding(s, cs)
    ensures !direct ==> NoDirect(es)
    decreases |cs|
  {
    if cs == [] {
      EmptyHolds(start);
      es, s := [], start;
    } else {
      var front, c := cs[..|cs|-1], cs[|cs|-1];
      assert cs == front + [c];
      FrontFits(cs, direct, l, front, c);
      var before, s0 := OneByOne(start, front, direct, l, k, now);
      es, s := ThenOneMore(start, before, s0, front, c, direct, l, k, now);
    }
  }

  lemma {:induction false} ThenOneMore(start: State, before: seq<At>, s: State, cs: seq<seq<byte>>, c: seq<byte>,
                                       direct: bool, l: Limits, k: nat, now: int)
    returns (es: seq<At>, s': State)
    requires Set(l) && k >= 1 && Reaches(start, before, s, l, k)
    requires s.inFlight == map[] && Holding(s, cs) && c !in cs && Room(Total(cs), direct, |c|, l)
    requires !direct ==> NoDirect(before)
    ensures Reaches(start, es, s', l, k) && s'.inFlight == map[] && Holding(s', cs + [c])
    ensures !direct ==> NoDirect(es)
  {
    var turn;
    turn, s' := Alone(s, cs, c, direct, l, k, now);
    es := before + turn;
    Join(start, before, s, turn, s', l, k);
  }

  // ---------------------------------------------------------------------------
  // Many uploads at once
  // ---------------------------------------------------------------------------

  function Waiting(n: nat, a: Admitted): (m: map<nat, Admitted>)
    ensures forall u: nat :: u in m <==> u < n
    ensures forall u | u in m :: m[u] == a
  {
    if n == 0 then map[] else Waiting(n - 1, a)[n - 1 := a]
  }

  lemma {:induction false} WaitingCount(n: nat, a: Admitted)
    ensures |Waiting(n, a)| == n
  {
    if n == 0 {
      assert Waiting(0, a) == map[];
    } else {
      WaitingCount(n - 1, a);
      assert Waiting(n, a) == Waiting(n - 1, a)[n - 1 := a];
      assert (n - 1) !in Waiting(n - 1, a);
    }
  }

  lemma {:induction false} AdmitMany(s: State, cs: seq<seq<byte>>, direct: bool, size: nat, n: nat, l: Limits,
                                     k: nat, now: int)
    returns (es: seq<At>, s': State)
    requires Set(l) && n <= k && s.inFlight == map[] && Holding(s, cs) && Room(Total(cs), direct, size, l)
    ensures Reaches(s, es, s', l, k) && s' == s.(inFlight := Waiting(n, Ticket(direct, size)))
    ensures !direct ==> NoDirect(es)
    decreases n
  {
    var a := Ticket(direct, size);
    WaitingCount(n, a);
    if n == 0 {
      assert Waiting(0, a) == map[];
      es, s' := [], s;
    } else {
      var before, s0 := AdmitMany(s, cs, direct, size, n - 1, l, k, now);
      WaitingCount(n - 1, a);
      var e := At(Admit(direct, n - 1, size), now);
      Admission1(s0, cs, direct, n - 1, size, l, now);
      assert Waiting(n, a) == Waiting(n - 1, a)[n - 1 := a];
      s' := s.(inFlight := Waiting(n, a));
      OneEvent(s0, e, s', l, k);
      es := before + [e];
      Join(s, before, s0, [e], s', l, k);
    }
  }

  lemma {:induction false} FinishMany(s: State, cs: seq<seq<byte>>, rest: seq<seq<byte>>, a: Admitted, l: Limits,
                                      k: nat, now: int)
    returns (es: seq<At>, s': State)
    requires |rest| <= k && s.inFlight == Waiting(|rest|, a) && Holding(s, cs) && Distinct(cs + rest)
    requires forall c | c in rest :: WithinFileLimit(|c|, l) && (a.Tus? ==> a.size == |c|)
    ensures Reaches(s, es, s', l, k) && Holding(s', cs + rest) && NoDirect(es)
    decreases |rest|
  {
    if rest == [] {
      WaitingCount(0, a);
      assert cs + rest == cs;
      es, s' := [], s;
    } else {
      var first, s1 := FinishFirst(s, cs, rest, a, l, k, now);
      var after;
      after, s' := FinishMany(s1, cs + [rest[0]], rest[1..], a, l, k, now);
      es := first + after;
      Join(s, first, s1, after, s', l, k);
    }
  }

  lemma {:induction false} FinishFirst(s: State, cs: seq<seq<byte>>, rest: seq<seq<byte>>, a: Admitted, l: Limits,
                                       k: nat, now: int)
    returns (es: seq<At>, s': State)
    requires 1 <= |rest| <= k && s.inFlight == Waiting(|rest|, a) && Holding(s, cs) && Distinct(cs + rest)
    requires WithinFileLimit(|rest[0]|, l) && (a.Tus? ==> a.size == |rest[0]|)
    ensures Reaches(s, es, s', l, k) && NoDirect(es) && s'.inFlight == Waiting(|rest| - 1, a)
    ensures Holding(s', cs + [rest[0]]) && (cs + [rest[0]]) + rest[1..] == cs + rest
  {
    NotYetStored(cs, rest);
    OneFewerWaiting(|rest|, a);
    var e;
    e, s' := Finished(s, cs, |rest| - 1, rest[0], l, now);
    OneEvent(s, e, s', l, k);
    es := [e];
  }

  lemma {:induction false} OneFewerWaiting(n: nat, a: Admitted)
    requires n >= 1
    ensures n - 1 in Waiting(n, a) && Waiting(n, a)[n - 1] == a && Waiting(n - 1, a) == Waiting(n, a) - {n - 1}
    ensures |Waiting(n, a)| == n && |Waiting(n - 1, a)| == n - 1
  {
    WaitingCount(n, a);
    WaitingCount(n - 1, a);
  }

  lemma {:induction false} NotYetStored(cs: seq<seq<byte>>, rest: seq<seq<byte>>)
    requires Distinct(cs + rest) && rest != []
    ensures rest[0] !in cs && (cs + [rest[0]]) + rest[1..] == cs + rest
  {
    assert (cs + rest)[|cs|] == rest[0] && forall i | 0 <= i < |cs| :: (cs + rest)[i] == cs[i];
    assert (cs + [rest[0]]) + rest[1..] == cs + rest;
  }

  // Contents stored one after another, then contents of one size admitted
  // together: the run ends with all of them stored.
  lemma {:induction false} AllStored(base: seq<seq<byte>>, last: seq<seq<byte>>, size: nat, direct: bool, l: Limits,
                                     now: int)
    returns (es: seq<At>)
    requires Set(l) && |last| >= 1 && Distinct(base + last) && FitsInTurn(base, direct, l)
    requires Room(Total(base), direct, size, l) && forall c | c in last :: |c| == size
    ensures Possible(Start(), es, l, |last|) && (!direct ==> NoDirect(es))
    ensures Bytes(After(Start(), es, l, |last|).t.blobs) == Total(base) + |last| * size
  {
    var k := |last|;
    var start := Start();
    assert Distinct(base) by {
      assert forall i | 0 <= i < |base| :: (base + last)[i] == base[i];
    }
    var a, s0 := OneByOne(start, base, direct, l, k, now);
    var b, s1 := AdmitMany(s0, base, direct, size, k, l, k, now);
    var c, s2 := FinishMany(s1, base, last, Ticket(direct, size), l, k, now);
    Join(start, a, s0, b, s1, l, k);
    es := a + b + c;
    Join(start, a + b, s1, c, s2, l, k);
    TotalOfEqual(base, last, size);
  }

  lemma {:induction false} TotalOfEqual(base: seq<seq<byte>>, last: seq<seq<byte>>, size: nat)
    requires forall c | c in last :: |c| == size
    ensures Total(base + last) == Total(base) + |last| * size
    decreases |last|
  {
    if last == [] {
      assert base + last == base;
    } else {
      var front := last[..|last|-1];
      assert (base + last)[..|base + last|-1] == base + front;
      TotalOfEqual(base, front, size);
      OneMore(|front|, size);
    }
  }

  // ---------------------------------------------------------------------------
  // Enough different contents
  // ---------------------------------------------------------------------------

  // The contents numbered from `from` on, each of `size` bytes.
  function Bodies(from: nat, n: nat, size: nat): seq<seq<byte>> {
    seq(n, i requires 0 <= i < n => Ulid.Bytes(from + i, size))
  }

  lemma {:induction false} BodiesDiffer(i: nat, j: nat, size: nat)
    requires i < Ulid.Pow2(8 * size) && j < Ulid.Pow2(8 * size)
    ensures Ulid.Bytes(i, size) == Ulid.Bytes(j, size) ==> i == j
  {
    Ulid.BytesKeepLowBits(i, size);
    Ulid.BytesKeepLowBits(j, size);
    Ulid.DivModUnique(i, Ulid.Pow2(8 * size), 0, i);
    Ulid.DivModUnique(j, Ulid.Pow2(8 * size), 0, j);
  }

  // Contents of `size` bytes, and a shorter one where needed, `total` in all.
  function Filler(from: nat, total: nat, size: nat): seq<seq<byte>>
    requires size > 0
  {
    Bodies(from, total / size, size) + if total % size == 0 then [] else [Ulid.Bytes(0, total % size)]
  }

  lemma {:induction false} BodiesTotal(from: nat, n: nat, size: nat, cs: seq<seq<byte>>)
    requires cs == Bodies(from, n, size)
    ensures Total(cs) == n * size && forall c | c in cs :: |c| == size
  {
    forall i | 0 <= i < |cs|
      ensures |cs[i]| == size
    {
      assert cs[i] == Ulid.Bytes(from + i, size);
    }
    assert [] + cs == cs;
    TotalOfEqual([], cs, size);
  }

  lemma {:induction false} FillerTotal(from: nat, total: nat, size: nat)
    requires size > 0
    ensures Total(Filler(from, total, size)) == total
    ensures forall c | c in Filler(from, total, size) :: |c| <= size
  {
    var whole := Bodies(from, total / size, size);
    BodiesTotal(from, total / size, size, whole);
    QuotientAndRest(total, size);
    Remainder(whole, Ulid.Bytes(0, total % size), size, Filler(from, total, size));
  }

  lemma QuotientAndRest(total: nat, size: nat)
    requires size > 0
    ensures total == total / size * size + total % size
  {
  }

  lemma {:induction false} Remainder(whole: seq<seq<byte>>, c: seq<byte>, size: nat, cs: seq<seq<byte>>)
    requires |c| <= size && cs == whole + (if c == [] then [] else [c]) && forall d | d in whole :: |d| <= size
    ensures Total(cs) == Total(whole) + |c| && forall d | d in cs :: |d| <= size
  {
    if c == [] {
      assert cs == whole;
    } else {
      TotalSnoc(whole, c, cs);
      assert forall d | d in cs :: d in whole || d == c;
    }
  }

  lemma {:induction false} TotalSnoc(whole: seq<seq<byte>>, c: seq<byte>, cs: seq<seq<byte>>)
    requires cs == whole + [c]
    ensures Total(cs) == Total(whole) + |c|
  {
    assert cs[..|cs|-1] == whole;
  }

  lemma {:induction false} FillerIsDistinct(k: nat, total: nat, size: nat)
    requires size > 0 && k + total / size <= Ulid.Pow2(8 * size)
    ensures Distinct(Filler(k, total, size) + Bodies(0, k, size))
  {
    var all, q := Filler(k, total, size) + Bodies(0, k, size), total / size;
    forall i, j | 0 <= i < j < |all|
      ensures all[i] != all[j]
    {
      var a := NumberOf(k, total, size, all, i);
      var b := NumberOf(k, total, size, all, j);
      if a.Some? && b.Some? {
        BodiesDiffer(a.value, b.value, size);
      }
    }
  }

  // The number of the content at a place, None for the shorter one.
  lemma {:induction false} NumberOf(k: nat, total: nat, size: nat, all: seq<seq<byte>>, i: nat)
    returns (n: Option<nat>)
    requires size > 0 && all == Filler(k, total, size) + Bodies(0, k, size) && i < |all|
    ensures n.None? <==> total % size != 0 && i == total / size
    ensures n.None? ==> |all[i]| < size
    ensures n.Some? ==> all[i] == Ulid.Bytes(n.value, size) && n.value < k + total / size
    ensures n.Some? ==> n.value == if i < total / size then k + i else i - |Filler(k, total, size)|
  {
    var q := total / size;
    if i < q {
      n := Some(k + i);
    } else if i < |Filler(k, total, size)| {
      n := None;
    } else {
      n := Some(i - |Filler(k, total, size)|);
    }
  }

  lemma {:induction false} PrefixTotal(cs: seq<seq<byte>>, i: nat)
    requires i < |cs|
    ensures Total(cs[..i]) + |cs[i]| <= Total(cs)
    decreases |cs|
  {
    var front := cs[..|cs|-1];
    if i < |front| {
      assert front[..i] == cs[..i];
      PrefixTotal(front, i);
    }
  }

  lemma {:induction false} FillerFits(cs: seq<seq<byte>>, direct: bool, size: nat, l: Limits)
    requires Set(l) && WithinFileLimit(size, l) && forall c | c in cs :: |c| <= size
    requires if direct then Total(cs) < l.storage else Total(cs) <= l.storage
    ensures FitsInTurn(cs, direct, l)
  {
    forall i | 0 <= i < |cs|
      ensures Room(Total(cs[..i]), direct, |cs[i]|, l)
    {
      PrefixTotal(cs, i);
    }
  }

  lemma {:induction false} FilledRun(total: nat, size: nat, k: nat, direct: bool, l: Limits, now: int)
    returns (es: seq<At>)
    requires Set(l) && k >= 1 && size > 0 && k + total / size <= Ulid.Pow2(8 * size)
    requires Room(total, direct, size, l)
    ensures Possible(Start(), es, l, k) && (!direct ==> NoDirect(es))
    ensures Bytes(After(Start(), es, l, k).t.blobs) == total + k * size
  {
    var base, last := Filler(k, total, size), Bodies(0, k, size);
    FillerTotal(k, total, size);
    FillerIsDistinct(k, total, size);
    FillerFits(base, direct, size, l);
    es := AllStored(base, last, size, direct, l, now);
  }

  // With direct uploads there is a run from the empty store that reaches
  // M - 1 + k F, given that many different contents of F bytes.
  lemma {:induction false} MixedBoundIsMet(l: Limits, k: nat, now: int) returns (es: seq<At>)
    requires Set(l) && l.file > 0 && k >= 1
    requires k + (l.storage - 1) / l.file <= Ulid.Pow2(8 * l.file)
    ensures Possible(Start(), es, l, k)
    ensures Bytes(After(Start(), es, l, k).t.blobs) == l.storage - 1 + k * l.file
  {
    es := FilledRun(l.storage - 1, l.file, k, true, l, now);
  }

  // With tus uploads only there is one that reaches M + (k - 1) min(F, M).
  lemma {:induction false} TusBoundIsMet(l: Limits, k: nat, now: int) returns (es: seq<At>)
    requires Set(l) && k >= 1
    requires k + (l.storage - Largest(l)) / Largest(l) <= Ulid.Pow2(8 * Largest(l))
    ensures Possible(Start(), es, l, k) && NoDirect(es)
    ensures Bytes(After(Start(), es, l, k).t.blobs) == l.storage + (k - 1) * Largest(l)
  {
    es := FilledRun(l.storage - Largest(l), Largest(l), k, false, l, now);
    OneMore(k - 1, Largest(l));
  }

  // ---------------------------------------------------------------------------
  // Too few different contents
  // ---------------------------------------------------------------------------

  ghost predicate ShortContents(s: State, size: nat) {
    SizesKnown(s.t.blobs) && forall h | h in s.t.blobs :: |h.content| <= size
  }

  lemma NextKeepsShort(s: State, e: Event, l: Limits, now: int)
    requires l.file > 0 && ShortContents(s, l.file) && Next(s, e, l, now).Some?
    ensures ShortContents(Next(s, e, l, now).value, l.file)
  {
  }

  lemma {:induction false} RunKeepsShort(s: State, es: seq<At>, l: Limits, k: nat)
    requires l.file > 0 && ShortContents(s, l.file) && Possible(s, es, l, k)
    ensures ShortContents(After(s, es, l, k), l.file)
    decreases |es|
  {
    if es != [] {
      NextKeepsShort(s, es[0].event, l, es[0].now);
      RunKeepsShort(Next(s, es[0].event, l, es[0].now).value, es[1..], l, k);
    }
  }

  function Letters(n: nat): (hs: set<Digest>)
    requires n <= 256
    ensures |hs| <= n && forall c: byte | c < n :: Sha256([c]) in hs
  {
    if n == 0 then {} else Letters(n - 1) + {Sha256([(n - 1) as byte])}
  }

  lemma Letter(h: Digest)
    requires |h.content| == 1
    ensures h in Letters(256)
  {
    assert h == Sha256([h.content[0]]);
  }

  lemma {:induction false} AtMost256Bytes(blobs: map<Digest, BlobRow>)
    requires SizesKnown(blobs) && forall h | h in blobs :: |h.content| <= 1
    ensures Bytes(blobs) <= 256
  {
    var empty, sizes := Sha256([]), Sizes(blobs);
    var rest := sizes - {empty};
    if empty in blobs {
      SumSplit(sizes, empty);
    } else {
      assert rest == sizes;
    }
    SumAtMost(rest, 1);
    forall h | h in rest
      ensures h in Letters(256)
    {
      Letter(h);
    }
    SubsetSize(rest.Keys, Letters(256));
  }

  // With files of one byte the bound is met exactly when there are that many
  // different bytes.
  lemma {:induction false} OneByteBoundIsMetIff(l: Limits, k: nat)
    requires Set(l) && l.file == 1 && k >= 1
    ensures (exists es: seq<At> :: Possible(Start(), es, l, k) &&
               Bytes(After(Start(), es, l, k).t.blobs) == l.storage - 1 + k) <==>
            k + (l.storage - 1) <= 256
  {
    assert Ulid.Pow2(8) == 256;
    if k + (l.storage - 1) <= 256 {
      var es := MixedBoundIsMet(l, k, 0);
    }
    forall es: seq<At> | Possible(Start(), es, l, k)
      ensures Bytes(After(Start(), es, l, k).t.blobs) <= 256
    {
      RunKeepsShort(Start(), es, l, k);
      AtMost256Bytes(After(Start(), es, l, k).t.blobs);
    }
  }
}
