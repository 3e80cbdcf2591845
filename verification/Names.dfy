// The two loops that avoid name collisions: uniqueName for the entries of a
// zip, and uniquePath for files saved into a directory.
module Names {
  import opened Common
  import Decimal
  import Filename
  import opened Text

  // ---------------------------------------------------------------------------
  // uniqueName
  // ---------------------------------------------------------------------------

  function Candidate(name: string, k: nat): string {
    Stem(name) + "-" + Decimal.Itoa(k) + Ext(name)
  }

  lemma {:induction false} Infix(stem: string, a: string, b: string, ext: string)
    requires stem + a + ext == stem + b + ext
    ensures a == b
  {
    assert |a| == |b|;
    assert a == (stem + a + ext)[|stem|..|stem| + |a|];
    assert b == (stem + b + ext)[|stem|..|stem| + |b|];
  }

  lemma {:induction false} CandidatesDiffer(name: string, j: nat, k: nat)
    ensures Candidate(name, j) == Candidate(name, k) ==> j == k
    ensures Candidate(name, k) != name
  {
    StemAndExt(name);
    Decimal.ItoaReadsBack(k);
    if Candidate(name, j) == Candidate(name, k) {
      Infix(Stem(name) + "-", Decimal.Itoa(j), Decimal.Itoa(k), Ext(name));
      Decimal.ItoaInjective(j, k);
    }
    assert |Candidate(name, k)| > |name|;
  }

  // The name in two parts: the second begins with its last dot, or is empty
  // when it has none.
  predicate SplitAtLastDot(name: string, stem: string, ext: string) {
    && name == stem + ext
    && ('.' in name ==> ext != "" && ext[0] == '.' && '.' !in ext[1..])
    && ('.' !in name ==> ext == "")
  }

  // The number goes between the two.
  lemma {:induction false} NumberBeforeExtension(name: string, stem: string, ext: string, k: nat)
    requires SplitAtLastDot(name, stem, ext)
    ensures Candidate(name, k) == stem + "-" + Decimal.Itoa(k) + ext
    ensures Numbered(name, k) == stem + " (" + Decimal.Itoa(k) + ")" + ext
  {
    SplitIsUnique(name, stem, ext);
    Regrouped(stem + " (" + Decimal.Itoa(k), ")", ext);
  }

  lemma {:induction false} SplitIsUnique(name: string, stem: string, ext: string)
    requires SplitAtLastDot(name, stem, ext)
    ensures Stem(name) == stem && Ext(name) == ext
  {
    StemAndExt(name);
    var e := Ext(name);
    if |e| < |ext| {
      LaterDot(name, stem, ext, Stem(name), e);
    } else if |ext| < |e| {
      LaterDot(name, Stem(name), e, stem, ext);
    }
    assert |stem| == |Stem(name)|;
    assert stem == name[..|stem|] && ext == name[|stem|..];
  }

  // A shorter extension would leave its dot inside the longer one.
  lemma {:induction false} LaterDot(name: string, stem: string, ext: string, longer: string, shorter: string)
    requires name == stem + ext == longer + shorter && |shorter| < |ext|
    requires shorter != "" && shorter[0] == '.'
    ensures '.' in ext[1..]
  {
    var i := |ext| - |shorter|;
    assert name[|longer|] == shorter[0] == '.';
    assert ext[i] == name[|stem| + i] == '.';
    assert ext[1..][i - 1] == '.';
  }

  function Count(used: map<string, nat>, s: string): nat {
    if s in used then used[s] else 0
  }

  // Names taken so far: a key whose count is zero reads like a missing one.
  function Taken(used: map<string, nat>): set<string> {
    set s | s in used && used[s] != 0
  }

  // The candidates for `name` with a number above k that are taken: they are
  // finitely many, and the loop leaves one behind at each turn.
  ghost function Ahead(used: map<string, nat>, name: string, k: nat): set<string> {
    set s | s in used && used[s] != 0 && exists j: nat :: j > k && s == Candidate(name, j)
  }

  // Every candidate past the count kept for the name and before k is taken.
  ghost predicate AllTaken(used: map<string, nat>, name: string, k: nat)
    requires name in used
  {
    forall j: nat | used[name] < j < k :: Candidate(name, j) in Taken(used)
  }

  lemma {:induction false} OneMoreTaken(table: map<string, nat>, name: string, k: nat, cand: string)
    requires name in table && 1 <= table[name] <= k && AllTaken(table, name, k + 1)
    requires cand == Candidate(name, k + 1) && Count(table[name := k + 1], cand) != 0
    ensures AllTaken(table, name, k + 2)
    ensures Ahead(table[name := k + 1], name, k + 1) < Ahead(table[name := k], name, k)
  {
    CandidatesDiffer(name, k + 1, k + 1);
    OneFewerAhead(table[name := k], table[name := k + 1], name, k);
  }

  lemma {:induction false} Settled(table: map<string, nat>, name: string, k: nat, cand: string)
    requires name in table && table[name] >= 1 && cand != name && Count(table[name := k + 1], cand) == 0
    ensures cand !in Taken(table) && Taken(table[name := k + 1][cand := 1]) == Taken(table) + {cand}
  {
  }

  class NameTable {
    var used: map<string, nat>

    constructor ()
      ensures used == map[]
    {
      used := map[];
    }

    // The name itself when it is free, else the first free candidate whose
    // number is above the count kept for the name.
    method UniqueName(name: string) returns (r: string)
      modifies this
      ensures r !in Taken(old(used)) && Taken(used) == Taken(old(used)) + {r}
      ensures name !in Taken(old(used)) ==> r == name && used == old(used)[name := 1]
      ensures name in Taken(old(used)) ==>
                exists k: nat :: k > old(used)[name] && r == Candidate(name, k) &&
                                 AllTaken(old(used), name, k) && used == old(used)[name := k][r := 1]
    {
      if Count(used, name) == 0 {
        used := used[name := 1];
        return name;
      }
      ghost var table, k := used, used[name];
      var ext := Ext(name);
      var stem := Stem(name);
      while true
        invariant used == table[name := k] && k >= table[name]
        invariant AllTaken(table, name, k + 1)
        decreases Ahead(table[name := k], name, k)
      {
        used := used[name := used[name] + 1];
        var cand := stem + "-" + Decimal.Itoa(used[name]) + ext;
        assert used == table[name := k + 1] && cand == Candidate(name, k + 1);
        if Count(used, cand) == 0 {
          assert cand != name by {
            CandidatesDiffer(name, k + 1, k + 1);
          }
          Settled(table, name, k, cand);
          used := used[cand := 1];
          return cand;
        }
        OneMoreTaken(table, name, k, cand);
        k := k + 1;
      }
    }
  }

  lemma {:induction false} OneFewerAhead(before: map<string, nat>, after: map<string, nat>, name: string, k: nat)
    requires name in before && before[name] == k >= 1 && after == before[name := k + 1]
    requires Candidate(name, k + 1) in Taken(after)
    ensures Ahead(after, name, k + 1) < Ahead(before, name, k)
  {
    var c := Candidate(name, k + 1);
    CandidatesDiffer(name, k + 1, k + 1);
    assert c in Ahead(before, name, k);
    forall s | s in Ahead(after, name, k + 1)
      ensures s in Ahead(before, name, k)
    {
      var j: nat :| j > k + 1 && s == Candidate(name, j);
      CandidatesDiffer(name, j, j);
    }
    if c in Ahead(after, name, k + 1) {
      var j: nat :| j > k + 1 && c == Candidate(name, j);
      CandidatesDiffer(name, j, k + 1);
    }
  }

  // The loop of downloadArchive: however the files are called, no two entries
  // of the archive share a name.
  method EntryNames(names: seq<string>) returns (entries: seq<string>)
    ensures |entries| == |names|
    ensures forall i, j | 0 <= i < j < |entries| :: entries[i] != entries[j]
    ensures forall i | 0 <= i < |names| :: names[i] !in entries[..i] ==> entries[i] == names[i]
    ensures forall i | 0 <= i < |names| ::
              entries[i] == names[i] || exists k: nat :: entries[i] == Candidate(names[i], k)
  {
    var table := new NameTable();
    entries := [];
    var n := 0;
    while n < |names|
      invariant 0 <= n <= |names| && |entries| == n
      invariant Taken(table.used) == set s | s in entries
      invariant forall i, j | 0 <= i < j < n :: entries[i] != entries[j]
      invariant forall i | 0 <= i < n :: names[i] !in entries[..i] ==> entries[i] == names[i]
      invariant forall i | 0 <= i < n ::
                  entries[i] == names[i] || exists k: nat :: entries[i] == Candidate(names[i], k)
    {
      var entry := table.UniqueName(names[n]);
      ghost var was := entries;
      entries := entries + [entry];
      assert forall i | 0 <= i <= n :: entries[..i] == was[..i];
      assert was[..n] == was;
      n := n + 1;
    }
  }

  // ---------------------------------------------------------------------------
  // uniquePath
  // ---------------------------------------------------------------------------

  function Numbered(name: string, i: nat): string {
    (Stem(name) + " (") + Decimal.Itoa(i) + (")" + Ext(name))
  }

  lemma {:induction false} NumberedDiffer(name: string, j: nat, k: nat)
    ensures Numbered(name, j) == Numbered(name, k) ==> j == k
  {
    if Numbered(name, j) == Numbered(name, k) {
      Infix(Stem(name) + " (", Decimal.Itoa(j), Decimal.Itoa(k), ")" + Ext(name));
      Decimal.ItoaInjective(j, k);
    }
  }

  // What Lstat does not report missing: an entry that is there, and a name the
  // file system refuses as too long.
  predicate Free(dir: set<string>, limit: nat, name: string) {
    name !in dir && |Filename.Bytes(name)| <= limit
  }

  // The candidate of the loop's n-th turn.
  function Tried(name: string, n: nat): string {
    if n == 0 then name else Numbered(name, n)
  }

  // The turns at which the loop would end.
  function FreeAt(dir: set<string>, limit: nat, name: string): nat -> bool {
    (n: nat) => Free(dir, limit, Tried(name, n))
  }

  // The loop allowed `turns` turns, from the n-th on: where it ends.
  function Search(ends: nat -> bool, n: nat, turns: nat): Option<nat>
    decreases turns
  {
    if turns == 0 then None else if ends(n) then Some(n) else Search(ends, n + 1, turns - 1)
  }

  lemma {:induction false} SearchEndsFree(ends: nat -> bool, n: nat, turns: nat)
    requires Search(ends, n, turns).Some?
    ensures ends(Search(ends, n, turns).value)
    decreases turns
  {
    if !ends(n) {
      SearchEndsFree(ends, n + 1, turns - 1);
    }
  }

  lemma {:induction false} FreeEndsSearch(ends: nat -> bool, n: nat, k: nat)
    requires n <= k && ends(k)
    ensures Search(ends, n, k - n + 1).Some?
    decreases k - n
  {
    if !ends(n) {
      FreeEndsSearch(ends, n + 1, k);
    }
  }

  // One of the numbers up to one past the number of entries will do.
  predicate SomeFree(dir: set<string>, limit: nat, name: string) {
    exists k | 0 <= k <= |dir| + 1 :: Free(dir, limit, Tried(name, k))
  }

  lemma {:induction false} NumberedLength(name: string, k: nat)
    ensures |Filename.Bytes(Numbered(name, k))| == |Filename.Bytes(name)| + 3 + |Decimal.Itoa(k)|
  {
    var digits := Decimal.Itoa(k);
    Decimal.ItoaReadsBack(k);
    assert Filename.Ascii(digits) && Filename.Ascii(" (") && Filename.Ascii(")");
    Filename.AsciiBytes(digits);
    Filename.AsciiBytes(" (");
    Filename.AsciiBytes(")");
    FivePieces(Stem(name), " (", digits, ")", Ext(name));
    StemAndExt(name);
    Filename.BytesConcat(Stem(name), Ext(name));
  }

  lemma {:induction false} FivePieces(a: string, b: string, c: string, d: string, e: string)
    ensures |Filename.Bytes((a + b) + c + (d + e))| ==
            |Filename.Bytes(a)| + |Filename.Bytes(b)| + |Filename.Bytes(c)| + |Filename.Bytes(d)| + |Filename.Bytes(e)|
  {
    Filename.BytesConcat((a + b) + c, d + e);
    Filename.BytesConcat(a + b, c);
    Filename.BytesConcat(a, b);
    Filename.BytesConcat(d, e);
  }

  lemma {:induction false} SmallerIsNoLonger(j: nat, k: nat)
    requires j <= k
    ensures |Decimal.Itoa(j)| <= |Decimal.Itoa(k)|
    decreases k
  {
    if j >= 10 {
      SmallerIsNoLonger(j / 10, k / 10);
    } else {
      Decimal.ItoaReadsBack(k);
    }
  }

  // More different names than entries: one of them is absent.
  lemma {:induction false} Pigeonhole(dir: set<string>, names: seq<string>) returns (i: nat)
    requires forall i, j | 0 <= i < j < |names| :: names[i] != names[j]
    requires |names| > |dir|
    ensures i < |names| && names[i] !in dir
    decreases |names|
  {
    var front, last := names[..|names|-1], names[|names|-1];
    if last !in dir {
      i := |front|;
    } else {
      i := Pigeonhole(dir - {last}, front);
      assert names[i] == front[i] != last;
    }
  }

  lemma {:induction false} OneIsAbsent(dir: set<string>, name: string) returns (k: nat)
    ensures 1 <= k <= |dir| + 1 && Numbered(name, k) !in dir
  {
    var names := NumberedUpTo(name, |dir| + 1);
    var i := Pigeonhole(dir, names);
    k := i + 1;
  }

  lemma {:induction false} NumberedUpTo(name: string, n: nat) returns (names: seq<string>)
    ensures |names| == n && forall i | 0 <= i < n :: names[i] == Numbered(name, i + 1)
    ensures forall i, j | 0 <= i < j < n :: names[i] != names[j]
  {
    names := [];
    if n > 0 {
      var front := NumberedUpTo(name, n - 1);
      var last := Numbered(name, n);
      forall i | 0 <= i < n - 1
        ensures front[i] != last
      {
        NumberedDiffer(name, i + 1, n);
      }
      names := front + [last];
    }
  }

  // A number that fits shows that all smaller ones fit.
  lemma {:induction false} FreeSomewhere(dir: set<string>, limit: nat, name: string, n: nat)
    requires Free(dir, limit, Tried(name, n))
    ensures SomeFree(dir, limit, name)
  {
    if n > |dir| + 1 {
      var k := OneIsAbsent(dir, name);
      NumberedLength(name, n);
      NumberedLength(name, k);
      SmallerIsNoLonger(k, n);
      assert Free(dir, limit, Tried(name, k));
    }
  }

  // The loop ends if and only if the name or one of its first few numbered
  // forms is absent and short enough.
  lemma {:induction false} SearchEndsIff(dir: set<string>, limit: nat, name: string)
    ensures (exists turns :: Search(FreeAt(dir, limit, name), 0, turns).Some?) <==> SomeFree(dir, limit, name)
  {
    var ends := FreeAt(dir, limit, name);
    forall turns | Search(ends, 0, turns).Some?
      ensures SomeFree(dir, limit, name)
    {
      SearchEndsFree(ends, 0, turns);
      FreeSomewhere(dir, limit, name, Search(ends, 0, turns).value);
    }
    if SomeFree(dir, limit, name) {
      var k :| 0 <= k <= |dir| + 1 && Free(dir, limit, Tried(name, k));
      FreeEndsSearch(ends, 0, k);
    }
  }

  // A name that is there and leaves no room for a space, two parentheses and a
  // digit keeps the loop going for ever.
  lemma {:induction false} LongNameNeverEnds(dir: set<string>, limit: nat, name: string, turns: nat)
    requires name in dir && |Filename.Bytes(name)| + 4 > limit
    ensures Search(FreeAt(dir, limit, name), 0, turns) == None
  {
    forall k | 0 <= k <= |dir| + 1
      ensures !Free(dir, limit, Tried(name, k))
    {
      NumberedLength(name, k);
      Decimal.ItoaReadsBack(k);
    }
    SearchEndsIff(dir, limit, name);
  }

  // Such as a name of 255 bytes where 255 is the limit.
  lemma {:induction false} TwoHundredFiftyFive(name: string, turns: nat)
    requires name == seq(255, _ => 'a')
    ensures Search(FreeAt({name}, 255, name), 0, turns) == None
  {
    assert Filename.Ascii(name);
    Filename.AsciiBytes(name);
    LongNameNeverEnds({name}, 255, name, turns);
  }

  // It always ends where the longest number needed still fits.
  lemma {:induction false} ShortNameEnds(dir: set<string>, limit: nat, name: string)
    requires |Filename.Bytes(Numbered(name, |dir| + 1))| <= limit
    ensures SomeFree(dir, limit, name)
  {
    var k := OneIsAbsent(dir, name);
    NumberedLength(name, |dir| + 1);
    NumberedLength(name, k);
    SmallerIsNoLonger(k, |dir| + 1);
    assert Free(dir, limit, Tried(name, k));
  }

  ghost predicate NoneFree(dir: set<string>, limit: nat, name: string, n: nat) {
    forall j: nat | j < n :: !Free(dir, limit, Tried(name, j))
  }

  // The name itself when it is free, else its first free numbered form.  The
  // precondition is exactly that the loop ends.
  method UniquePath(dir: set<string>, limit: nat, name: string) returns (r: string)
    requires SomeFree(dir, limit, name)
    ensures Free(dir, limit, r)
    ensures exists n: nat :: r == Tried(name, n) && NoneFree(dir, limit, name, n)
  {
    ghost var last :| 0 <= last <= |dir| + 1 && Free(dir, limit, Tried(name, last));
    var candidate := name;
    var i: nat := 1;
    while true
      invariant 1 <= i <= last + 1 && candidate == Tried(name, i - 1)
      invariant NoneFree(dir, limit, name, i - 1)
      decreases last + 1 - i
    {
      if Free(dir, limit, candidate) {
        return candidate;
      }
      var ext := Ext(name);
      var stem := Stem(name);
      candidate := stem + " (" + Decimal.Itoa(i) + ")" + ext;
      NextTried(name, i, candidate);
      NoneFreeYet(dir, limit, name, i);
      i := i + 1;
    }
  }

  lemma {:induction false} NextTried(name: string, i: nat, candidate: string)
    requires i >= 1 && candidate == Stem(name) + " (" + Decimal.Itoa(i) + ")" + Ext(name)
    ensures candidate == Tried(name, i)
  {
    Regrouped(Stem(name) + " (" + Decimal.Itoa(i), ")", Ext(name));
  }

  lemma {:induction false} NoneFreeYet(dir: set<string>, limit: nat, name: string, i: nat)
    requires i >= 1 && NoneFree(dir, limit, name, i - 1) && !Free(dir, limit, Tried(name, i - 1))
    ensures NoneFree(dir, limit, name, i)
  {
  }
}
