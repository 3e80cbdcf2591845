// Searching by name: escapeLike against SQLite's LIKE ... ESCAPE '\'.
module Like {

  function EscapeLike(s: string): string {
    if s == "" then ""
    else (if s[0] == '\\' || s[0] == '%' || s[0] == '_' then ['\\', s[0]] else [s[0]]) + EscapeLike(s[1..])
  }

  // SQLite's LIKE folds the case of ASCII letters only.
  function Fold(c: char): char {
    if 'A' <= c <= 'Z' then (c as int + 32) as char else c
  }

  // t LIKE p ESCAPE '\': % is any run of characters, _ any one character, and
  // a character after \ stands for itself.  A pattern that ends in \ matches
  // nothing.
  predicate Matches(p: string, t: string)
    decreases |p| + |t|
  {
    if p == "" then t == ""
    else if p[0] == '\\' then
      |p| >= 2 && t != "" && Fold(t[0]) == Fold(p[1]) && Matches(p[2..], t[1..])
    else if p[0] == '%' then
      Matches(p[1..], t) || (t != "" && Matches(p, t[1..]))
    else if p[0] == '_' then
      t != "" && Matches(p[1..], t[1..])
    else
      t != "" && Fold(t[0]) == Fold(p[0]) && Matches(p[1..], t[1..])
  }

  // Equal but for the case of ASCII letters.
  predicate SameLetter(a: char, b: char) {
    || a == b
    || ('A' <= a <= 'Z' && b as int == a as int + 32)
    || ('A' <= b <= 'Z' && a as int == b as int + 32)
  }

  lemma FoldsTogetherIff(a: char, b: char)
    ensures Fold(a) == Fold(b) <==> SameLetter(a, b)
  {
  }

  predicate OccursAt(s: string, t: string, i: int) {
    0 <= i <= i + |s| <= |t| && forall k | 0 <= k < |s| :: SameLetter(s[k], t[i + k])
  }

  ghost predicate Contains(s: string, t: string) {
    exists i :: OccursAt(s, t, i)
  }

  lemma {:induction false} PercentMatchesAll(t: string)
    ensures Matches("%", t)
    decreases |t|
  {
    assert "%"[1..] == "";
    if t != "" {
      PercentMatchesAll(t[1..]);
    }
  }

  lemma {:induction false} OccursFirst(s: string, t: string)
    requires s != "" && t != ""
    ensures OccursAt(s, t, 0) <==> SameLetter(s[0], t[0]) && OccursAt(s[1..], t[1..], 0)
  {
    if OccursAt(s[1..], t[1..], 0) {
      forall k | 1 <= k < |s|
        ensures SameLetter(s[k], t[k])
      {
        assert SameLetter(s[1..][k - 1], t[1..][0 + (k - 1)]);
      }
    }
    if OccursAt(s, t, 0) {
      forall k | 0 <= k < |s| - 1
        ensures SameLetter(s[1..][k], t[1..][k])
      {
        assert SameLetter(s[k + 1], t[0 + (k + 1)]);
      }
    }
  }

  lemma {:induction false} OccursInSuffix(s: string, t: string, i: nat)
    requires i <= |t|
    ensures OccursAt(s, t[i..], 0) <==> OccursAt(s, t, i)
  {
    assert forall k | 0 <= k < |t| - i :: t[i..][k] == t[i + k];
  }

  // An escaped string followed by % is matched by what begins with it.
  lemma {:induction false} EscapedPrefix(s: string, t: string)
    ensures Matches(EscapeLike(s) + "%", t) <==> OccursAt(s, t, 0)
    decreases |s|
  {
    var p := EscapeLike(s) + "%";
    if s == "" {
      assert p == "%";
      PercentMatchesAll(t);
    } else {
      var rest := EscapeLike(s[1..]) + "%";
      if t != "" {
        EscapedPrefix(s[1..], t[1..]);
        OccursFirst(s, t);
        FoldsTogetherIff(s[0], t[0]);
      }
      if s[0] == '\\' || s[0] == '%' || s[0] == '_' {
        assert p == ['\\', s[0]] + rest;
        assert p[2..] == rest;
      } else {
        assert p == [s[0]] + rest;
        assert p[1..] == rest;
      }
    }
  }

  // A leading % tries every suffix.
  lemma {:induction false} PercentTriesSuffixes(p: string, t: string)
    ensures Matches("%" + p, t) <==> exists i :: 0 <= i <= |t| && Matches(p, t[i..])
    decreases |t|
  {
    var q := "%" + p;
    assert q[1..] == p && t[0..] == t;
    if t == "" {
      assert forall i | 0 <= i <= |t| :: t[i..] == t;
    } else {
      PercentTriesSuffixes(p, t[1..]);
      assert forall i | 0 <= i < |t| :: t[1..][i..] == t[i + 1..];
      if i :| 0 <= i <= |t[1..]| && Matches(p, t[1..][i..]) {
        assert Matches(p, t[i + 1..]);
      }
      if i :| 0 <= i <= |t| && Matches(p, t[i..]) {
        if i > 0 {
          assert Matches(p, t[1..][i - 1..]);
        }
      }
    }
  }

  // For all strings, wildcards and escapes included: a name is found exactly
  // when it contains the search text, letter case of ASCII aside.
  lemma {:induction false} SearchFindsSubstrings(s: string, t: string)
    ensures Matches("%" + EscapeLike(s) + "%", t) <==> Contains(s, t)
  {
    var p := EscapeLike(s) + "%";
    assert "%" + EscapeLike(s) + "%" == "%" + p;
    PercentTriesSuffixes(p, t);
    forall i | 0 <= i <= |t|
      ensures Matches(p, t[i..]) <==> OccursAt(s, t, i)
    {
      EscapedPrefix(s, t[i..]);
      OccursInSuffix(s, t, i);
    }
  }
}
