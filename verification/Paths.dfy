// Slash paths as segment lists, and path.Clean over them.
module Paths {

  predicate NoSlash(s: string) {
    '/' !in s
  }

  // Putting one more character in front of the first part.
  function Cons(c: char, segs: seq<string>): seq<string>
    requires segs != []
  {
    if c == '/' then [""] + segs else [[c] + segs[0]] + segs[1..]
  }

  // strings.Split(p, "/")
  function Split(p: string): (segs: seq<string>)
    ensures |segs| >= 1
    ensures forall i | 0 <= i < |segs| :: NoSlash(segs[i])
  {
    if p == "" then [""]
    else
      var rest := Split(p[1..]);
      assert p[0] != '/' ==> NoSlash([p[0]] + rest[0]);
      Cons(p[0], rest)
  }

  // strings.Join(segs, "/")
  function Join(segs: seq<string>): string {
    if segs == [] then ""
    else if |segs| == 1 then segs[0]
    else segs[0] + "/" + Join(segs[1..])
  }

  lemma {:induction false} SplitPlain(s: string)
    requires NoSlash(s)
    ensures Split(s) == [s]
  {
    if s != "" {
      SplitPlain(s[1..]);
      assert s == [s[0]] + s[1..];
    }
  }

  lemma {:induction false} SplitConcat(u: string, v: string)
    ensures Split(u + "/" + v) == Split(u) + Split(v)
  {
    var p := u + "/" + v;
    if u == "" {
      assert p[1..] == v;
    } else {
      assert p[1..] == u[1..] + "/" + v && p[0] == u[0];
      SplitConcat(u[1..], v);
      FirstPart(u[0], Split(u[1..]), Split(v));
    }
  }

  lemma {:induction false} FirstPart(c: char, a: seq<string>, b: seq<string>)
    requires a != []
    ensures Cons(c, a + b) == Cons(c, a) + b
  {
    assert (a + b)[0] == a[0] && (a + b)[1..] == a[1..] + b;
  }

  lemma {:induction false} SplitOfJoin(segs: seq<string>)
    requires segs != [] && forall i | 0 <= i < |segs| :: NoSlash(segs[i])
    ensures Split(Join(segs)) == segs
  {
    SplitPlain(segs[0]);
    if |segs| > 1 {
      SplitOfJoin(segs[1..]);
      SplitConcat(segs[0], Join(segs[1..]));
    }
  }

  lemma {:induction false} JoinConcat(a: seq<string>, b: seq<string>)
    requires a != [] && b != []
    ensures Join(a + b) == Join(a) + "/" + Join(b)
  {
    if |a| == 1 {
      assert (a + b)[1..] == b;
    } else {
      assert (a + b)[1..] == a[1..] + b;
      JoinConcat(a[1..], b);
    }
  }

  // ---------------------------------------------------------------------------
  // Clean
  // ---------------------------------------------------------------------------

  // A segment that names an entry.
  predicate Proper(s: string) {
    s != "" && s != "." && s != ".." && NoSlash(s)
  }

  predicate AllProper(segs: seq<string>) {
    forall i | 0 <= i < |segs| :: Proper(segs[i])
  }

  // One more segment behind a cleaned path: empty and "." change nothing, ".."
  // takes the last name away, and is dropped at the root.
  function Push(rooted: bool, done: seq<string>, s: string): seq<string> {
    if s == "" || s == "." then done
    else if s == ".." then
      if done != [] && done[|done|-1] != ".." then done[..|done|-1]
      else if rooted then done
      else done + [".."]
    else done + [s]
  }

  function Walk(rooted: bool, done: seq<string>, segs: seq<string>): seq<string>
    decreases |segs|
  {
    if segs == [] then done else Walk(rooted, Push(rooted, done, segs[0]), segs[1..])
  }

  predicate IsAbs(p: string) {
    p != "" && p[0] == '/'
  }

  function Clean(p: string): string {
    if IsAbs(p) then "/" + Join(Walk(true, [], Split(p)))
    else
      var names := Walk(false, [], Split(p));
      if names == [] then "." else Join(names)
  }

  // The absolute path with these names.
  function Abs(names: seq<string>): string {
    "/" + Join(names)
  }

  lemma {:induction false} WalkProper(rooted: bool, done: seq<string>, segs: seq<string>)
    requires AllProper(segs)
    ensures Walk(rooted, done, segs) == done + segs
    decreases |segs|
  {
    if segs != [] {
      WalkProper(rooted, done + [segs[0]], segs[1..]);
      assert done + [segs[0]] + segs[1..] == done + segs;
    }
  }

  lemma {:induction false} WalkConcat(rooted: bool, done: seq<string>, a: seq<string>, b: seq<string>)
    ensures Walk(rooted, done, a + b) == Walk(rooted, Walk(rooted, done, a), b)
    decreases |a|
  {
    if a == [] {
      assert a + b == b;
    } else {
      assert (a + b)[0] == a[0] && (a + b)[1..] == a[1..] + b;
      WalkConcat(rooted, Push(rooted, done, a[0]), a[1..], b);
    }
  }

  lemma {:induction false} RootedWalkIsProper(done: seq<string>, segs: seq<string>)
    requires AllProper(done) && forall i | 0 <= i < |segs| :: NoSlash(segs[i])
    ensures AllProper(Walk(true, done, segs))
    decreases |segs|
  {
    if segs != [] {
      RootedWalkIsProper(Push(true, done, segs[0]), segs[1..]);
    }
  }

  // Cleaning an absolute path, in terms of names.
  lemma {:induction false} CleanAbs(names: seq<string>)
    requires AllProper(names)
    ensures IsAbs(Abs(names)) && Clean(Abs(names)) == Abs(names)
    ensures Split(Abs(names)) == if names == [] then ["", ""] else [""] + names
    ensures Walk(true, [], Split(Abs(names))) == names
  {
    assert Abs(names)[1..] == Join(names);
    if names == [] {
      assert Split("/") == ["", ""] by { assert "/"[1..] == ""; }
      assert [""] + [""] == ["", ""];
      assert ["", ""][1..] == [""] && [""][1..] == [];
      assert Walk(true, [], ["", ""]) == Walk(true, [], [""]) == [];
    } else {
      SplitOfJoin(names);
      assert ([""] + names)[1..] == names;
      WalkProper(true, [], names);
      assert [] + names == names;
      assert Walk(true, [], [""] + names) == Walk(true, [], names);
    }
  }

  lemma {:induction false} AbsInjective(a: seq<string>, b: seq<string>)
    requires AllProper(a) && AllProper(b) && Abs(a) == Abs(b)
    ensures a == b
  {
    CleanAbs(a);
    CleanAbs(b);
  }

  // What every cleaned absolute path looks like.
  lemma {:induction false} CleanedNames(p: string) returns (names: seq<string>)
    requires IsAbs(p)
    ensures AllProper(names) && Clean(p) == Abs(names) && names == Walk(true, [], Split(p))
  {
    names := Walk(true, [], Split(p));
    RootedWalkIsProper([], Split(p));
  }

  // ---------------------------------------------------------------------------
  // Prefixes
  // ---------------------------------------------------------------------------

  predicate HasPrefix(s: string, prefix: string) {
    |prefix| <= |s| && s[..|prefix|] == prefix
  }

  lemma {:induction false} SameFirstChar(s: string, prefix: string)
    requires HasPrefix(s, prefix) && prefix != ""
    ensures s != "" && s[0] == prefix[0]
  {
    assert s[..|prefix|][0] == s[0];
  }

  lemma {:induction false} SegmentPrefixShows(base: seq<string>, rest: seq<string>)
    requires AllProper(base) && AllProper(rest) && base != [] && rest != []
    ensures HasPrefix(Abs(base + rest), Abs(base) + "/")
  {
    JoinConcat(base, rest);
    assert Abs(base + rest) == Abs(base) + "/" + Join(rest);
  }

  lemma {:induction false} ShownIsSegmentPrefix(base: seq<string>, target: seq<string>, rest: string)
    requires AllProper(base) && AllProper(target) && base != []
    requires Abs(target) == Abs(base) + "/" + rest
    ensures target == base + Split(rest)
  {
    SplitConcat(Abs(base), rest);
    CleanAbs(base);
    CleanAbs(target);
    BehindTheFirst(base, Split(rest), target, Split(Abs(target)));
  }

  lemma {:induction false} BehindTheFirst(base: seq<string>, rest: seq<string>, target: seq<string>, t: seq<string>)
    requires base != [] && base[0] != "" && t == ([""] + base) + rest
    requires t == if target == [] then ["", ""] else [""] + target
    ensures target == base + rest
  {
    assert t[1] == base[0];
    assert t[1..] == base + rest;
    assert ([""] + target)[1..] == target;
  }

  // Comparing strings behind a separator compares segment lists.
  lemma {:induction false} StringPrefixIsSegmentPrefix(base: seq<string>, target: seq<string>)
    requires AllProper(base) && AllProper(target) && base != []
    ensures HasPrefix(Abs(target), Abs(base) + "/") <==> base < target
  {
    if base < target {
      SegmentPrefixShows(base, target[|base|..]);
      assert target == base + target[|base|..];
    }
    if HasPrefix(Abs(target), Abs(base) + "/") {
      var rest := Abs(target)[|Abs(base)| + 1..];
      assert Abs(target) == Abs(base) + "/" + rest;
      ShownIsSegmentPrefix(base, target, rest);
    }
  }
}
