// internal/safepath: keeping a path below its base.
module SafePath {
  import opened Common
  import opened Paths

  // path is at or below base, both cleaned.
  predicate WithinBase(base: string, target: string) {
    var b, t := Clean(base), Clean(target);
    b == t || HasPrefix(t, b + "/")
  }

  // filepath.IsLocal on Unix.
  predicate IsLocal(p: string) {
    p != "" && !IsAbs(p) && Clean(p) != ".." && !HasPrefix(Clean(p), "../")
  }

  // filepath.Join of two non-empty elements.
  function JoinPath(a: string, b: string): string {
    Clean(a + "/" + b)
  }

  function ResolveInside(base: string, rel: string): Option<string> {
    if !IsAbs(base) then None
    else
      var b := Clean(base);
      if rel == "" || !IsLocal(rel) then None
      else
        var joined := Clean(JoinPath(b, rel));
        if joined != b && !HasPrefix(joined, b + "/") then None
        else Some(joined)
  }

  // ---------------------------------------------------------------------------
  // WithinBase
  // ---------------------------------------------------------------------------

  lemma {:induction false} RelativeCleanIsRelative(p: string)
    requires !IsAbs(p)
    ensures !IsAbs(Clean(p))
  {
    var names := Walk(false, [], Split(p));
    if names != [] {
      WalkedSegments(false, [], Split(p));
      assert names[0] != "" && NoSlash(names[0]);
      if |names| > 1 {
        assert Join(names)[0] == names[0][0];
      }
      assert names[0][0] in names[0];
    }
  }

  predicate SegmentOrDots(s: string) {
    s != "" && s != "." && NoSlash(s)
  }

  lemma {:induction false} WalkedSegments(rooted: bool, done: seq<string>, segs: seq<string>)
    requires forall i | 0 <= i < |done| :: SegmentOrDots(done[i])
    requires forall i | 0 <= i < |segs| :: NoSlash(segs[i])
    ensures forall i | 0 <= i < |Walk(rooted, done, segs)| :: SegmentOrDots(Walk(rooted, done, segs)[i])
    decreases |segs|
  {
    if segs != [] {
      WalkedSegments(rooted, Push(rooted, done, segs[0]), segs[1..]);
    }
  }

  // For a clean absolute base other than "/", a path is within it exactly when
  // it is absolute and its names begin with the base's names.
  lemma {:induction false} WithinIsSegmentPrefix(base: seq<string>, target: string)
    requires AllProper(base) && base != []
    ensures WithinBase(Abs(base), target) <==> IsAbs(target) && base <= Walk(true, [], Split(target))
  {
    CleanAbs(base);
    if IsAbs(target) {
      var t := CleanedNames(target);
      StringPrefixIsSegmentPrefix(base, t);
      if Abs(base) == Abs(t) { AbsInjective(base, t); }
      CleanAbs(t);
      assert base <= t <==> base == t || base < t;
    } else {
      RelativeCleanIsRelative(target);
      if HasPrefix(Clean(target), Abs(base) + "/") {
        SameFirstChar(Clean(target), Abs(base) + "/");
      }
    }
  }

  // ---------------------------------------------------------------------------
  // Local paths
  // ---------------------------------------------------------------------------

  // Following the segments never leads above where they start.
  predicate StaysBelow(depth: nat, segs: seq<string>)
    decreases |segs|
  {
    if segs == [] then true
    else if segs[0] == "" || segs[0] == "." then StaysBelow(depth, segs[1..])
    else if segs[0] == ".." then depth > 0 && StaysBelow(depth - 1, segs[1..])
    else StaysBelow(depth + 1, segs[1..])
  }

  predicate Escapes(names: seq<string>) {
    names != [] && names[0] == ".."
  }

  lemma {:induction false} DotsStay(done: seq<string>, segs: seq<string>)
    requires Escapes(done)
    ensures Escapes(Walk(false, done, segs))
    decreases |segs|
  {
    if segs != [] {
      DotsStay(Push(false, done, segs[0]), segs[1..]);
    }
  }

  // A walk that stays below its start is the same walk under any base.
  lemma {:induction false} WalkBelow(base: seq<string>, done: seq<string>, segs: seq<string>)
    requires AllProper(done) && forall i | 0 <= i < |segs| :: NoSlash(segs[i])
    ensures StaysBelow(|done|, segs) <==> !Escapes(Walk(false, done, segs))
    ensures StaysBelow(|done|, segs) ==>
              AllProper(Walk(false, done, segs)) && Walk(true, base + done, segs) == base + Walk(false, done, segs)
    decreases |segs|
  {
    if segs != [] {
      var s := segs[0];
      var next := Push(false, done, s);
      if s == ".." && done == [] {
        DotsStay([".."], segs[1..]);
        assert next == [".."];
      } else {
        WalkBelow(base, next, segs[1..]);
        assert Push(true, base + done, s) == base + next by {
          if s == ".." {
            assert (base + done)[..|base + done| - 1] == base + done[..|done| - 1];
          } else if s != "" && s != "." {
            assert base + done + [s] == base + (done + [s]);
          }
        }
      }
    }
  }

  lemma {:induction false} DotsPrefix(names: seq<string>, j: string)
    requires names != [] && Split(j) == names && HasPrefix(j, "../")
    ensures names[0] == ".."
  {
    assert j == ".." + "/" + j[3..];
    SplitConcat("..", j[3..]);
    SplitPlain("..");
  }

  lemma {:induction false} DotsInFront(names: seq<string>)
    requires names != [] && forall i | 0 <= i < |names| :: SegmentOrDots(names[i])
    ensures Join(names) == ".." || HasPrefix(Join(names), "../") <==> names[0] == ".."
  {
    SplitOfJoin(names);
    SplitPlain("..");
    if names[0] == ".." && |names| > 1 {
      DotsThenMore(names[1..]);
      assert Join(names) == ".." + "/" + Join(names[1..]);
    }
    if HasPrefix(Join(names), "../") {
      DotsPrefix(names, Join(names));
    }
  }

  lemma {:induction false} DotsThenMore(rest: seq<string>)
    ensures HasPrefix(".." + "/" + Join(rest), "../")
  {
  }

  // The library's test, and the walk that defines what it means.
  lemma {:induction false} LocalIsStaysBelow(rel: string)
    requires rel != "" && !IsAbs(rel)
    ensures IsLocal(rel) <==> StaysBelow(0, Split(rel))
  {
    WalkBelow([], [], Split(rel));
    WalkedSegments(false, [], Split(rel));
    var names := Walk(false, [], Split(rel));
    if names != [] {
      DotsInFront(names);
    }
  }

  // ---------------------------------------------------------------------------
  // ResolveInside
  // ---------------------------------------------------------------------------

  // Under an absolute base, exactly the local paths resolve, and the last
  // test rejects nothing more, unless the base is the root directory itself:
  // there only paths that name no entry at all get through.
  lemma {:induction false} ResolveInsideExactly(base: seq<string>, rel: string)
    requires AllProper(base)
    ensures base != [] ==>
              ResolveInside(Abs(base), rel) ==
              if IsLocal(rel) then Some(Abs(base + Walk(false, [], Split(rel)))) else None
    ensures base == [] ==>
              (ResolveInside(Abs(base), rel).Some? <==> IsLocal(rel) && Walk(false, [], Split(rel)) == [])
    ensures IsLocal(rel) ==> AllProper(Walk(false, [], Split(rel)))
  {
    CleanAbs(base);
    if IsLocal(rel) {
      LocalIsStaysBelow(rel);
      WalkBelow(base, [], Split(rel));
      var names := Walk(false, [], Split(rel));
      JoinedNames(base, rel);
      CleanAbs(base + names);
      if base != [] {
        StringPrefixIsSegmentPrefix(base, base + names);
        if names == [] { assert base + names == base; }
      } else {
        assert base + names == names;
        RootHasNoChildren(names);
      }
    }
  }

  lemma {:induction false} JoinedNames(base: seq<string>, rel: string)
    requires AllProper(base) && StaysBelow(0, Split(rel))
    ensures JoinPath(Abs(base), rel) == Abs(base + Walk(false, [], Split(rel)))
  {
    var p := Abs(base) + "/" + rel;
    assert IsAbs(p);
    SplitConcat(Abs(base), rel);
    CleanAbs(base);
    WalkConcat(true, [], Split(Abs(base)), Split(rel));
    WalkBelow(base, [], Split(rel));
    assert base + [] == base;
  }

  // "/" + "/" is a prefix of no cleaned path.
  lemma {:induction false} RootHasNoChildren(names: seq<string>)
    requires AllProper(names)
    ensures !HasPrefix(Abs(names), "/" + "/")
    ensures Abs(names) == "/" <==> names == []
  {
    if names != [] {
      assert names[0] != "" && names[0][0] in names[0];
      assert Join(names)[0] == names[0][0];
      assert Abs(names)[1] == names[0][0];
      assert Abs(names)[..2] != "//" by {
        assert Abs(names)[..2][1] == names[0][0];
      }
    }
  }
}
