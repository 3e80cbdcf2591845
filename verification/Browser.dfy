// internal/fsbrowse: what client paths resolve to, and what listings link to.
module Browsing {
  import opened Common
  import opened Paths
  import opened SafePath

  const META_DIR := ".myshare"

  function Slashes(raw: string): string {
    seq(|raw|, i requires 0 <= i < |raw| => if raw[i] == '\\' then '/' else raw[i])
  }

  function TrimPrefix(s: string, prefix: string): string {
    if HasPrefix(s, prefix) then s[|prefix|..] else s
  }

  // strings.SplitN(s, "/", 2)[0]
  function FirstSegment(s: string): string {
    Split(s)[0]
  }

  // `target` is what EvalSymlinks says of the resolved path, None on error.
  function Resolve(root: string, raw: string, target: Option<string>): Option<string> {
    var p := Slashes(raw);
    if ".." in Split(p) then None
    else
      var rel := TrimPrefix(Clean("/" + p), "/");
      if rel == "" || rel == "." then
        if p != "" && p != "." && p != "/" then None else Some(root)
      else
        var abs := ResolveInside(root, rel);
        if abs.None? then None
        else if FirstSegment(rel) == META_DIR then None
        else if target.Some? && !WithinBase(root, target.value) then None
        else abs
  }

  // resolve itself: `links` is EvalSymlinks, asked about the path arrived at.
  function ResolveBy(root: string, raw: string, links: string -> Option<string>): Option<string> {
    var abs := Resolve(root, raw, None);
    if abs.None? then None else Resolve(root, raw, links(abs.value))
  }

  // ---------------------------------------------------------------------------
  // What resolves
  // ---------------------------------------------------------------------------

  // The segments of a path that name entries, in order.
  function NamesIn(segs: seq<string>): seq<string> {
    if segs == [] then []
    else (if segs[0] == "" || segs[0] == "." then [] else [segs[0]]) + NamesIn(segs[1..])
  }

  lemma {:induction false} NamesAreProper(segs: seq<string>)
    requires ".." !in segs && forall i | 0 <= i < |segs| :: NoSlash(segs[i])
    ensures AllProper(NamesIn(segs))
  {
    if segs != [] {
      NamesAreProper(segs[1..]);
    }
  }

  lemma {:induction false} WalkWithoutDots(rooted: bool, done: seq<string>, segs: seq<string>)
    requires ".." !in segs
    ensures Walk(rooted, done, segs) == done + NamesIn(segs)
    decreases |segs|
  {
    if segs != [] {
      WalkWithoutDots(rooted, Push(rooted, done, segs[0]), segs[1..]);
      assert done + [segs[0]] + NamesIn(segs[1..]) == done + ([segs[0]] + NamesIn(segs[1..]));
      assert done + NamesIn(segs[1..]) == done + ([] + NamesIn(segs[1..]));
    }
  }

  lemma {:induction false} NamesOfProper(names: seq<string>)
    requires AllProper(names)
    ensures NamesIn(names) == names
  {
    if names != [] {
      NamesOfProper(names[1..]);
      assert names == [names[0]] + names[1..];
    }
  }

  predicate InsideRoot(root: string, target: Option<string>) {
    target.Some? ==> WithinBase(root, target.value)
  }

  // Joined names: not empty, not ".", local, and they split again.
  lemma {:induction false} JoinedNamesAreLocal(names: seq<string>)
    requires AllProper(names) && names != []
    ensures Split(Join(names)) == names
    ensures Join(names) != "" && Join(names) != "."
    ensures IsLocal(Join(names)) && Walk(false, [], names) == names
  {
    var j := Join(names);
    SplitOfJoin(names);
    assert names[0][0] in names[0];
    assert j[0] == names[0][0];
    WalkProper(false, [], names);
    assert [] + names == names;
    if j == "." {
      SplitPlain(".");
    }
    DotsInFront(names);
  }

  // For a clean absolute root other than "/", in terms of names alone.
  lemma {:induction false} ResolveExactly(root: seq<string>, raw: string, target: Option<string>)
    requires AllProper(root) && root != []
    ensures var segs := Split(Slashes(raw));
            var names := NamesIn(segs);
            Resolve(Abs(root), raw, target) ==
            if ".." in segs then None
            else if names == [] then
              if Slashes(raw) in {"", ".", "/"} then Some(Abs(root)) else None
            else if names[0] == ".myshare" || !InsideRoot(Abs(root), target) then None
            else Some(Abs(root + names))
  {
    var p := Slashes(raw);
    var segs := Split(p);
    if ".." !in segs {
      var names := NamesIn(segs);
      NamesAreProper(segs);
      RootedClean(p);
      var rel := TrimPrefix(Clean("/" + p), "/");
      assert rel == Join(names);
      if names != [] {
        JoinedNamesAreLocal(names);
        ResolveInsideExactly(root, rel);
      }
    }
  }

  lemma {:induction false} RootedClean(p: string)
    requires ".." !in Split(p)
    ensures Clean("/" + p) == "/" + Join(NamesIn(Split(p)))
  {
    assert ("/" + p)[1..] == p && "" + "/" + p == "/" + p;
    SplitConcat("", p);
    assert ([""] + Split(p))[1..] == Split(p);
    assert Walk(true, [], [""] + Split(p)) == Walk(true, [], Split(p));
    WalkWithoutDots(true, [], Split(p));
    assert [] + NamesIn(Split(p)) == NamesIn(Split(p));
  }

  // Nothing but the root, or a path below it outside the meta directory, is
  // ever handed to the file system.
  lemma {:induction false} ResolveStaysInside(root: seq<string>, raw: string, target: Option<string>)
    requires AllProper(root) && root != [] && Resolve(Abs(root), raw, target).Some?
    ensures exists names :: AllProper(names) && Resolve(Abs(root), raw, target) == Some(Abs(root + names)) &&
              (names != [] ==> names[0] != ".myshare")
    ensures WithinBase(Abs(root), Resolve(Abs(root), raw, target).value)
  {
    ResolveExactly(root, raw, target);
    var names := NamesIn(Split(Slashes(raw)));
    NamesAreProper(Split(Slashes(raw)));
    assert root + [] == root;
    assert Resolve(Abs(root), raw, target) == Some(Abs(root + names));
    CleanAbs(root + names);
    WithinIsSegmentPrefix(root, Abs(root + names));
  }

  // ---------------------------------------------------------------------------
  // Listings
  // ---------------------------------------------------------------------------

  // filepath.Rel for a path at or below the base.
  function Rel(base: string, abs: string): string {
    if abs == base then "." else if HasPrefix(abs, base + "/") then abs[|base| + 1..] else ""
  }

  function JoinRel(dir: string, name: string): string {
    if dir == "" || dir == "." then name else dir + "/" + name
  }

  // path.Dir: everything before the last slash, cleaned.
  function Dir(p: string): string {
    var segs := Split(p);
    var front := Join(segs[..|segs|-1]);
    Clean(if |segs| == 1 then "" else front + "/")
  }

  function ParentOf(rel: string): string {
    if rel == "" then ""
    else
      var p := Dir(rel);
      if p == "." || p == "/" then "" else p
  }

  function CleanRel(root: string, abs: string): string {
    var r := Rel(root, abs);
    if r == "." then "" else r
  }

  // What ReadDir returns: whether Info succeeds, and for a symbolic link what
  // EvalSymlinks says of it.
  datatype DirEntry = DirEntry(name: string, readable: bool, symlink: bool, target: Option<string>)

  datatype Entry = Entry(name: string, path: string)

  datatype Listing = Listing(dir: string, parent: string, entries: seq<Entry>)

  predicate Hidden(name: string) {
    name == META_DIR || HasPrefix(name, META_DIR)
  }

  // A symbolic link is listed only when it leads somewhere inside the root.
  predicate Listed(root: string, de: DirEntry) {
    && !Hidden(de.name) && de.readable
    && (de.symlink ==> de.target.Some? && WithinBase(root, de.target.value))
  }

  // The entries shown are those listed, each once and in order, with the path
  // that leads there: `from` says which directory entry each one is.
  ghost predicate Shown(root: string, dir: string, des: seq<DirEntry>, entries: seq<Entry>, from: seq<nat>) {
    && |from| == |entries|
    && (forall i, j | 0 <= i < j < |from| :: from[i] < from[j])
    && (forall i | 0 <= i < |from| :: from[i] < |des| && Listed(root, des[from[i]]))
    && (forall i | 0 <= i < |from| :: entries[i] == Entry(des[from[i]].name, JoinRel(dir, des[from[i]].name)))
    && (forall k | 0 <= k < |des| && Listed(root, des[k]) :: k in from)
  }

  // What ReadDir says of the resolved directory.
  datatype Reading = Entries(des: seq<DirEntry>) | NotThere | Unreadable

  datatype ListError = Unsafe | NotFound | Failed

  method List(root: string, relDir: string, links: string -> Option<string>, reading: Reading)
    returns (l: Result<Listing, ListError>, ghost from: seq<nat>)
    ensures l == Failure(Unsafe) <==> ResolveBy(root, relDir, links).None?
    ensures l == Failure(NotFound) <==> ResolveBy(root, relDir, links).Some? && reading.NotThere?
    ensures l == Failure(Failed) <==> ResolveBy(root, relDir, links).Some? && reading.Unreadable?
    ensures l.Success? ==> l.value.dir == CleanRel(root, ResolveBy(root, relDir, links).value)
    ensures l.Success? ==> l.value.parent == ParentOf(l.value.dir)
    ensures l.Success? ==> Shown(root, l.value.dir, reading.des, l.value.entries, from)
  {
    from := [];
    var abs := ResolveBy(root, relDir, links);
    if abs.None? {
      return Failure(Unsafe), from;
    }
    if reading.NotThere? {
      return Failure(NotFound), from;
    }
    if reading.Unreadable? {
      return Failure(Failed), from;
    }
    var des := reading.des;
    var cleanRel := Rel(root, abs.value);
    if cleanRel == "." {
      cleanRel := "";
    }
    var entries := [];
    var i := 0;
    assert des[..0] == [];
    while i < |des|
      invariant 0 <= i <= |des| && Shown(root, cleanRel, des[..i], entries, from)
    {
      var de := des[i];
      ghost var before, was, fewer := from, entries, des[..i];
      assert des[..i + 1] == fewer + [de];
      i := i + 1;
      if de.name == META_DIR || HasPrefix(de.name, META_DIR) {
        NotShown(root, cleanRel, fewer, de, entries, from);
        continue;
      }
      if !de.readable {
        NotShown(root, cleanRel, fewer, de, entries, from);
        continue;
      }
      if de.symlink && (de.target.None? || !WithinBase(root, de.target.value)) {
        NotShown(root, cleanRel, fewer, de, entries, from);
        continue;
      }
      entries := entries + [Entry(de.name, JoinRel(cleanRel, de.name))];
      from := from + [|fewer|];
      NowShown(root, cleanRel, fewer, de, was, before);
    }
    assert des[..i] == des;
    l := Success(Listing(cleanRel, ParentOf(cleanRel), entries));
  }

  lemma {:induction false} NotShown(root: string, dir: string, des: seq<DirEntry>, de: DirEntry, entries: seq<Entry>,
                                    from: seq<nat>)
    requires Shown(root, dir, des, entries, from) && !Listed(root, de)
    ensures Shown(root, dir, des + [de], entries, from)
  {
  }

  lemma {:induction false} NowShown(root: string, dir: string, des: seq<DirEntry>, de: DirEntry, entries: seq<Entry>,
                                    from: seq<nat>)
    requires Shown(root, dir, des, entries, from) && Listed(root, de)
    ensures Shown(root, dir, des + [de], entries + [Entry(de.name, JoinRel(dir, de.name))], from + [|des|])
  {
    var all, shown := des + [de], from + [|des|];
    forall k | 0 <= k < |all| && Listed(root, all[k])
      ensures k in shown
    {
      if k < |des| {
        assert k in from;
      } else {
        assert shown[|from|] == k;
      }
    }
  }

  // A name is shown if and only if a listed entry has it.
  lemma {:induction false} ShownIffListed(root: string, dir: string, des: seq<DirEntry>, entries: seq<Entry>,
                                          from: seq<nat>, name: string)
    requires Shown(root, dir, des, entries, from)
    ensures (exists e :: e in entries && e.name == name) <==>
            (exists de :: de in des && de.name == name && de.readable && !HasPrefix(name, ".myshare") &&
                          (!de.symlink || (de.target.Some? && WithinBase(root, de.target.value))))
  {
    assert forall de | de in des && de.name == name :: Listed(root, de) <==>
        de.readable && !HasPrefix(name, ".myshare") &&
        (!de.symlink || (de.target.Some? && WithinBase(root, de.target.value)));
    if e :| e in entries && e.name == name {
      var i :| 0 <= i < |entries| && entries[i] == e;
      assert des[from[i]] in des && Listed(root, des[from[i]]);
    }
    if de :| de in des && de.name == name && Listed(root, de) {
      var k :| 0 <= k < |des| && des[k] == de;
      var i :| 0 <= i < |from| && from[i] == k;
      assert entries[i] in entries;
    }
  }

  // ---------------------------------------------------------------------------
  // Where the paths of a listing lead
  // ---------------------------------------------------------------------------

  lemma {:induction false} RelOfNames(root: seq<string>, names: seq<string>)
    requires AllProper(root) && root != [] && AllProper(names)
    ensures CleanRel(Abs(root), Abs(root + names)) == Join(names)
  {
    if names == [] {
      assert root + names == root;
    } else {
      JoinConcat(root, names);
      assert Abs(root + names) == Abs(root) + "/" + Join(names);
      StringPrefixIsSegmentPrefix(root, root + names);
      JoinedNamesAreLocal(names);
      CleanAbs(root);
      CleanAbs(root + names);
    }
  }

  lemma {:induction false} SlashesKeeps(s: string)
    ensures '\\' !in Slashes(s)
    ensures '\\' !in s ==> Slashes(s) == s
  {
  }

  lemma {:induction false} PartsComeFromTheWhole(p: string, c: char)
    requires c !in p
    ensures forall i | 0 <= i < |Split(p)| :: c !in Split(p)[i]
  {
    if p != "" {
      PartsComeFromTheWhole(p[1..], c);
    }
  }

  lemma {:induction false} NamesComeFromParts(segs: seq<string>, c: char)
    requires forall i | 0 <= i < |segs| :: c !in segs[i]
    ensures forall i | 0 <= i < |NamesIn(segs)| :: c !in NamesIn(segs)[i]
  {
    if segs != [] {
      NamesComeFromParts(segs[1..], c);
    }
  }

  lemma {:induction false} JoinHasNo(names: seq<string>, c: char)
    requires c != '/' && forall i | 0 <= i < |names| :: c !in names[i]
    ensures c !in Join(names)
  {
    if |names| > 1 {
      JoinHasNo(names[1..], c);
    }
  }

  // The names of a resolved directory hold no backslash.
  lemma {:induction false} ResolvedNames(raw: string)
    requires ".." !in Split(Slashes(raw))
    ensures AllProper(NamesIn(Split(Slashes(raw))))
    ensures forall i | 0 <= i < |NamesIn(Split(Slashes(raw)))| :: '\\' !in NamesIn(Split(Slashes(raw)))[i]
  {
    var segs := Split(Slashes(raw));
    NamesAreProper(segs);
    SlashesKeeps(raw);
    PartsComeFromTheWhole(Slashes(raw), '\\');
    NamesComeFromParts(segs, '\\');
  }

  // EvalSymlinks answers for the entries of a directory as ReadDir describes
  // them: a link leads where it leads, and anything else stays where the
  // directory is.
  predicate Describes(links: string -> Option<string>, abs: string, des: seq<DirEntry>) {
    forall de | de in des ::
      links(abs + "/" + de.name) ==
      if de.symlink then de.target
      else if links(abs).Some? then Some(links(abs).value + "/" + de.name)
      else None
  }

  // The path of every entry listed leads back to that entry exactly when its
  // name holds no backslash, which resolve takes for a separator, and what
  // EvalSymlinks says of it is not outside the root.
  lemma {:induction false} ListingLeadsBackIff(root: seq<string>, relDir: string, links: string -> Option<string>,
                                               des: seq<DirEntry>, entries: seq<Entry>, from: seq<nat>)
    requires AllProper(root) && root != [] && forall de | de in des :: Proper(de.name)
    requires ResolveBy(Abs(root), relDir, links).Some?
    requires Shown(Abs(root), CleanRel(Abs(root), ResolveBy(Abs(root), relDir, links).value), des, entries, from)
    ensures var abs := ResolveBy(Abs(root), relDir, links).value;
            forall e | e in entries ::
              ResolveBy(Abs(root), e.path, links) == Some(abs + "/" + e.name) <==>
              '\\' !in e.name && InsideRoot(Abs(root), links(abs + "/" + e.name))
  {
    var abs := ResolveBy(Abs(root), relDir, links).value;
    FreeOfLinks(root, relDir, links, abs);
    forall e | e in entries
      ensures ResolveBy(Abs(root), e.path, links) == Some(abs + "/" + e.name) <==>
              '\\' !in e.name && InsideRoot(Abs(root), links(abs + "/" + e.name))
    {
      var i :| 0 <= i < |entries| && entries[i] == e;
      EntryLeadsBackIff(root, relDir, links, abs, des[from[i]], e.path);
    }
  }

  // Where the root is its own real path nothing listed leads outside, so only
  // the backslash matters.
  lemma {:induction false} ListingLeadsBack(root: seq<string>, relDir: string, links: string -> Option<string>,
                                            des: seq<DirEntry>, entries: seq<Entry>, from: seq<nat>)
    requires AllProper(root) && root != [] && links(Abs(root)) == Some(Abs(root))
    requires ResolveBy(Abs(root), relDir, links).Some?
    requires Describes(links, ResolveBy(Abs(root), relDir, links).value, des)
    requires forall de | de in des :: Proper(de.name)
    requires Shown(Abs(root), CleanRel(Abs(root), ResolveBy(Abs(root), relDir, links).value), des, entries, from)
    ensures var abs := ResolveBy(Abs(root), relDir, links).value;
            forall e | e in entries ::
              ResolveBy(Abs(root), e.path, links) == Some(abs + "/" + e.name) <==> '\\' !in e.name
  {
    var abs := ResolveBy(Abs(root), relDir, links).value;
    ListingLeadsBackIff(root, relDir, links, des, entries, from);
    DirectoryStays(root, relDir, links, abs);
    forall e | e in entries
      ensures InsideRoot(Abs(root), links(abs + "/" + e.name))
    {
      var i :| 0 <= i < |entries| && entries[i] == e;
      EntryStaysInside(root, abs, links, des, des[from[i]]);
    }
  }

  // Served through a symbolic link, the listing of the root shows files whose
  // paths are refused: the real path of the file is outside the link's name.
  lemma {:induction false} LinkedRootRefusesFiles(root: seq<string>, behind: string, links: string -> Option<string>,
                                                  des: seq<DirEntry>, entries: seq<Entry>, from: seq<nat>, i: nat)
    requires AllProper(root) && root != [] && forall de | de in des :: Proper(de.name)
    requires links(Abs(root)) == Some(behind) && Describes(links, Abs(root), des)
    requires Shown(Abs(root), CleanRel(Abs(root), Abs(root)), des, entries, from)
    requires i < |entries| && !des[from[i]].symlink && !WithinBase(Abs(root), behind + "/" + entries[i].name)
    ensures ResolveBy(Abs(root), "", links) == Some(Abs(root))
    ensures ResolveBy(Abs(root), entries[i].path, links) != Some(Abs(root) + "/" + entries[i].name)
  {
    RootResolves(root, links);
    ListingLeadsBackIff(root, "", links, des, entries, from);
    assert entries[i] in entries && des[from[i]] in des;
  }

  // For instance a file a in /srv, where /srv is a link to /data.
  lemma {:induction false} ServedThroughALink(links: string -> Option<string>)
    requires links(Abs(["srv"])) == Some(Abs(["data"]))
    requires links(Abs(["srv"]) + "/" + "a") == Some(Abs(["data"]) + "/" + "a")
    ensures Shown(Abs(["srv"]), "", [DirEntry("a", true, false, None)], [Entry("a", "a")], [0])
    ensures ResolveBy(Abs(["srv"]), "a", links) != Some(Abs(["srv"]) + "/" + "a")
  {
    var root, de := ["srv"], DirEntry("a", true, false, None);
    assert Proper("srv") && Proper("data") && Proper("a");
    JoinConcat(["data"], ["a"]);
    assert Abs(["data"]) + "/" + "a" == Abs(["data"] + ["a"]);
    CleanAbs(["data"] + ["a"]);
    WithinIsSegmentPrefix(root, Abs(["data"] + ["a"]));
    assert !(root <= ["data"] + ["a"]) by {
      assert root[0] != (["data"] + ["a"])[0];
    }
    assert Listed(Abs(root), de);
    RelOfNames(root, []);
    assert root + [] == root;
    LinkedRootRefusesFiles(root, Abs(["data"]), links, [de], [Entry("a", "a")], [0], 0);
  }

  lemma {:induction false} RootResolves(root: seq<string>, links: string -> Option<string>)
    requires AllProper(root) && root != []
    ensures ResolveBy(Abs(root), "", links) == Some(Abs(root))
  {
    assert Slashes("") == "";
    assert Split("") == [""];
    assert [""][1..] == [];
    ResolveExactly(root, "", None);
    ResolveExactly(root, "", links(Abs(root)));
  }

  lemma {:induction false} FreeOfLinks(root: seq<string>, relDir: string, links: string -> Option<string>, abs: string)
    requires AllProper(root) && root != [] && ResolveBy(Abs(root), relDir, links) == Some(abs)
    ensures Resolve(Abs(root), relDir, None) == Some(abs)
    ensures abs != Abs(root) ==> InsideRoot(Abs(root), links(abs))
  {
    var found := Resolve(Abs(root), relDir, None).value;
    ResolveExactly(root, relDir, None);
    ResolveExactly(root, relDir, links(found));
    assert root + [] == root;
  }

  lemma {:induction false} DirectoryStays(root: seq<string>, relDir: string, links: string -> Option<string>,
                                          abs: string)
    requires AllProper(root) && root != [] && links(Abs(root)) == Some(Abs(root))
    requires ResolveBy(Abs(root), relDir, links) == Some(abs)
    ensures InsideRoot(Abs(root), links(abs))
  {
    FreeOfLinks(root, relDir, links, abs);
    WithinIsSegmentPrefix(root, Abs(root));
    CleanAbs(root);
  }

  lemma {:induction false} EntryLeadsBackIff(root: seq<string>, relDir: string, links: string -> Option<string>,
                                             abs: string, de: DirEntry, path: string)
    requires AllProper(root) && root != [] && Resolve(Abs(root), relDir, None) == Some(abs)
    requires Proper(de.name) && Listed(Abs(root), de) && path == JoinRel(CleanRel(Abs(root), abs), de.name)
    ensures ResolveBy(Abs(root), path, links) == Some(abs + "/" + de.name) <==>
            '\\' !in de.name && InsideRoot(Abs(root), links(abs + "/" + de.name))
  {
    var full := abs + "/" + de.name;
    EntryResolvesBackIff(root, relDir, None, de, None);
    if '\\' in de.name {
      BackslashNeverLeadsBack(root, relDir, de, path, links);
    } else if InsideRoot(Abs(root), links(full)) {
      EntryResolvesBackIff(root, relDir, None, de, links(full));
    } else {
      ResolveExactly(root, path, links(full));
      ResolveExactly(root, path, None);
      NotTheRoot(root, relDir, abs, de.name);
    }
  }

  lemma {:induction false} NotTheRoot(root: seq<string>, relDir: string, abs: string, name: string)
    requires AllProper(root) && root != [] && Resolve(Abs(root), relDir, None) == Some(abs) && Proper(name)
    ensures abs + "/" + name != Abs(root)
  {
    var dirs := DirectoryNames(root, relDir, None);
    EntryPath(root, dirs, name, abs, JoinRel(CleanRel(Abs(root), abs), name));
    LongerIsNotTheRoot(root, root + dirs + [name]);
  }

  lemma {:induction false} LongerIsNotTheRoot(root: seq<string>, longer: seq<string>)
    requires AllProper(root) && AllProper(longer) && |longer| > |root|
    ensures Abs(longer) != Abs(root)
  {
    AbsDiffers(longer, root);
  }

  lemma {:induction false} EntryStaysInside(root: seq<string>, abs: string, links: string -> Option<string>,
                                            des: seq<DirEntry>, de: DirEntry)
    requires AllProper(root) && root != [] && InsideRoot(Abs(root), links(abs)) && Describes(links, abs, des)
    requires de in des && Proper(de.name) && Listed(Abs(root), de)
    ensures InsideRoot(Abs(root), links(abs + "/" + de.name))
  {
    if !de.symlink && links(abs).Some? {
      NameStaysInside(root, links(abs).value, de.name);
    }
  }

  lemma {:induction false} NameStaysInside(root: seq<string>, dir: string, name: string)
    requires AllProper(root) && root != [] && WithinBase(Abs(root), dir) && Proper(name)
    ensures WithinBase(Abs(root), dir + "/" + name)
  {
    WithinIsSegmentPrefix(root, dir);
    WithinIsSegmentPrefix(root, dir + "/" + name);
    SplitConcat(dir, name);
    SplitPlain(name);
    WalkConcat(true, [], Split(dir), [name]);
    WalkProper(true, Walk(true, [], Split(dir)), [name]);
  }

  // Whatever EvalSymlinks says, a backslash is lost.
  lemma {:induction false} BackslashNeverLeadsBack(root: seq<string>, relDir: string, de: DirEntry, path: string,
                                                   links: string -> Option<string>)
    requires AllProper(root) && root != [] && Resolve(Abs(root), relDir, None).Some? && Proper(de.name)
    requires path == JoinRel(CleanRel(Abs(root), Resolve(Abs(root), relDir, None).value), de.name) && '\\' in de.name
    ensures ResolveBy(Abs(root), path, links) != Some(Resolve(Abs(root), relDir, None).value + "/" + de.name)
  {
    var abs := Resolve(Abs(root), relDir, None).value;
    var dirs := DirectoryNames(root, relDir, None);
    EntryPath(root, dirs, de.name, abs, path);
    var found := Resolve(Abs(root), path, None);
    if found.Some? {
      BackslashIsLost(root, path, links(found.value), root + dirs + [de.name], de.name);
    }
  }

  // The path of one listed entry, wherever its target leads inside the root.
  lemma {:induction false} EntryResolvesBackIff(root: seq<string>, relDir: string, targetDir: Option<string>,
                                                de: DirEntry, target: Option<string>)
    requires AllProper(root) && root != []
    requires Resolve(Abs(root), relDir, targetDir).Some?
    requires Proper(de.name) && Listed(Abs(root), de) && InsideRoot(Abs(root), target)
    ensures var abs := Resolve(Abs(root), relDir, targetDir).value;
            var path := JoinRel(CleanRel(Abs(root), abs), de.name);
            Resolve(Abs(root), path, target) == Some(abs + "/" + de.name) <==> '\\' !in de.name
  {
    var abs := Resolve(Abs(root), relDir, targetDir).value;
    var dirs := DirectoryNames(root, relDir, targetDir);
    var path := JoinRel(CleanRel(Abs(root), abs), de.name);
    EntryPath(root, dirs, de.name, abs, path);
    LeadsBackIff(root, dirs, de.name, path, root + dirs + [de.name], target);
  }

  lemma {:induction false} LeadsBackIff(root: seq<string>, dirs: seq<string>, name: string, path: string,
                                        full: seq<string>, target: Option<string>)
    requires AllProper(root) && root != [] && AllProper(dirs) && Proper(name) && !Hidden(name)
    requires forall i | 0 <= i < |dirs| :: '\\' !in dirs[i]
    requires dirs != [] ==> dirs[0] != META_DIR
    requires path == Join(dirs + [name]) && full == root + dirs + [name] && InsideRoot(Abs(root), target)
    ensures Resolve(Abs(root), path, target) == Some(Abs(full)) <==> '\\' !in name
  {
    if '\\' in name {
      BackslashIsLost(root, path, target, full, name);
    } else {
      assert full == root + (dirs + [name]);
      PlainPathResolves(root, path, target, dirs + [name], full);
    }
  }

  lemma {:induction false} DirectoryNames(root: seq<string>, relDir: string, targetDir: Option<string>)
    returns (dirs: seq<string>)
    requires AllProper(root) && root != [] && Resolve(Abs(root), relDir, targetDir).Some?
    ensures AllProper(dirs) && Resolve(Abs(root), relDir, targetDir).value == Abs(root + dirs)
    ensures forall i | 0 <= i < |dirs| :: '\\' !in dirs[i]
    ensures dirs != [] ==> dirs[0] != META_DIR
  {
    ResolveExactly(root, relDir, targetDir);
    ResolvedNames(relDir);
    dirs := NamesIn(Split(Slashes(relDir)));
    assert root + [] == root;
  }

  lemma {:induction false} EntryPath(root: seq<string>, dirs: seq<string>, name: string, abs: string, path: string)
    requires AllProper(root) && root != [] && AllProper(dirs) && Proper(name)
    requires abs == Abs(root + dirs) && path == JoinRel(CleanRel(Abs(root), abs), name)
    ensures path == Join(dirs + [name]) && abs + "/" + name == Abs(root + dirs + [name])
  {
    RelOfNames(root, dirs);
    PathOfEntry(dirs, name);
    JoinConcat(root + dirs, [name]);
  }

  lemma {:induction false} PlainPathResolves(root: seq<string>, raw: string, target: Option<string>,
                                             names: seq<string>, full: seq<string>)
    requires AllProper(root) && root != [] && AllProper(names) && names != []
    requires forall i | 0 <= i < |names| :: '\\' !in names[i]
    requires raw == Join(names) && full == root + names
    requires names[0] != META_DIR && InsideRoot(Abs(root), target)
    ensures Resolve(Abs(root), raw, target) == Some(Abs(full))
  {
    JoinHasNo(names, '\\');
    SlashesKeeps(raw);
    SplitOfJoin(names);
    ProperPathResolves(root, raw, target, names);
  }

  lemma {:induction false} ProperPathResolves(root: seq<string>, raw: string, target: Option<string>,
                                              names: seq<string>)
    requires AllProper(root) && root != [] && AllProper(names) && names != []
    requires Split(Slashes(raw)) == names && names[0] != META_DIR && InsideRoot(Abs(root), target)
    ensures Resolve(Abs(root), raw, target) == Some(Abs(root + names))
  {
    NamesOfProper(names);
    ResolveExactly(root, raw, target);
  }

  lemma {:induction false} PathOfEntry(dirs: seq<string>, name: string)
    requires AllProper(dirs) && Proper(name)
    ensures JoinRel(Join(dirs), name) == Join(dirs + [name])
  {
    if dirs == [] {
      assert dirs + [name] == [name];
    } else {
      JoinedNamesAreLocal(dirs);
      JoinConcat(dirs, [name]);
    }
  }

  // No name that resolve puts in a path holds a backslash.
  lemma {:induction false} BackslashIsLost(root: seq<string>, path: string, target: Option<string>,
                                           full: seq<string>, name: string)
    requires AllProper(root) && root != [] && AllProper(full)
    requires |full| > |root| && full[|full|-1] == name && '\\' in name
    ensures Resolve(Abs(root), path, target) != Some(Abs(full))
  {
    ResolveExactly(root, path, target);
    if ".." !in Split(Slashes(path)) {
      ResolvedNames(path);
      var names := NamesIn(Split(Slashes(path)));
      LastDiffers(root, names, full, name);
      AbsDiffers(root + names, full);
      AbsDiffers(root, full);
    }
  }

  lemma LastDiffers(root: seq<string>, names: seq<string>, full: seq<string>, name: string)
    requires |full| > |root| && full[|full|-1] == name && '\\' in name
    requires forall i | 0 <= i < |names| :: '\\' !in names[i]
    ensures root + names != full
  {
    if |root + names| == |full| {
      assert (root + names)[|full|-1] == names[|full| - 1 - |root|];
    }
  }

  lemma {:induction false} AbsDiffers(a: seq<string>, b: seq<string>)
    requires AllProper(a) && AllProper(b) && a != b
    ensures Abs(a) != Abs(b)
  {
    CleanAbs(a);
    CleanAbs(b);
  }

  // parentOf undoes joinRel on any directory List can report.
  lemma {:induction false} ParentUndoesJoin(dirs: seq<string>, name: string)
    requires AllProper(dirs) && Proper(name)
    ensures ParentOf(JoinRel(Join(dirs), name)) == Join(dirs)
  {
    PathOfEntry(dirs, name);
    var rel := Join(dirs + [name]);
    SplitOfJoin(dirs + [name]);
    assert (dirs + [name])[..|dirs|] == dirs;
    JoinedNamesAreLocal(dirs + [name]);
    if dirs == [] {
      assert Dir(rel) == Clean("") == ".";
    } else {
      JoinedNamesAreLocal(dirs);
      var p := Join(dirs) + "/";
      assert p == Join(dirs) + "/" + "";
      SplitConcat(Join(dirs), "");
      assert !IsAbs(p) by { assert p[0] == Join(dirs)[0]; }
      WalkConcat(false, [], dirs, [""]);
      assert Split("") == [""];
      assert Walk(false, dirs, [""]) == dirs by { assert [""][1..] == []; }
      assert Dir(rel) == Join(dirs);
      assert Join(dirs) != "/" by { assert !IsAbs(Join(dirs)); }
    }
  }
}
