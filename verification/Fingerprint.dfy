// FingerprintDir and the poller that compares fingerprints.
module Fingerprint {
  import opened Common
  import Decimal

  // The columns of a directory entry that go into the signature.
  datatype Entry = Entry(name: string, size: int, modTime: int, isDir: bool)

  const NUL := '\0'

  // %v of a bool
  function ShowBool(b: bool): string {
    if b then "true" else "false"
  }

  // "%s\x00%d\x00%d\x00%v\n"
  function Line(e: Entry): string {
    e.name + [NUL] + Decimal.ShowInt(e.size) + [NUL] + Decimal.ShowInt(e.modTime) + [NUL] + ShowBool(e.isDir) + "\n"
  }

  function Signature(es: seq<Entry>): string {
    if es == [] then "" else Line(es[0]) + Signature(es[1..])
  }

  lemma {:induction false} MoveLine(es: seq<Entry>, i: nat, sb: string, line: string)
    requires i < |es| && line == Line(es[i])
    ensures sb + Signature(es[i..]) == (sb + line) + Signature(es[i + 1..])
  {
    var rest := es[i..];
    assert rest[0] == es[i] && rest[1..] == es[i + 1..];
    assert Signature(rest) == line + Signature(es[i + 1..]);
  }

  method BuildSignature(es: seq<Entry>) returns (sb: string)
    ensures sb == Signature(es)
  {
    sb := "";
    var i := 0;
    while i < |es|
      invariant 0 <= i <= |es| && sb + Signature(es[i..]) == Signature(es)
    {
      MoveLine(es, i, sb, Line(es[i]));
      sb := sb + Line(es[i]);
      i := i + 1;
    }
    assert es[i..] == [];
  }

  // No file system allows NUL in a name; anything else, newlines included, may
  // occur.
  predicate NulFree(s: string) {
    NUL !in s
  }

  predicate NamesNulFree(es: seq<Entry>) {
    forall i | 0 <= i < |es| :: NulFree(es[i].name)
  }

  function FirstNul(s: string): nat {
    if s == "" || s[0] == NUL then 0 else 1 + FirstNul(s[1..])
  }

  lemma {:induction false} FirstNulEndsField(a: string, x: string)
    requires NulFree(a)
    ensures FirstNul(a + [NUL] + x) == |a|
  {
    if a != "" {
      assert (a + [NUL] + x)[1..] == a[1..] + [NUL] + x;
      FirstNulEndsField(a[1..], x);
    }
  }

  lemma {:induction false} FirstField(a: string, b: string, x: string, y: string)
    requires NulFree(a) && NulFree(b) && a + [NUL] + x == b + [NUL] + y
    ensures a == b && x == y
  {
    var s := a + [NUL] + x;
    FirstNulEndsField(a, x);
    FirstNulEndsField(b, y);
    assert a == s[..|a|] && b == s[..|b|];
    assert x == s[|a| + 1..] && y == s[|b| + 1..];
  }

  lemma {:induction false} NumbersAreNulFree(n: int)
    ensures NulFree(Decimal.ShowInt(n))
  {
    Decimal.ShowIntShape(n);
  }

  lemma {:induction false} LastField(a: bool, b: bool, x: string, y: string)
    requires ShowBool(a) + "\n" + x == ShowBool(b) + "\n" + y
    ensures a == b && x == y
  {
    var s, t := ShowBool(a) + "\n" + x, ShowBool(b) + "\n" + y;
    assert s[0] == ShowBool(a)[0] && t[0] == ShowBool(b)[0];
    assert x == s[|ShowBool(a)| + 1..] && y == t[|ShowBool(b)| + 1..];
  }

  // The four fields of a line, each behind the one before it.
  function Tail3(e: Entry, x: string): string { ShowBool(e.isDir) + "\n" + x }

  function Tail2(e: Entry, x: string): string { Decimal.ShowInt(e.modTime) + [NUL] + Tail3(e, x) }

  function Tail1(e: Entry, x: string): string { Decimal.ShowInt(e.size) + [NUL] + Tail2(e, x) }

  lemma {:induction false} LineFields(e: Entry, x: string)
    ensures Line(e) + x == e.name + [NUL] + Tail1(e, x)
  {
  }

  lemma {:induction false} NumberField(m: int, n: int, x: string, y: string)
    requires Decimal.ShowInt(m) + [NUL] + x == Decimal.ShowInt(n) + [NUL] + y
    ensures m == n && x == y
  {
    NumbersAreNulFree(m);
    NumbersAreNulFree(n);
    FirstField(Decimal.ShowInt(m), Decimal.ShowInt(n), x, y);
    Decimal.ShowIntInjective(m, n);
  }

  lemma {:induction false} LineDecodes(e: Entry, f: Entry, x: string, y: string)
    requires NulFree(e.name) && NulFree(f.name) && Line(e) + x == Line(f) + y
    ensures e == f && x == y
  {
    LineFields(e, x);
    LineFields(f, y);
    FirstField(e.name, f.name, Tail1(e, x), Tail1(f, y));
    NumberField(e.size, f.size, Tail2(e, x), Tail2(f, y));
    NumberField(e.modTime, f.modTime, Tail3(e, x), Tail3(f, y));
    LastField(e.isDir, f.isDir, x, y);
  }

  // Two listings have the same signature only when they are the same.
  lemma {:induction false} SignatureIsInjective(a: seq<Entry>, b: seq<Entry>)
    requires NamesNulFree(a) && NamesNulFree(b) && Signature(a) == Signature(b)
    ensures a == b
  {
    if a != [] && b != [] {
      LineDecodes(a[0], b[0], Signature(a[1..]), Signature(b[1..]));
      SignatureIsInjective(a[1..], b[1..]);
      assert a == [a[0]] + a[1..] && b == [b[0]] + b[1..];
    }
  }

  // ---------------------------------------------------------------------------
  // watchServedDir
  // ---------------------------------------------------------------------------

  // Reading the root: its listing, or None when it cannot be read.
  type Read = Option<seq<Entry>>

  function Seen(r: Read): seq<Entry> {
    if r.Some? then r.value else []
  }

  function Fp(prev: map<string, string>, dir: string): string {
    if dir in prev then prev[dir] else ""
  }

  class Watcher {
    var prev: map<string, string>
    // What the last tick that changed anything recorded.
    ghost var recorded: seq<Entry>

    ghost predicate Valid()
      reads this
    {
      && prev.Keys <= {""}
      && NamesNulFree(recorded)
      && Fp(prev, "") == Signature(recorded)
    }

    constructor ()
      ensures Valid() && recorded == [] && prev == map[]
    {
      prev := map[];
      recorded := [];
    }

    // The root is read once for itself and once more when it is among the
    // directories already known; `reads` are the successive results.
    method Tick(first: Read, second: Read) returns (changed: bool)
      requires Valid()
      requires NamesNulFree(Seen(first)) && NamesNulFree(Seen(second))
      modifies this
      ensures Valid()
      ensures "" !in old(prev) ==> recorded == Seen(first) && (changed <==> Seen(first) != old(recorded))
      ensures "" in old(prev) ==> recorded == Seen(second)
      ensures "" in old(prev) ==>
                (changed <==> Seen(first) != old(recorded) || Seen(second) != Seen(first))
    {
      changed := false;
      var dirs := [""] + if "" in prev then [""] else [];
      var results := [first, second];
      var i := 0;
      while i < |dirs|
        invariant 0 <= i <= |dirs| && |dirs| <= 2 && forall k | 0 <= k < |dirs| :: dirs[k] == ""
        invariant Valid()
        invariant i == 0 ==> recorded == old(recorded) && !changed
        invariant i == 1 ==> recorded == Seen(first) && (changed <==> Seen(first) != old(recorded))
        invariant i == 2 ==> recorded == Seen(second)
        invariant i == 2 ==>
                    (changed <==> Seen(first) != old(recorded) || Seen(second) != Seen(first))
      {
        var dir, r := dirs[i], results[i];
        if NamesNulFree(Seen(r)) && Signature(Seen(r)) == Signature(recorded) {
          SignatureIsInjective(Seen(r), recorded);
        }
        if r.None? {
          if Fp(prev, dir) != "" {
            prev := prev - {dir};
            changed := true;
          }
        } else {
          var fp := BuildSignature(r.value);
          if Fp(prev, dir) != fp {
            prev := prev[dir := fp];
            changed := true;
          }
        }
        recorded := Seen(r);
        i := i + 1;
      }
    }
  }
}
