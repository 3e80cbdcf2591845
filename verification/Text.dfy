// String helpers of the Go library that more than one part of the model uses.
module Text {

  // unicode.IsSpace: the White_Space property.
  predicate IsSpace(c: char) {
    || '\t' <= c <= '\r'
    || c == ' '
    || c as int in {0x85, 0xA0, 0x1680, 0x2028, 0x2029, 0x202F, 0x205F, 0x3000}
    || 0x2000 <= c as int <= 0x200A
  }

  function TrimLeft(s: string, cut: char -> bool): (r: string)
    ensures |r| <= |s| && r == s[|s| - |r|..]
    ensures r != "" ==> !cut(r[0])
  {
    if s != "" && cut(s[0]) then TrimLeft(s[1..], cut) else s
  }

  function TrimRight(s: string, cut: char -> bool): (r: string)
    ensures r <= s
    ensures r != "" ==> !cut(r[|r|-1])
  {
    if s != "" && cut(s[|s|-1]) then TrimRight(s[..|s|-1], cut) else s
  }

  // strings.Trim and strings.TrimSpace, by the set of characters they cut.
  function Trim(s: string, cut: char -> bool): (r: string)
    ensures r != "" ==> !cut(r[0]) && !cut(r[|r|-1])
    ensures |r| <= |s|
  {
    var left := TrimLeft(s, cut);
    var r := TrimRight(left, cut);
    assert r != "" ==> r[0] == left[0];
    r
  }

  lemma {:induction false} Middle(s: string, left: string, r: string)
    requires |left| <= |s| && left == s[|s| - |left|..] && r <= left
    ensures s == s[..|s| - |left|] + r + left[|r|..]
    ensures forall c | c in r :: c in s
  {
    assert left == r + left[|r|..];
    assert s == s[..|s| - |left|] + (r + left[|r|..]);
  }

  lemma {:induction false} TrimIsAMiddle(s: string, cut: char -> bool, r: string) returns (front: string, back: string)
    requires r == Trim(s, cut)
    ensures s == front + r + back
    ensures forall c | c in r :: c in s
    ensures forall i | 0 <= i < |front| :: cut(front[i])
    ensures forall i | 0 <= i < |back| :: cut(back[i])
  {
    var left := TrimLeft(s, cut);
    Middle(s, left, r);
    CutAtLeft(s, cut);
    CutAtRight(left, cut);
    front, back := s[..|s| - |left|], left[|r|..];
  }

  lemma {:induction false} CutAtLeft(s: string, cut: char -> bool)
    ensures forall i | 0 <= i < |s| - |TrimLeft(s, cut)| :: cut(s[i])
  {
    if s != "" && cut(s[0]) {
      CutAtLeft(s[1..], cut);
      assert forall i | 1 <= i < |s| :: s[i] == s[1..][i - 1];
    }
  }

  lemma {:induction false} CutAtRight(s: string, cut: char -> bool)
    ensures forall i | |TrimRight(s, cut)| <= i < |s| :: cut(s[i])
  {
    if s != "" && cut(s[|s|-1]) {
      CutAtRight(s[..|s|-1], cut);
      assert forall i | 0 <= i < |s| - 1 :: s[i] == s[..|s|-1][i];
    }
  }

  function TrimSpace(s: string): string {
    Trim(s, c => IsSpace(c))
  }

  lemma {:induction false} TrimNothing(s: string, cut: char -> bool)
    requires s != "" ==> !cut(s[0]) && !cut(s[|s|-1])
    ensures Trim(s, cut) == s
  {
  }

  // Byte order of the UTF-8 encodings, which is the order of the characters.
  predicate Less(a: string, b: string) {
    b != "" && (a == "" || a[0] < b[0] || (a[0] == b[0] && Less(a[1..], b[1..])))
  }

  lemma {:induction false} LessTotal(a: string, b: string)
    ensures a == b || Less(a, b) || Less(b, a)
    ensures !(Less(a, b) && Less(b, a))
    ensures a == b ==> !Less(a, b)
  {
    if a != "" && b != "" && a[0] == b[0] {
      LessTotal(a[1..], b[1..]);
      if a[1..] == b[1..] {
        assert a == [a[0]] + a[1..] && b == [b[0]] + b[1..];
      }
    }
  }

  lemma {:induction false} LessTransitive(a: string, b: string, c: string)
    requires Less(a, b) && Less(b, c)
    ensures Less(a, c)
  {
    if a != "" && a[0] == b[0] == c[0] {
      LessTransitive(a[1..], b[1..], c[1..]);
    }
  }

  // filepath.Ext of a name without separators: from the last dot on.
  function Ext(name: string): (e: string)
    ensures |e| <= |name| && name[|name| - |e|..] == e
    ensures e == "" <==> '.' !in name
    ensures e != "" ==> e[0] == '.' && '.' !in e[1..]
  {
    if name == "" then ""
    else
      var rest := Ext(name[1..]);
      if rest != "" then rest else if name[0] == '.' then name else ""
  }

  function Stem(name: string): string {
    name[..|name| - |Ext(name)|]
  }

  lemma {:induction false} StemAndExt(name: string)
    ensures Stem(name) + Ext(name) == name
  {
    var cut := |name| - |Ext(name)|;
    assert name[..cut] + name[cut..] == name;
  }
}
