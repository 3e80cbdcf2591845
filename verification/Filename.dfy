// SanitizeFilename: one safe filename component out of any string.  Strings
// are sequences of code points here; the clamp works on their UTF-8 bytes.
module Filename {
  import opened Common
  import opened Text

  const MAX_NAME_BYTES := 255

  // ---------------------------------------------------------------------------
  // UTF-8, section 3 of RFC 3629
  // ---------------------------------------------------------------------------

  function Utf8(c: char): (b: seq<byte>)
    ensures 1 <= |b| <= 4
  {
    var n := c as int;
    if n < 0x80 then [n]
    else if n < 0x800 then [0xC0 + n / 0x40, 0x80 + n % 0x40]
    else if n < 0x1_0000 then [0xE0 + n / 0x1000, 0x80 + n / 0x40 % 0x40, 0x80 + n % 0x40]
    else [0xF0 + n / 0x4_0000, 0x80 + n / 0x1000 % 0x40, 0x80 + n / 0x40 % 0x40, 0x80 + n % 0x40]
  }

  // (b & 0xC0) == 0x80
  predicate Continues(b: byte) {
    0x80 <= b < 0xC0
  }

  lemma OneLeadByte(c: char)
    ensures !Continues(Utf8(c)[0])
    ensures forall i | 1 <= i < |Utf8(c)| :: Continues(Utf8(c)[i])
  {
  }

  function Bytes(s: string): seq<byte> {
    if s == "" then [] else Bytes(s[..|s|-1]) + Utf8(s[|s|-1])
  }

  lemma {:induction false} BytesConcat(a: string, b: string)
    ensures Bytes(a + b) == Bytes(a) + Bytes(b)
    decreases |b|
  {
    if b == "" {
      assert a + b == a;
    } else {
      var front, c := b[..|b|-1], b[|b|-1];
      var whole := a + b;
      assert whole[..|whole|-1] == a + front && whole[|whole|-1] == c;
      BytesConcat(a, front);
      Regrouped(Bytes(a), Bytes(front), Utf8(c));
    }
  }

  lemma {:induction false} BytesSnoc(s: string, c: char)
    ensures Bytes(s + [c]) == Bytes(s) + Utf8(c)
  {
    assert (s + [c])[..|s|] == s;
  }

  lemma {:induction false} BytesPrefix(s: string, k: nat)
    requires k <= |s|
    ensures |Bytes(s[..k])| <= |Bytes(s)|
    ensures k <= |Bytes(s[..k])| <= 4 * k
    ensures Bytes(s[..k]) <= Bytes(s)
  {
    assert s == s[..k] + s[k..];
    BytesConcat(s[..k], s[k..]);
    BytesLength(s[..k]);
  }

  lemma {:induction false} BytesLength(s: string)
    ensures |s| <= |Bytes(s)| <= 4 * |s|
  {
    if s != "" {
      BytesLength(s[..|s|-1]);
    }
  }

  // ---------------------------------------------------------------------------
  // clampBytesKeepingExt
  // ---------------------------------------------------------------------------

  // The longest prefix of whole characters within the budget.
  function LongestFit(s: string, budget: int): (p: string)
    ensures p <= s
    ensures budget >= 0 ==> |Bytes(p)| <= budget
  {
    if |Bytes(s)| <= budget || s == "" then s else LongestFit(s[..|s|-1], budget)
  }

  lemma {:induction false} LongestFitIsLongest(s: string, budget: int, k: nat)
    requires |LongestFit(s, budget)| < k <= |s|
    ensures |Bytes(s[..k])| > budget
  {
    if k == |s| {
      assert s[..k] == s;
    } else {
      var front := s[..|s|-1];
      assert front[..k] == s[..k];
      LongestFitIsLongest(front, budget, k);
    }
  }

  // An extension that is too long is taken for part of the stem.
  function KeptExt(ext: string, max: int): string {
    if |Bytes(ext)| > 16 || |Bytes(ext)| >= max then "" else ext
  }

  function Clamped(s: string, max: int): string {
    ClampedBefore(s, Ext(s), max)
  }

  function ClampedBefore(s: string, ext: string, max: int): string
    requires |ext| <= |s|
  {
    if |Bytes(s)| <= max then s
    else
      var e := KeptExt(ext, max);
      LongestFit(s[..|s| - |e|], max - |Bytes(e)|) + e
  }

  // Dropping the last character of a prefix that does not fit: its bytes are
  // one lead byte, then continuation bytes.
  lemma {:induction false} OneBack(s: string, p: string, b: seq<byte>, budget: int) returns (q: string)
    requires p <= s && b == Bytes(s) && |Bytes(p)| > budget >= 0
    ensures q <= s && |q| < |p| && LongestFit(p, budget) == LongestFit(q, budget)
    ensures |Bytes(q)| < |Bytes(p)| <= |b| && !Continues(b[|Bytes(q)|])
    ensures forall i | |Bytes(q)| < i < |Bytes(p)| :: Continues(b[i])
  {
    q := p[..|p|-1];
    assert p == s[..|p|];
    BytesPrefix(s, |p|);
    LastOf(b, Bytes(p), Bytes(q), p[|p|-1]);
  }

  lemma {:induction false} LastOf(b: seq<byte>, head: seq<byte>, front: seq<byte>, c: char)
    requires head <= b && head == front + Utf8(c)
    ensures |front| < |head| && !Continues(b[|front|])
    ensures forall i | |front| < i < |head| :: Continues(b[i])
  {
    OneLeadByte(c);
    assert forall i | |front| <= i < |head| :: b[i] == head[i] == Utf8(c)[i - |front|];
  }

  lemma {:induction false} Fits(s: string, p: string, b: seq<byte>, budget: int)
    requires p <= s && b == Bytes(s) && |Bytes(p)| <= budget
    ensures Bytes(p) <= b && LongestFit(p, budget) == p
  {
    assert p == s[..|p|];
    BytesPrefix(s, |p|);
  }

  // Largest prefix of the stem that fits the budget on a rune boundary: the
  // cut steps back over whole characters, whose bytes it tells apart by their
  // continuation bits.  `s` is what the bytes encode.
  method CutToFit(stem: seq<byte>, budget: int, ghost s: string) returns (cut: nat)
    requires stem == Bytes(s) && budget >= 0
    ensures cut <= |stem| && stem[..cut] == Bytes(LongestFit(s, budget))
  {
    cut := |stem|;
    ghost var p := s;
    while cut > budget
      invariant p <= s && cut == |Bytes(p)| <= |stem|
      invariant LongestFit(s, budget) == LongestFit(p, budget)
      decreases |p|
    {
      ghost var q := OneBack(s, p, stem, budget);
      cut := cut - 1;
      while cut > 0 && Continues(stem[cut])
        invariant |Bytes(q)| <= cut < |Bytes(p)|
      {
        cut := cut - 1;
      }
      p := q;
    }
    Fits(s, p, stem, budget);
  }

  // filepath.Ext on bytes: scanning back to the last '.'.
  function ByteExt(b: seq<byte>): (e: seq<byte>)
    ensures |e| <= |b|
  {
    if b == [] then []
    else
      var last := b[|b|-1];
      if last == '.' as int then [last]
      else
        var e := ByteExt(b[..|b|-1]);
        if e == [] then [] else e + [last]
  }

  lemma {:induction false} ByteExtBehind(b: seq<byte>, tail: seq<byte>)
    requires forall i | 0 <= i < |tail| :: tail[i] != '.' as int
    ensures ByteExt(b + tail) == if ByteExt(b) == [] then [] else ByteExt(b) + tail
    decreases |tail|
  {
    if tail == [] {
      assert b + tail == b;
    } else {
      var front := tail[..|tail|-1];
      assert (b + tail)[..|b + tail|-1] == b + front;
      ByteExtBehind(b, front);
      assert tail == front + [tail[|tail|-1]];
    }
  }

  lemma {:induction false} ExtBehind(s: string, c: char)
    ensures Ext(s + [c]) == if c == '.' then "." else if Ext(s) == "" then "" else Ext(s) + [c]
  {
    if s != "" {
      assert (s + [c])[1..] == s[1..] + [c];
      ExtBehind(s[1..], c);
    }
  }

  lemma NoExt()
    ensures ByteExt(Bytes("")) == Bytes(Ext(""))
  {
  }

  lemma {:induction false} ExtInBytes(s: string)
    ensures ByteExt(Bytes(s)) == Bytes(Ext(s))
  {
    if s == "" {
      NoExt();
    } else {
      ExtInBytes(s[..|s|-1]);
      ExtStep(s, s[..|s|-1]);
    }
  }

  lemma {:induction false} ExtStep(s: string, front: string)
    requires s != "" && front == s[..|s|-1] && ByteExt(Bytes(front)) == Bytes(Ext(front))
    ensures ByteExt(Bytes(s)) == Bytes(Ext(s))
  {
    FrontAndLast(s, front, s[|s|-1]);
    ExtOneMore(front, s[|s|-1], Ext(front), s);
  }

  lemma FrontAndLast(s: string, front: string, c: char)
    requires s != "" && front == s[..|s|-1] && c == s[|s|-1]
    ensures s == front + [c]
  {
  }

  lemma {:induction false} ExtOneMore(front: string, c: char, x: string, s: string)
    requires s == front + [c] && x == Ext(front) && ByteExt(Bytes(front)) == Bytes(x)
    ensures ByteExt(Bytes(s)) == Bytes(Ext(s))
  {
    ExtBehind(front, c);
    BytesSnoc(front, c);
    if c == '.' {
      ExtAfterDot(Bytes(front), c);
    } else {
      ExtAfterOther(Bytes(front), c, x);
    }
  }

  lemma {:induction false} ExtAfterDot(b: seq<byte>, c: char)
    requires c == '.'
    ensures ByteExt(b + Utf8(c)) == Bytes([c])
  {
    BytesSnoc("", c);
    assert "" + [c] == [c] && (b + Utf8(c))[|b|] == '.' as int;
  }

  // x is the extension so far.
  lemma {:induction false} ExtAfterOther(b: seq<byte>, c: char, x: string)
    requires c != '.' && ByteExt(b) == Bytes(x)
    ensures x == "" ==> ByteExt(b + Utf8(c)) == []
    ensures x != "" ==> ByteExt(b + Utf8(c)) == Bytes(x + [c])
  {
    NoDotInside(c);
    ByteExtBehind(b, Utf8(c));
    BytesLength(x);
    BytesSnoc(x, c);
  }

  lemma NoDotInside(c: char)
    requires c != '.'
    ensures forall i | 0 <= i < |Utf8(c)| :: Utf8(c)[i] != '.' as int
  {
  }

  // The stem and the extension that is kept.
  lemma {:induction false} ClampSplit(s: string, ext: string, max: int) returns (stem: string, e: string)
    requires max > 0 && |ext| <= |s| && s[|s| - |ext|..] == ext
    ensures e == KeptExt(ext, max) && s == stem + e && |Bytes(e)| < max
    ensures Bytes(e) == if |Bytes(ext)| > 16 || |Bytes(ext)| >= max then [] else Bytes(ext)
    ensures |Bytes(s)| > max ==> ClampedBefore(s, ext, max) == LongestFit(stem, max - |Bytes(e)|) + e
  {
    e := KeptExt(ext, max);
    stem := s[..|s| - |e|];
    SplitEnd(s, e);
  }

  lemma SplitEnd(s: string, e: string)
    requires |e| <= |s| && s[|s| - |e|..] == e
    ensures s == s[..|s| - |e|] + e
  {
  }

  lemma {:induction false} ClampStemBytes(s: string, e: string, max: int, stem: string, r: string)
    requires s == stem + e && |Bytes(e)| <= max && r == LongestFit(stem, max - |Bytes(e)|) + e
    ensures Bytes(s) == Bytes(stem) + Bytes(e)
    ensures Bytes(r) == Bytes(LongestFit(stem, max - |Bytes(e)|)) + Bytes(e)
    ensures |Bytes(r)| <= max
    ensures AllUsable(s) ==> AllUsable(r)
  {
    BytesConcat(stem, e);
    BytesConcat(LongestFit(stem, max - |Bytes(e)|), e);
    if AllUsable(s) {
      PartsUsable(s, stem, LongestFit(stem, max - |Bytes(e)|), e);
    }
  }

  // The clamp as it runs, on the bytes of s.
  method ClampBytesKeepingExt(b: seq<byte>, max: int, ghost s: string) returns (r: seq<byte>)
    requires b == Bytes(s) && max > 0
    ensures r == Bytes(Clamped(s, max))
  {
    if |b| <= max {
      return b;
    }
    var ext := ByteExt(b);
    ExtInBytes(s);
    if |ext| > 16 || |ext| >= max {
      ext := [];
    }
    ghost var stemChars, e := ClampSplit(s, Ext(s), max);
    r := ClampBehind(b, ext, max, s, stemChars, e);
  }

  // The part of the clamp after the extension has been settled.
  method ClampBehind(b: seq<byte>, ext: seq<byte>, max: int, ghost s: string, ghost stemChars: string, ghost e: string)
    returns (r: seq<byte>)
    requires b == Bytes(s) && ext == Bytes(e) && |ext| < max && s == stemChars + e
    ensures r == Bytes(LongestFit(stemChars, max - |Bytes(e)|) + e)
  {
    ClampStemBytes(s, e, max, stemChars, LongestFit(stemChars, max - |Bytes(e)|) + e);
    var stem := b[..|b| - |ext|];
    var cut := CutToFit(stem, max - |ext|, stemChars);
    r := stem[..cut] + ext;
  }

  // ---------------------------------------------------------------------------
  // SanitizeFilename
  // ---------------------------------------------------------------------------

  function LastComponent(name: string): string {
    if name == "" then ""
    else
      var last := name[|name|-1];
      if last == '/' || last == '\\' then "" else LastComponent(name[..|name|-1]) + [last]
  }

  // unicode.IsControl
  predicate IsControl(c: char) {
    c as int < 0x20 || 0x7F <= c as int < 0xA0
  }

  predicate Forbidden(c: char) {
    c in {'<', '>', ':', '\"', '/', '\\', '|', '?', '*'}
  }

  // Zero-width and bidirectional controls.
  predicate Invisible(c: char) {
    0x200B <= c as int <= 0x200F || 0x202A <= c as int <= 0x202E || 0x2066 <= c as int <= 0x2069 || c as int == 0xFEFF
  }

  function CleanChar(c: char): string {
    if IsControl(c) then "" else if Forbidden(c) then "_" else if Invisible(c) then "" else [c]
  }

  function CleanChars(s: string): string {
    if s == "" then "" else CleanChars(s[..|s|-1]) + CleanChar(s[|s|-1])
  }

  predicate SpaceOrDot(c: char) {
    c == ' ' || c == '.'
  }

  function TrimDots(s: string): (r: string)
    ensures r != "" ==> !SpaceOrDot(r[0]) && !SpaceOrDot(r[|r|-1])
    ensures |r| <= |s|
  {
    Trim(s, c => SpaceOrDot(c))
  }

  function Lower(c: char): char {
    if 'A' <= c <= 'Z' then (c as int + 32) as char else c
  }

  function LowerAll(s: string): string {
    seq(|s|, i requires 0 <= i < |s| => Lower(s[i]))
  }

  // con, prn, aux, nul, com1 to com9 and lpt1 to lpt9.
  predicate IsDevice(s: string) {
    || s == "con" || s == "prn" || s == "aux" || s == "nul"
    || (|s| == 4 && (s[..3] == "com" || s[..3] == "lpt") && '1' <= s[3] <= '9')
  }

  function FirstDot(s: string): (i: nat)
    ensures i <= |s| && (i < |s| ==> s[i] == '.')
    ensures forall j | 0 <= j < i :: s[j] != '.'
  {
    if s == "" || s[0] == '.' then 0 else 1 + FirstDot(s[1..])
  }

  // What comes before the first dot, unless that is the first character.
  function DeviceStem(s: string): string {
    var i := FirstDot(s);
    if 0 < i < |s| then s[..i] else s
  }

  predicate Reserved(s: string) {
    IsDevice(LowerAll(DeviceStem(s)))
  }

  // The name before the reserved-name check.
  function Cleaned(name: string, nfc: string -> string): string {
    TrimSpace(TrimDots(CleanChars(nfc(LastComponent(name)))))
  }

  function Finish(cleaned: string): string {
    if cleaned == "" || cleaned == "." || cleaned == ".." then "file"
    else
      var safe := if Reserved(cleaned) then "_" + cleaned else cleaned;
      var r := TrimDots(Clamped(safe, MAX_NAME_BYTES));
      if r == "" then "file" else r
  }

  function Sanitized(name: string, nfc: string -> string): string {
    Finish(Cleaned(name, nfc))
  }

  method SanitizeFilename(name: string, nfc: string -> string) returns (out: string)
    ensures out == Sanitized(name, nfc)
  {
    var component := nfc(LastComponent(name));
    var b := "";
    var i := 0;
    assert component[..0] == "";
    while i < |component|
      invariant 0 <= i <= |component| && Visible(b) == CleanChars(component[..i])
    {
      var r := component[i];
      OneMoreCharacter(component, i, b, r);
      if r as int == 0 {
      } else if IsControl(r) {
      } else if Forbidden(r) {
        b := b + "_";
      } else {
        b := b + [r];
      }
      i := i + 1;
    }
    assert component[..i] == component;
    out := Visible(b);
    out := TrimSpace(TrimDots(out));
    assert out == Cleaned(name, nfc);
    if out == "" || out == "." || out == ".." {
      return "file";
    }
    if Reserved(out) {
      out := "_" + out;
    }
    out := TrimDots(Clamped(out, MAX_NAME_BYTES));
    if out == "" {
      return "file";
    }
  }

  lemma {:induction false} OneMoreCharacter(s: string, i: nat, b: string, r: char)
    requires i < |s| && r == s[i] && Visible(b) == CleanChars(s[..i])
    ensures IsControl(r) ==> CleanChars(s[..i + 1]) == Visible(b)
    ensures Forbidden(r) && !IsControl(r) ==> CleanChars(s[..i + 1]) == Visible(b + "_")
    ensures !Forbidden(r) && !IsControl(r) ==> CleanChars(s[..i + 1]) == Visible(b + [r])
  {
    assert s[..i + 1][..i] == s[..i];
    VisibleSnoc(b, r);
    VisibleSnoc(b, '_');
  }

  // strings.Map with the invisible characters dropped.
  function Visible(s: string): string {
    if s == "" then "" else Visible(s[..|s|-1]) + if Invisible(s[|s|-1]) then "" else [s[|s|-1]]
  }

  lemma {:induction false} VisibleSnoc(s: string, c: char)
    ensures Visible(s + [c]) == Visible(s) + if Invisible(c) then "" else [c]
  {
    assert (s + [c])[..|s|] == s;
  }

  lemma {:induction false} FinishCases(c: string, r: string) returns (safe: string, t: string)
    requires r == Finish(c)
    ensures safe == if Reserved(c) then "_" + c else c
    ensures t == TrimDots(Clamped(safe, MAX_NAME_BYTES))
    ensures r == if c == "" || c == "." || c == ".." || t == "" then "file" else t
  {
    safe := if Reserved(c) then "_" + c else c;
    t := TrimDots(Clamped(safe, MAX_NAME_BYTES));
  }

  // ---------------------------------------------------------------------------
  // What every result satisfies
  // ---------------------------------------------------------------------------

  predicate Usable(c: char) {
    !IsControl(c) && !Forbidden(c) && !Invisible(c)
  }

  predicate AllUsable(s: string) {
    forall i | 0 <= i < |s| :: Usable(s[i])
  }

  lemma {:induction false} CleanCharsUsable(s: string)
    ensures AllUsable(CleanChars(s))
  {
    if s != "" {
      CleanCharsUsable(s[..|s|-1]);
    }
  }

  lemma {:induction false} UsableSubset(s: string, t: string)
    requires AllUsable(t) && forall c | c in s :: c in t
    ensures AllUsable(s)
  {
    forall i | 0 <= i < |s|
      ensures Usable(s[i])
    {
      assert s[i] in t;
    }
  }

  lemma {:induction false} ClampedFits(s: string, max: int, r: string)
    requires max > 0 && r == Clamped(s, max)
    ensures |Bytes(r)| <= max
    ensures AllUsable(s) ==> AllUsable(r)
  {
    var stem, e := ClampSplit(s, Ext(s), max);
    if |Bytes(s)| > max {
      ClampStemBytes(s, e, max, stem, r);
    }
  }

  lemma {:induction false} PartsUsable(s: string, stem: string, p: string, e: string)
    requires AllUsable(s) && s == stem + e && p <= stem
    ensures AllUsable(p + e)
  {
    assert forall i | 0 <= i < |p| :: p[i] == s[i];
    assert forall i | 0 <= i < |e| :: e[i] == s[|stem| + i];
  }

  lemma {:induction false} TrimmedIsNoLonger(s: string)
    ensures |Bytes(TrimDots(s))| <= |Bytes(s)|
  {
    var front, back := TrimIsAMiddle(s, c => SpaceOrDot(c), TrimDots(s));
    MiddleIsNoLonger(front, TrimDots(s), back);
  }

  lemma {:induction false} MiddleIsNoLonger(front: string, r: string, back: string)
    ensures |Bytes(r)| <= |Bytes(front + r + back)|
  {
    BytesConcat(front + r, back);
    BytesConcat(front, r);
  }

  lemma {:induction false} TrimmedUsable(s: string, cut: char -> bool, r: string)
    requires AllUsable(s) && r == Trim(s, cut)
    ensures AllUsable(r)
  {
    var front, back := TrimIsAMiddle(s, cut, r);
    UsableSubset(r, s);
  }

  // On every input, whatever the normalisation does: never empty, at most 255
  // bytes, no separator, colon, control or invisible character, and no space
  // or dot at either end.
  lemma {:induction false} SanitizedIsSafe(name: string, nfc: string -> string)
    ensures Safe(Sanitized(name, nfc))
  {
    var raw := CleanChars(nfc(LastComponent(name)));
    CleanCharsUsable(nfc(LastComponent(name)));
    TrimmedUsable(raw, c => SpaceOrDot(c), TrimDots(raw));
    TrimmedUsable(TrimDots(raw), c => IsSpace(c), Cleaned(name, nfc));
    FinishIsSafe(Cleaned(name, nfc), Sanitized(name, nfc));
  }

  predicate Safe(r: string) {
    && r != "" && |Bytes(r)| <= MAX_NAME_BYTES
    && AllUsable(r)
    && !SpaceOrDot(r[0]) && !SpaceOrDot(r[|r|-1])
  }

  lemma {:induction false} FinishIsSafe(cleaned: string, r: string)
    requires AllUsable(cleaned) && r == Finish(cleaned)
    ensures Safe(r)
  {
    var safe, t := FinishCases(cleaned, r);
    UnderscoreUsable(cleaned, safe);
    SafePartsFit(safe, t);
    PlainFileIsSafe();
  }

  lemma {:induction false} UnderscoreUsable(c: string, safe: string)
    requires AllUsable(c) && (safe == c || safe == "_" + c)
    ensures AllUsable(safe)
  {
  }

  lemma PlainFileIsSafe()
    ensures Safe("file")
  {
    BytesLength("file");
  }

  lemma {:induction false} SafePartsFit(safe: string, r: string)
    requires AllUsable(safe) && r == TrimDots(Clamped(safe, MAX_NAME_BYTES))
    ensures r == "" || Safe(r)
  {
    var clamped := Clamped(safe, MAX_NAME_BYTES);
    ClampedFits(safe, MAX_NAME_BYTES, clamped);
    TrimmedUsable(clamped, c => SpaceOrDot(c), r);
    TrimmedIsNoLonger(clamped);
  }

  // ---------------------------------------------------------------------------
  // Reserved device names
  // ---------------------------------------------------------------------------

  predicate EdgeFree(s: string) {
    s != "" && !SpaceOrDot(s[0]) && !SpaceOrDot(s[|s|-1])
  }

  lemma DeviceNames(d: string)
    requires IsDevice(d)
    ensures 3 <= |d| <= 4 && d[0] != '_' && '.' !in d && ' ' !in d
  {
    if |d| == 4 {
      assert d == d[..3] + [d[3]];
    }
  }

  lemma {:induction false} LoweredDevice(s: string)
    requires IsDevice(LowerAll(s))
    ensures 3 <= |s| <= 4 && s[0] != '_' && '.' !in s && ' ' !in s
  {
    DeviceNames(LowerAll(s));
    assert Lower(s[0]) == LowerAll(s)[0];
    assert forall i | 0 <= i < |s| :: SpaceOrDot(s[i]) ==> LowerAll(s)[i] == s[i];
  }

  lemma {:induction false} UnderscoreIsNotReserved(s: string)
    requires s != "" && s[0] == '_'
    ensures !Reserved(s)
  {
    var stem := DeviceStem(s);
    assert stem != "" && stem[0] == '_';
    if IsDevice(LowerAll(stem)) {
      LoweredDevice(stem);
    }
  }

  // A stem that is cut keeps at least 59 characters.
  lemma {:induction false} LongFitHasMany(stem: string, budget: int)
    requires budget >= 239 && |Bytes(stem)| > budget
    ensures 59 <= |LongestFit(stem, budget)| < |stem|
  {
    var p := LongestFit(stem, budget);
    assert |p| < |stem|;
    LongestFitIsLongest(stem, budget, |p| + 1);
    BytesPrefix(stem, |p| + 1);
  }

  // A name that is too long: what is kept of the stem, and the extension.
  lemma {:induction false} LongClamp(s: string, r: string) returns (stem: string, p: string, e: string)
    requires |Bytes(s)| > MAX_NAME_BYTES && r == Clamped(s, MAX_NAME_BYTES)
    ensures s == stem + e && p < stem && |p| >= 59 && r == p + e
    ensures e == KeptExt(Ext(s), MAX_NAME_BYTES) && (e == "" || e[0] == '.')
    ensures p == LongestFit(stem, MAX_NAME_BYTES - |Bytes(e)|) && |Bytes(e)| <= 16
    ensures e == "" ==> p == LongestFit(s, MAX_NAME_BYTES)
  {
    stem, e := ClampSplit(s, Ext(s), MAX_NAME_BYTES);
    p := CutStem(s, stem, e);
  }

  lemma {:induction false} CutStem(s: string, stem: string, e: string) returns (p: string)
    requires s == stem + e && |Bytes(s)| > MAX_NAME_BYTES && |Bytes(e)| <= 16
    ensures p == LongestFit(stem, MAX_NAME_BYTES - |Bytes(e)|) && p < stem && |p| >= 59
    ensures e == "" ==> p == LongestFit(s, MAX_NAME_BYTES)
  {
    BytesConcat(stem, e);
    p := LongestFit(stem, MAX_NAME_BYTES - |Bytes(e)|);
    LongFitHasMany(stem, MAX_NAME_BYTES - |Bytes(e)|);
    if e == "" {
      assert stem == s;
    }
  }

  // The first character always survives the clamp.
  lemma {:induction false} ClampKeepsFirst(s: string, r: string)
    requires s != "" && r == Clamped(s, MAX_NAME_BYTES)
    ensures r != "" && r[0] == s[0]
  {
    if |Bytes(s)| > MAX_NAME_BYTES {
      var stem, p, e := LongClamp(s, r);
      assert p[0] == stem[0];
    } else {
      ClampNothing(s);
    }
  }

  lemma {:induction false} ClampNothing(s: string)
    requires |Bytes(s)| <= MAX_NAME_BYTES
    ensures Clamped(s, MAX_NAME_BYTES) == s
  {
  }

  lemma {:induction false} TrimKeepsFront(s: string, r: string)
    requires s != "" && !SpaceOrDot(s[0]) && r == TrimDots(s)
    ensures r != "" && r <= s
  {
    var cut := c => SpaceOrDot(c);
    assert TrimLeft(s, cut) == s;
    TrimRightKeepsFirst(s, cut);
  }

  lemma {:induction false} TrimRightKeepsFirst(s: string, cut: char -> bool)
    requires s != "" && !cut(s[0])
    ensures TrimRight(s, cut) != ""
  {
    if cut(s[|s|-1]) {
      TrimRightKeepsFirst(s[..|s|-1], cut);
    }
  }

  // A prefix that reaches past the first dot has the same device stem.
  lemma {:induction false} SameFirstDot(p: string, s: string)
    requires p <= s && FirstDot(p) < |p|
    ensures FirstDot(s) == FirstDot(p)
  {
    var i, j := FirstDot(p), FirstDot(s);
    assert s[i] == p[i] == '.';
    assert forall k | 0 <= k < i :: s[k] == p[k];
  }

  lemma {:induction false} DottedPrefix(p: string, s: string)
    requires p <= s && FirstDot(p) < |p| && p[0] != '.'
    ensures Reserved(p) <==> Reserved(s)
  {
    SameFirstDot(p, s);
    assert p[..FirstDot(p)] == s[..FirstDot(p)];
  }

  lemma {:induction false} KeptExtIsNotReserved(c: string, stem: string, p: string, e: string)
    requires c == stem + e && p < stem && |p| > 4 && e != "" && e[0] == '.'
    requires EdgeFree(c) && !Reserved(c)
    ensures !Reserved(p + e)
  {
    var r := p + e;
    assert p[0] == c[0];
    if FirstDot(p) < |p| {
      assert p <= r && p <= c;
      DottedPrefix(p, r);
      DottedPrefix(p, c);
    } else {
      assert r[|p|] == '.';
      assert FirstDot(r) == |p|;
      assert DeviceStem(r) == p;
      if IsDevice(LowerAll(p)) {
        LoweredDevice(p);
      }
    }
  }

  lemma {:induction false} CutNameReserved(c: string, r: string)
    requires EdgeFree(c) && !Reserved(c) && r <= c && r != ""
    ensures Reserved(r) <==> IsDevice(LowerAll(r))
  {
    assert r[0] == c[0];
    if FirstDot(r) < |r| {
      DottedPrefix(r, c);
      if IsDevice(LowerAll(r)) {
        LoweredDevice(r);
      }
    }
  }

  // A reserved name gets an underscore, which keeps it from being reserved.
  lemma {:induction false} UnderscoreStays(c: string, r: string)
    requires Reserved(c) && r == Finish(c)
    ensures r != "" && r[0] == '_' && !Reserved(r)
  {
    LoweredDevice(DeviceStem(c));
    var safe, t := FinishCases(c, r);
    FrontKept(safe, Clamped(safe, MAX_NAME_BYTES), t);
    UnderscoreIsNotReserved(t);
  }

  lemma FileIsNotReserved()
    ensures !Reserved("file") && !Reserved("")
  {
    NoDots("file");
    assert LowerAll("file") == "file";
  }

  lemma {:induction false} OnlyDots(c: string)
    requires IsDots(c)
    ensures !Reserved(c) && |Bytes(c)| <= MAX_NAME_BYTES && TrimDots(c) == ""
  {
    BytesLength(c);
    AllCutAway(c, x => SpaceOrDot(x));
    TooShortForADevice(c);
  }

  lemma {:induction false} TooShortForADevice(c: string)
    requires |c| <= 2
    ensures !Reserved(c)
  {
    if Reserved(c) {
      LoweredDevice(DeviceStem(c));
    }
  }

  lemma {:induction false} AllCutAway(c: string, cut: char -> bool)
    requires forall i | 0 <= i < |c| :: cut(c[i])
    ensures Trim(c, cut) == ""
    decreases |c|
  {
    if c != "" {
      AllCutAway(c[1..], cut);
    }
  }

  // Whatever the cleaned name: the check for device names is made before the
  // clamp and the last trim, so the result is reserved exactly when the check
  // would have to be made after them.  Without a clamp only the trim counts.
  lemma {:induction false} ReservedIff(c: string, r: string)
    requires r == Finish(c)
    ensures Reserved(r) <==> !Reserved(c) && Reserved(TrimDots(Clamped(c, MAX_NAME_BYTES)))
    ensures |Bytes(c)| <= MAX_NAME_BYTES ==> (Reserved(r) <==> !Reserved(c) && Reserved(TrimDots(c)))
  {
    if Reserved(c) {
      UnderscoreStays(c, r);
    } else {
      if IsDots(c) {
        OnlyDots(c);
        ClampNothing(c);
      }
      ReservedAfterAll(c, r);
    }
    if |Bytes(c)| <= MAX_NAME_BYTES {
      ClampNothing(c);
    }
  }

  lemma {:induction false} ReservedAfterAll(c: string, r: string)
    requires !Reserved(c) && r == Finish(c)
    requires IsDots(c) ==> Clamped(c, MAX_NAME_BYTES) == c && TrimDots(c) == ""
    ensures Reserved(r) <==> Reserved(TrimDots(Clamped(c, MAX_NAME_BYTES)))
  {
    FileIsNotReserved();
    var t := FinishIf(c, r);
  }

  // "", "." and ".."
  predicate IsDots(c: string) {
    |c| <= 2 && forall i | 0 <= i < |c| :: c[i] == '.'
  }

  lemma {:induction false} DotsAre(c: string)
    ensures c == "" || c == "." || c == ".." <==> IsDots(c)
  {
  }

  lemma {:induction false} FinishIf(c: string, r: string) returns (t: string)
    requires !Reserved(c) && r == Finish(c)
    ensures t == TrimDots(Clamped(c, MAX_NAME_BYTES))
    ensures r == if IsDots(c) || t == "" then "file" else t
  {
    DotsAre(c);
    var safe;
    safe, t := FinishCases(c, r);
  }

  lemma {:induction false} SanitizedReservedIff(name: string, nfc: string -> string)
    ensures var c := Cleaned(name, nfc);
            && (Reserved(Sanitized(name, nfc)) <==> !Reserved(c) && Reserved(TrimDots(Clamped(c, MAX_NAME_BYTES))))
            && (|Bytes(c)| <= MAX_NAME_BYTES ==>
                  (Reserved(Sanitized(name, nfc)) <==> !Reserved(c) && Reserved(TrimDots(c))))
  {
    ReservedIff(Cleaned(name, nfc), Sanitized(name, nfc));
  }

  // A device name, a space, and nothing but spaces and dots after it.
  predicate DeviceThenSpace(q: string) {
    var k := |TrimDots(q)|;
    k < |q| && q[k] == ' ' && IsDevice(LowerAll(q[..k]))
  }

  // The two ways to a device name: a leading space or dot hides it, or a space
  // right behind it does, there from the start or left there by the clamp.
  lemma {:induction false} TwoWaysToADevice(c: string, q: string, r: string)
    requires r == Finish(c) && q == Clamped(c, MAX_NAME_BYTES)
    ensures Reserved(r) <==>
            c != "" && if SpaceOrDot(c[0]) then Reserved(TrimDots(q)) else DeviceThenSpace(q)
  {
    ReservedIff(c, r);
    if c == "" {
      ClampNothing(c);
      FileIsNotReserved();
    } else if SpaceOrDot(c[0]) {
      LeadingCutIsNotReserved(c);
    } else {
      ClampKeepsFirst(c, q);
      var d := TrimDots(q);
      FrontOf(q, d);
      ClampAgrees(c, q);
      SpaceBehindDevice(c, q, d);
    }
  }

  lemma {:induction false} LeadingCutIsNotReserved(c: string)
    requires c != "" && SpaceOrDot(c[0])
    ensures !Reserved(c)
  {
    var stem := DeviceStem(c);
    assert stem != "" && stem[0] == c[0];
    if IsDevice(LowerAll(stem)) {
      LoweredDevice(stem);
    }
  }

  lemma {:induction false} FrontOf(q: string, d: string)
    requires q != "" && !SpaceOrDot(q[0]) && d == TrimDots(q)
    ensures d != "" && d <= q && (|d| < |q| ==> SpaceOrDot(q[|d|]))
  {
    TrimKeepsFront(q, d);
    CutAtRight(q, x => SpaceOrDot(x));
  }

  // The clamp leaves the first five characters alone, and a name this short.
  lemma {:induction false} ClampAgrees(c: string, q: string)
    requires q == Clamped(c, MAX_NAME_BYTES)
    ensures forall n | 0 <= n <= 5 && n <= |q| :: q[..n] <= c
    ensures |q| <= 5 ==> q == c
  {
    if |Bytes(c)| <= MAX_NAME_BYTES {
      ClampNothing(c);
    } else {
      var stem, p, e := LongClamp(c, q);
      FrontAgrees(c, stem, p, e, q);
    }
  }

  lemma {:induction false} FrontAgrees(c: string, stem: string, p: string, e: string, q: string)
    requires c == stem + e && p < stem && |p| > 5 && q == p + e
    ensures |q| > 5 && forall n | 0 <= n <= 5 :: q[..n] <= c
  {
    forall n | 0 <= n <= 5
      ensures q[..n] <= c
    {
      assert q[..n] == p[..n] == c[..n];
    }
  }

  lemma {:induction false} SpaceBehindDevice(c: string, q: string, d: string)
    requires c != "" && q != "" && q[0] == c[0] && c[0] != '.'
    requires (forall n | 0 <= n <= 5 && n <= |q| :: q[..n] <= c) && (|q| <= 5 ==> q == c)
    requires d != "" && d <= q && (|d| < |q| ==> SpaceOrDot(q[|d|]))
    ensures !Reserved(c) && Reserved(d) <==> |d| < |q| && q[|d|] == ' ' && IsDevice(LowerAll(q[..|d|]))
  {
    assert q[..|d|] == d;
    if Reserved(d) && FirstDot(d) < |d| {
      DottedIsSeen(c, q, d);
    } else if IsDevice(LowerAll(d)) {
      LoweredDevice(d);
      NoDots(d);
      DeviceIsSeen(c, q, d);
    }
  }

  // A dot in the front ends the same stem in the whole name.
  lemma {:induction false} DottedIsSeen(c: string, q: string, d: string)
    requires d != "" && d <= q && d[0] != '.' && FirstDot(d) < |d| && Reserved(d)
    requires forall n | 0 <= n <= 5 && n <= |q| :: q[..n] <= c
    ensures Reserved(c)
    ensures !IsDevice(LowerAll(d))
  {
    var i := FirstDot(d);
    LoweredDevice(DeviceStem(d));
    var w := d[..i + 1];
    assert w == q[..i + 1] && w[i] == '.';
    assert FirstDot(w) == i;
    DottedPrefix(w, d);
    DottedPrefix(w, c);
    if IsDevice(LowerAll(d)) {
      LoweredDevice(d);
    }
  }

  // Behind a device name the check sees a dot, or the end, but not a space.
  lemma {:induction false} DeviceIsSeen(c: string, q: string, d: string)
    requires IsDevice(LowerAll(d)) && 3 <= |d| <= 4 && '.' !in d && ' ' !in d && d <= q
    requires (forall n | 0 <= n <= 5 && n <= |q| :: q[..n] <= c) && (|q| <= 5 ==> q == c)
    requires |d| < |q| ==> SpaceOrDot(q[|d|])
    ensures Reserved(c) <==> |d| == |q| || q[|d|] == '.'
  {
    if |d| == |q| {
      NoDots(d);
      assert d == c;
    } else {
      var k := |d|;
      var w := q[..k + 1];
      assert w <= c && w[k] == q[k] && w[..k] == d;
      if q[k] == '.' {
        assert FirstDot(w) == k;
        DottedPrefix(w, c);
      } else {
        SpaceInStem(c, k);
      }
    }
  }

  lemma {:induction false} SpaceInStem(c: string, k: nat)
    requires k < |c| && k > 0 && c[k] == ' ' && '.' !in c[..k]
    ensures !Reserved(c)
  {
    var stem := DeviceStem(c);
    assert forall i | 0 <= i < k :: c[i] == c[..k][i];
    assert |stem| > k && stem[k] == ' ';
    if IsDevice(LowerAll(stem)) {
      LoweredDevice(stem);
    }
  }

  // A cleaned name with no space or dot at its ends is left to the clamp: it
  // has to cut the name down to the device, with no extension kept.
  lemma {:induction false} CutReservedIff(c: string, r: string)
    requires EdgeFree(c) && r == Finish(c)
    ensures Reserved(r) <==>
              && !Reserved(c) && |Bytes(c)| > MAX_NAME_BYTES && KeptExt(Ext(c), MAX_NAME_BYTES) == ""
              && IsDevice(LowerAll(TrimDots(LongestFit(c, MAX_NAME_BYTES))))
  {
    ReservedIff(c, r);
    if |Bytes(c)| <= MAX_NAME_BYTES {
      TrimNothing(c, x => SpaceOrDot(x));
    } else if !Reserved(c) {
      var clamped := Clamped(c, MAX_NAME_BYTES);
      var t := TrimDots(clamped);
      FrontKept(c, clamped, t);
      LongNameReserved(c, clamped, t);
    }
  }

  // The first character survives the clamp and the last trim.
  lemma {:induction false} FrontKept(s: string, clamped: string, t: string)
    requires s != "" && !SpaceOrDot(s[0]) && clamped == Clamped(s, MAX_NAME_BYTES) && t == TrimDots(clamped)
    ensures t != "" && t[0] == s[0] && t <= clamped
  {
    ClampKeepsFirst(s, clamped);
    TrimKeepsFront(clamped, t);
  }

  lemma {:induction false} LongNameReserved(c: string, clamped: string, r: string)
    requires EdgeFree(c) && !Reserved(c) && |Bytes(c)| > MAX_NAME_BYTES
    requires clamped == Clamped(c, MAX_NAME_BYTES) && r == TrimDots(clamped) && r != "" && r <= clamped
    ensures Reserved(r) <==> KeptExt(Ext(c), MAX_NAME_BYTES) == "" &&
                             IsDevice(LowerAll(TrimDots(LongestFit(c, MAX_NAME_BYTES))))
  {
    var stem, p, e := LongClamp(c, clamped);
    if e == "" {
      assert clamped == p && p <= c;
      CutNameReserved(c, r);
    } else {
      EndsKept(c, stem, p, e);
      TrimNothing(clamped, x => SpaceOrDot(x));
      KeptExtIsNotReserved(c, stem, p, e);
    }
  }

  lemma {:induction false} EndsKept(c: string, stem: string, p: string, e: string)
    requires c == stem + e && p < stem && p != "" && e != ""
    ensures (p + e)[0] == c[0] && (p + e)[|p + e|-1] == c[|c|-1]
  {
  }

  // ---------------------------------------------------------------------------
  // Sanitising twice
  // ---------------------------------------------------------------------------

  lemma {:induction false} UsableIsUnchanged(r: string)
    requires AllUsable(r)
    ensures LastComponent(r) == r && CleanChars(r) == r
  {
    if r != "" {
      var front := r[..|r|-1];
      UsableIsUnchanged(front);
      assert Usable(r[|r|-1]);
      assert r == front + [r[|r|-1]];
    }
  }

  // A result that normalisation leaves alone, with no other white space at its
  // ends, is left alone exactly when it is not a device name.
  lemma {:induction false} FixedPointIff(r: string, nfc: string -> string)
    requires Safe(r) && nfc(r) == r
    ensures Sanitized(r, nfc) == r <==> !Reserved(r) && !IsSpace(r[0]) && !IsSpace(r[|r|-1])
  {
    if IsSpace(r[0]) || IsSpace(r[|r|-1]) {
      UsableIsUnchanged(r);
      TrimNothing(r, x => SpaceOrDot(x));
      SpacesAreLost(r, Cleaned(r, nfc), Sanitized(r, nfc));
    } else {
      NothingToClean(r, nfc);
      if Reserved(r) {
        UnderscoreGoesInFront(r);
      } else {
        NothingToFinish(r, Finish(r));
      }
    }
  }

  // What is cleaned off the ends does not come back.
  lemma {:induction false} SpacesAreLost(r: string, c: string, f: string)
    requires Safe(r) && (IsSpace(r[0]) || IsSpace(r[|r|-1])) && c == TrimSpace(r) && f == Finish(c)
    ensures f != r
  {
    if Reserved(c) {
      if !IsSpace(r[0]) {
        TrimKeepsFirst(r, x => IsSpace(x));
      }
      UnderscoreIsNew(r, c, f);
    } else {
      TrimShortens(r, x => IsSpace(x));
      FinishIsNoLonger(c, f);
    }
  }

  lemma {:induction false} FinishIsNoLonger(c: string, f: string)
    requires !Reserved(c) && f == Finish(c)
    ensures f == "file" || |f| <= |c|
  {
    var safe, t := FinishCases(c, f);
    ClampIsNoLonger(c);
  }

  lemma {:induction false} UnderscoreIsNew(r: string, c: string, f: string)
    requires r != "" && f == Finish(c) && Reserved(c) && (IsSpace(r[0]) || (c != "" && c[0] == r[0]))
    ensures f != r
  {
    UnderscoreStays(c, f);
    NoUnderscore(c);
  }

  lemma {:induction false} NoUnderscore(c: string)
    requires Reserved(c)
    ensures c != "" && c[0] != '_'
  {
    LoweredDevice(DeviceStem(c));
  }

  lemma {:induction false} TrimShortens(s: string, cut: char -> bool)
    requires s != "" && (cut(s[0]) || cut(s[|s|-1]))
    ensures |Trim(s, cut)| < |s|
  {
    if !cut(s[0]) {
      assert TrimLeft(s, cut) == s;
      assert |TrimRight(s, cut)| == |TrimRight(s[..|s|-1], cut)|;
    }
  }

  lemma {:induction false} TrimKeepsFirst(s: string, cut: char -> bool)
    requires s != "" && !cut(s[0])
    ensures Trim(s, cut) != "" && Trim(s, cut)[0] == s[0]
  {
    assert TrimLeft(s, cut) == s;
    TrimRightKeepsFirst(s, cut);
  }

  lemma {:induction false} ClampIsNoLonger(s: string)
    ensures |Clamped(s, MAX_NAME_BYTES)| <= |s|
  {
    if |Bytes(s)| > MAX_NAME_BYTES {
      var stem, p, e := LongClamp(s, Clamped(s, MAX_NAME_BYTES));
    }
  }

  lemma {:induction false} NothingToFinish(r: string, f: string)
    requires Safe(r) && !Reserved(r) && f == Finish(r)
    ensures f == r
  {
    var safe, t := FinishCases(r, f);
    ClampNothing(r);
    TrimNothing(r, x => SpaceOrDot(x));
  }

  lemma {:induction false} UnderscoreGoesInFront(r: string)
    requires Safe(r) && Reserved(r)
    ensures Finish(r) != r
  {
    var clamped := Clamped("_" + r, MAX_NAME_BYTES);
    ClampKeepsFirst("_" + r, clamped);
    TrimKeepsFront(clamped, TrimDots(clamped));
    UnderscoreFinish(r, clamped, TrimDots(clamped));
  }

  lemma {:induction false} UnderscoreFinish(r: string, clamped: string, t: string)
    requires Reserved(r) && r != "" && clamped == Clamped("_" + r, MAX_NAME_BYTES) && t == TrimDots(clamped)
    requires t != "" && clamped != "" && t[0] == clamped[0] == '_'
    ensures Finish(r) != r
  {
    if r[0] == '_' { UnderscoreIsNotReserved(r); }
    LoweredDevice(DeviceStem(r));
    assert r != "." && r != "..";
  }

  predicate Ascii(s: string) {
    forall i | 0 <= i < |s| :: s[i] as int < 0x80
  }

  // For ASCII names, which normalisation never changes: no device name comes
  // out unless the clamp exposes it, and otherwise once is enough.
  lemma {:induction false} AsciiNames(name: string, nfc: string -> string)
    requires Ascii(name) && forall s | Ascii(s) :: nfc(s) == s
    ensures Ascii(Sanitized(name, nfc))
    ensures |Bytes(Cleaned(name, nfc))| <= MAX_NAME_BYTES ==> !Reserved(Sanitized(name, nfc))
    ensures Sanitized(Sanitized(name, nfc), nfc) == Sanitized(name, nfc) <==> !Reserved(Sanitized(name, nfc))
  {
    AsciiCleaned(name, nfc);
    SanitizedIsSafe(name, nfc);
    AsciiResult(Cleaned(name, nfc), Sanitized(name, nfc), nfc);
  }

  lemma {:induction false} AsciiResult(c: string, r: string, nfc: string -> string)
    requires Ascii(c) && (c != "" ==> EdgeFree(c)) && r == Finish(c) && Safe(r)
    requires forall s | Ascii(s) :: nfc(s) == s
    ensures Ascii(r)
    ensures |Bytes(c)| <= MAX_NAME_BYTES ==> !Reserved(r)
    ensures Sanitized(r, nfc) == r <==> !Reserved(r)
  {
    AsciiFinish(c, r);
    FittingIsNotReserved(c, r);
    AsciiEdges(r);
    FixedPointIff(r, nfc);
  }

  lemma {:induction false} FittingIsNotReserved(c: string, r: string)
    requires (c != "" ==> EdgeFree(c)) && r == Finish(c)
    ensures |Bytes(c)| <= MAX_NAME_BYTES ==> !Reserved(r)
  {
    if c != "" {
      CutReservedIff(c, r);
    } else {
      FileIsNotReserved();
    }
  }

  lemma {:induction false} AsciiEdges(r: string)
    requires Ascii(r) && Safe(r)
    ensures !IsSpace(r[0]) && !IsSpace(r[|r|-1])
  {
    assert Usable(r[0]) && Usable(r[|r|-1]);
    AsciiSpace(r[0]);
    AsciiSpace(r[|r|-1]);
  }

  lemma AsciiSpace(c: char)
    requires c as int < 0x80 && !IsControl(c) && !SpaceOrDot(c)
    ensures !IsSpace(c)
  {
  }

  lemma {:induction false} AsciiSubset(s: string, t: string)
    requires Ascii(t) && forall c | c in s :: c in t
    ensures Ascii(s)
  {
    forall i | 0 <= i < |s|
      ensures s[i] as int < 0x80
    {
      assert s[i] in t;
    }
  }

  lemma {:induction false} CleanCharsAscii(s: string)
    requires Ascii(s)
    ensures Ascii(CleanChars(s))
  {
    if s != "" {
      CleanCharsAscii(s[..|s|-1]);
    }
  }

  lemma {:induction false} LastComponentOf(name: string)
    ensures forall c | c in LastComponent(name) :: c in name
  {
    if name != "" {
      LastComponentOf(name[..|name|-1]);
    }
  }

  lemma {:induction false} AsciiCleaned(name: string, nfc: string -> string)
    requires Ascii(name) && forall s | Ascii(s) :: nfc(s) == s
    ensures Ascii(Cleaned(name, nfc))
    ensures Cleaned(name, nfc) != "" ==> EdgeFree(Cleaned(name, nfc))
  {
    var last := LastComponent(name);
    LastComponentOf(name);
    AsciiSubset(last, name);
    CleanCharsAscii(last);
    CleanCharsUsable(last);
    var raw := CleanChars(last);
    var t := TrimDots(raw);
    TrimmedAscii(raw, t);
    TrimmedUsable(raw, c => SpaceOrDot(c), t);
    if t != "" {
      AsciiSpace(t[0]);
      AsciiSpace(t[|t|-1]);
    }
    TrimNothing(t, x => IsSpace(x));
  }

  lemma {:induction false} AsciiFinish(c: string, r: string)
    requires Ascii(c) && r == Finish(c)
    ensures Ascii(r)
  {
    var safe, t := FinishCases(c, r);
    AsciiUnderscore(c, safe);
    AsciiTrimmedClamp(safe, t);
  }

  lemma {:induction false} AsciiUnderscore(c: string, safe: string)
    requires Ascii(c) && (safe == c || safe == "_" + c)
    ensures Ascii(safe) && Ascii("file")
  {
  }

  lemma {:induction false} AsciiTrimmedClamp(safe: string, r: string)
    requires Ascii(safe) && r == TrimDots(Clamped(safe, MAX_NAME_BYTES))
    ensures Ascii(r)
  {
    var clamped := Clamped(safe, MAX_NAME_BYTES);
    ClampedAscii(safe, clamped);
    TrimmedAscii(clamped, r);
  }

  lemma {:induction false} TrimmedAscii(s: string, r: string)
    requires Ascii(s) && r == TrimDots(s)
    ensures Ascii(r)
  {
    var front, back := TrimIsAMiddle(s, c => SpaceOrDot(c), r);
    AsciiSubset(r, s);
  }

  lemma {:induction false} ClampedAscii(s: string, r: string)
    requires Ascii(s) && r == Clamped(s, MAX_NAME_BYTES)
    ensures Ascii(r)
  {
    if |Bytes(s)| > MAX_NAME_BYTES {
      var stem, p, e := LongClamp(s, r);
      AsciiParts(s, stem, p, e);
    } else {
      ClampNothing(s);
    }
  }

  lemma {:induction false} AsciiParts(s: string, stem: string, p: string, e: string)
    requires Ascii(s) && s == stem + e && p < stem
    ensures Ascii(p + e)
  {
    assert forall i | 0 <= i < |p| :: p[i] == s[i];
    assert forall i | 0 <= i < |e| :: e[i] == s[|stem| + i];
  }

  // ---------------------------------------------------------------------------
  // Device names that do come out
  // ---------------------------------------------------------------------------

  function Spaces(n: nat): string {
    seq(n, _ => ' ')
  }

  lemma {:induction false} AsciiBytes(s: string)
    requires Ascii(s)
    ensures |Bytes(s)| == |s|
  {
    if s != "" {
      AsciiBytes(s[..|s|-1]);
    }
  }

  lemma {:induction false} AsciiFit(s: string, budget: nat)
    requires Ascii(s) && |s| > budget
    ensures LongestFit(s, budget) == s[..budget]
  {
    var p := LongestFit(s, budget);
    AsciiBytes(s);
    AsciiBytes(p);
    if |p| < budget {
      LongestFitIsLongest(s, budget, budget);
      AsciiBytes(s[..budget]);
    }
  }

  lemma {:induction false} TrimTrailingSpaces(s: string, n: nat)
    requires EdgeFree(s)
    ensures TrimDots(s + Spaces(n)) == s
  {
    TrimTail(s, Spaces(n), c => SpaceOrDot(c));
  }

  // "con", at least 252 spaces, and one more character.
  lemma {:induction false} ClampExposesDevice(n: nat, nfc: string -> string)
    requires n >= 252 && nfc("con" + Spaces(n) + "x") == "con" + Spaces(n) + "x"
    ensures Sanitized("con" + Spaces(n) + "x", nfc) == "con" && Reserved("con")
  {
    var c := "con" + Spaces(n) + "x";
    assert c[0] == 'c' && c[|c|-1] == 'x' && Usable('c') && Usable('x');
    assert forall i | 0 <= i < |c| :: c[i] in {'c', 'o', 'n', ' ', 'x'};
    NothingToClean(c, nfc);
    CutToDevice(n);
  }

  // A name that cleaning leaves alone.
  lemma {:induction false} NothingToClean(s: string, nfc: string -> string)
    requires AllUsable(s) && nfc(s) == s && EdgeFree(s) && !IsSpace(s[0]) && !IsSpace(s[|s|-1])
    ensures Cleaned(s, nfc) == s
  {
    UsableIsUnchanged(s);
    TrimNothing(s, x => SpaceOrDot(x));
    TrimNothing(s, x => IsSpace(x));
  }

  lemma {:induction false} CutToDevice(n: nat)
    requires n >= 252
    ensures Finish("con" + Spaces(n) + "x") == "con" && Reserved("con")
  {
    var c := "con" + Spaces(n) + "x";
    assert Ascii(c) && |c| == n + 4 && '.' !in c;
    AsciiBytes(c);
    assert Ext(c) == "";
    AsciiFit(c, 255);
    assert c[..255] == "con" + Spaces(252);
    TrimTrailingSpaces("con", 252);
    NoDots(c);
    assert !IsDevice(LowerAll(c)) by {
      if IsDevice(LowerAll(c)) { LoweredDevice(c); }
    }
    NoDots("con");
    assert LowerAll("con") == "con";
    assert Bytes("") == [];
    assert Clamped(c, 255) == c[..255] by {
      var stem, e := ClampSplit(c, "", 255);
      assert stem == c;
    }
  }

  lemma {:induction false} NoDots(s: string)
    requires '.' !in s
    ensures DeviceStem(s) == s
  {
  }

  // Visible white space other than a blank, such as U+00A0, hides a leading dot
  // from the first trim, and the dot hides a device name from the check.
  lemma {:induction false} HiddenDotExposesDevice(w: char, d: string, dotted: string, s: string, nfc: string -> string)
    requires IsSpace(w) && Usable(w) && w != ' ' && dotted == "." + d && s == [w] + dotted && nfc(s) == s
    requires EdgeFree(d) && AllUsable(d) && !IsSpace(d[|d|-1]) && Reserved(d) && |Bytes(dotted)| <= MAX_NAME_BYTES
    ensures Sanitized(s, nfc) == d
  {
    assert Usable('.');
    HiddenDotStays(w, dotted, s, nfc);
    DotHidesDevice(d, dotted, Finish(dotted));
  }

  lemma {:induction false} HiddenDotStays(w: char, dotted: string, s: string, nfc: string -> string)
    requires IsSpace(w) && Usable(w) && w != ' ' && s == [w] + dotted && nfc(s) == s
    requires AllUsable(dotted) && dotted != "" && dotted[0] == '.'
    requires !SpaceOrDot(dotted[|dotted|-1]) && !IsSpace(dotted[|dotted|-1])
    ensures Cleaned(s, nfc) == dotted
  {
    UsableIsUnchanged(s);
    TrimNothing(s, x => SpaceOrDot(x));
    TrimOne(s, dotted, x => IsSpace(x));
  }

  // So U+00A0, a dot and "con" come out as "con".
  lemma {:induction false} NoBreakSpaceDotCon(s: string, nfc: string -> string)
    requires s == "\U{00A0}.con" && nfc(s) == s
    ensures Sanitized(s, nfc) == "con" && Reserved("con")
  {
    ConIsReserved("con");
    BytesLength(".con");
    HiddenDotExposesDevice('\U{00A0}', "con", ".con", s, nfc);
  }

  // Dots and spaces behind a device name, hidden behind such white space from
  // the first trim, hide it from the check as well, when a space comes first.
  lemma {:induction false} TrailingDotExposesDevice(d: string, tail: string, w: char, c: string, s: string,
                                                    nfc: string -> string)
    requires IsSpace(w) && Usable(w) && w != ' ' && c == d + tail && s == c + [w] && nfc(s) == s
    requires EdgeFree(d) && AllUsable(d) && !IsSpace(d[0]) && Reserved(d) && !Reserved(c)
    requires tail != "" && tail[|tail|-1] == '.' && forall x | x in tail :: SpaceOrDot(x)
    requires |Bytes(c)| <= MAX_NAME_BYTES
    ensures Cleaned(s, nfc) == c && Sanitized(s, nfc) == d
  {
    TailUsable(d, tail, w, s);
    HiddenEndStays(w, c, s, nfc);
    TrimTail(d, tail, x => SpaceOrDot(x));
    var safe, t := FinishCases(c, Finish(c));
    ClampNothing(c);
  }

  lemma {:induction false} TailUsable(d: string, tail: string, w: char, s: string)
    requires AllUsable(d) && (forall x | x in tail :: SpaceOrDot(x)) && Usable(w) && s == d + tail + [w]
    ensures AllUsable(s)
  {
    assert Usable('.') && Usable(' ');
    forall i | 0 <= i < |tail|
      ensures Usable(tail[i])
    {
      assert tail[i] in tail;
    }
  }

  lemma {:induction false} HiddenEndStays(w: char, c: string, s: string, nfc: string -> string)
    requires IsSpace(w) && w != ' ' && s == c + [w] && nfc(s) == s && AllUsable(s)
    requires c != "" && !SpaceOrDot(c[0]) && !IsSpace(c[0]) && !IsSpace(c[|c|-1])
    ensures Cleaned(s, nfc) == c
  {
    UsableIsUnchanged(s);
    TrimNothing(s, x => SpaceOrDot(x));
    TrimLast(s, c, x => IsSpace(x));
  }

  lemma {:induction false} TrimLast(s: string, front: string, cut: char -> bool)
    requires front != "" && |s| == |front| + 1 && front <= s
    requires cut(s[|s|-1]) && !cut(front[0]) && !cut(front[|front|-1])
    ensures Trim(s, cut) == front
  {
    assert TrimLeft(s, cut) == s;
    assert s[..|s|-1] == front;
    assert TrimRight(s, cut) == TrimRight(front, cut) == front;
  }

  lemma {:induction false} TrimTail(d: string, tail: string, cut: char -> bool)
    requires d != "" && !cut(d[0]) && !cut(d[|d|-1]) && forall x | x in tail :: cut(x)
    ensures Trim(d + tail, cut) == d
  {
    TrimRightTail(d, tail, d + tail, cut);
    assert TrimLeft(d + tail, cut) == d + tail;
  }

  lemma {:induction false} TrimRightTail(d: string, tail: string, s: string, cut: char -> bool)
    requires d != "" && !cut(d[|d|-1]) && s == d + tail && forall x | x in tail :: cut(x)
    ensures TrimRight(s, cut) == d
    decreases |tail|
  {
    if tail == "" {
      assert s == d;
    } else {
      var front := tail[..|tail|-1];
      assert s[..|s|-1] == d + front && s[|s|-1] == tail[|tail|-1];
      TrimRightTail(d, front, s[..|s|-1], cut);
    }
  }

  // So "con", a space, a dot and U+00A0 come out as "con".
  lemma {:induction false} ConSpaceDot(d: string, c: string, s: string, nfc: string -> string)
    requires d == "con" && c == "con ." && s == "con .\U{00A0}" && nfc(s) == s
    ensures Cleaned(s, nfc) == c && !Reserved(c)
    ensures Sanitized(s, nfc) == d && Reserved(d)
  {
    ConIsReserved(d);
    ConSpaceIsNot(c);
    BytesLength(c);
    var tail: string := [' ', '.'];
    assert c == d + tail && s == c + ['\U{00A0}'];
    TrailingDotExposesDevice(d, tail, '\U{00A0}', c, s, nfc);
  }

  lemma {:induction false} ConIsReserved(d: string)
    requires d == "con"
    ensures Reserved(d)
  {
    NoDots(d);
    assert LowerAll(d) == d;
  }

  lemma {:induction false} ConSpaceIsNot(c: string)
    requires c == "con ."
    ensures !Reserved(c)
  {
    var stem := DeviceStem(c);
    assert c[4] == '.' && c[0] == 'c' && c[1] == 'o' && c[2] == 'n' && c[3] == ' ';
    assert FirstDot(c) == 4;
    assert stem == c[..4] && stem[3] == ' ';
    assert LowerAll(stem)[3] == ' ' && |LowerAll(stem)| == 4;
  }

  lemma {:induction false} DotHidesDevice(d: string, dotted: string, r: string)
    requires EdgeFree(d) && dotted == "." + d && |Bytes(dotted)| <= MAX_NAME_BYTES && r == Finish(dotted)
    requires Reserved(d)
    ensures r == d
  {
    LoweredDevice(DeviceStem(d));
    assert LowerAll(dotted)[0] == '.';
    if IsDevice(LowerAll(dotted)) {
      LoweredDevice(dotted);
    }
    assert DeviceStem(dotted) == dotted;
    var safe, t := FinishCases(dotted, r);
    ClampNothing(dotted);
    TrimOne(dotted, d, x => SpaceOrDot(x));
  }

  lemma {:induction false} TrimOne(s: string, rest: string, cut: char -> bool)
    requires s != "" && s[1..] == rest && rest != "" && cut(s[0]) && !cut(rest[0]) && !cut(rest[|rest|-1])
    ensures Trim(s, cut) == rest
  {
    assert TrimLeft(s, cut) == TrimLeft(rest, cut) == rest;
  }
}
