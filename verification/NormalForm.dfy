// What normalisation to NFC leaves of a sanitised name.  SanitizeFilename
// normalises first and drops characters afterwards, so what it joins may
// compose again.
module NormalForm {
  import opened Common
  import opened Text
  import opened Filename

  predicate Normal(nfc: string -> string, s: string) {
    nfc(s) == s
  }

  // The characters SanitizeFilename drops rather than replaces.
  predicate Dropped(c: char) {
    IsControl(c) || (!Forbidden(c) && Invisible(c))
  }

  predicate NothingDropped(s: string) {
    forall i | 0 <= i < |s| :: !Dropped(s[i])
  }

  // Characters that never compose with a neighbour: of those at issue here the
  // underscore, the dot, and white space that is normal by itself.
  predicate Inert(nfc: string -> string, c: char) {
    c == '_' || SpaceOrDot(c) || (IsSpace(c) && !IsControl(c) && Normal(nfc, [c]))
  }

  // ---------------------------------------------------------------------------
  // What is used of the Unicode Normalization Forms (UAX #15)
  // ---------------------------------------------------------------------------

  // Any part of a normal text is normal.
  predicate PartIsNormal(nfc: string -> string, a: string, b: string, c: string) {
    Normal(nfc, a + b + c) ==> Normal(nfc, b)
  }

  // Normal texts joined by an inert character are normal.
  predicate JoinIsNormal(nfc: string -> string, a: string, x: char, b: string) {
    Normal(nfc, a) && Inert(nfc, x) && Normal(nfc, b) ==> Normal(nfc, a + [x] + b)
  }

  // The result is normal, ASCII is normal, and no character arises that is
  // dropped here.
  predicate ResultIsNormal(nfc: string -> string, s: string) {
    && Normal(nfc, nfc(s))
    && (Ascii(s) ==> Normal(nfc, s))
    && (NothingDropped(s) ==> NothingDropped(nfc(s)))
  }

  ghost predicate Normaliser(nfc: string -> string) {
    && (forall a, b, c :: PartIsNormal(nfc, a, b, c))
    && (forall a, x, b :: JoinIsNormal(nfc, a, x, b))
    && (forall s :: ResultIsNormal(nfc, s))
  }

  lemma {:induction false} Part(nfc: string -> string, s: string, a: string, b: string, c: string)
    requires Normaliser(nfc) && Normal(nfc, s) && s == a + b + c
    ensures Normal(nfc, b)
  {
    assert PartIsNormal(nfc, a, b, c);
  }

  lemma {:induction false} Joined(nfc: string -> string, s: string, a: string, x: char, b: string)
    requires Normaliser(nfc) && Normal(nfc, a) && Inert(nfc, x) && Normal(nfc, b) && s == a + [x] + b
    ensures Normal(nfc, s)
  {
    assert JoinIsNormal(nfc, a, x, b);
  }

  lemma {:induction false} AsciiIsNormal(nfc: string -> string, s: string)
    requires Normaliser(nfc) && Ascii(s)
    ensures Normal(nfc, s)
  {
    assert ResultIsNormal(nfc, s);
  }

  // ---------------------------------------------------------------------------
  // Inert ends
  // ---------------------------------------------------------------------------

  lemma {:induction false} InertFront(nfc: string -> string, front: string, s: string)
    requires Normaliser(nfc) && Normal(nfc, s) && forall i | 0 <= i < |front| :: Inert(nfc, front[i])
    ensures Normal(nfc, front + s)
    decreases |front|
  {
    if front == "" {
      assert front + s == s;
    } else {
      InertFront(nfc, front[1..], s);
      AsciiIsNormal(nfc, "");
      assert front + s == "" + [front[0]] + (front[1..] + s);
      Joined(nfc, front + s, "", front[0], front[1..] + s);
    }
  }

  lemma {:induction false} InertBack(nfc: string -> string, s: string, back: string)
    requires Normaliser(nfc) && Normal(nfc, s) && forall i | 0 <= i < |back| :: Inert(nfc, back[i])
    ensures Normal(nfc, s + back)
    decreases |back|
  {
    if back == "" {
      assert s + back == s;
    } else {
      var rest := back[..|back|-1];
      InertBack(nfc, s, rest);
      AsciiIsNormal(nfc, "");
      assert s + back == (s + rest) + [back[|back|-1]] + "";
      Joined(nfc, s + back, s + rest, back[|back|-1], "");
    }
  }

  // Cutting inert characters off the ends neither breaks nor mends a text.
  lemma {:induction false} TrimmedNormalIff(nfc: string -> string, s: string, cut: char -> bool, r: string)
    requires Normaliser(nfc) && r == Trim(s, cut) && forall i | 0 <= i < |s| && cut(s[i]) :: Inert(nfc, s[i])
    ensures Normal(nfc, r) <==> Normal(nfc, s)
  {
    var front, back := TrimIsAMiddle(s, cut, r);
    if Normal(nfc, s) {
      Part(nfc, s, front, r, back);
    }
    if Normal(nfc, r) {
      EndsAreInert(nfc, s, cut, front, r, back);
      InertFront(nfc, front, r);
      InertBack(nfc, front + r, back);
    }
  }

  lemma {:induction false} EndsAreInert(nfc: string -> string, s: string, cut: char -> bool, front: string, r: string,
                                        back: string)
    requires s == front + r + back && (forall i | 0 <= i < |s| && cut(s[i]) :: Inert(nfc, s[i]))
    requires (forall i | 0 <= i < |front| :: cut(front[i])) && forall i | 0 <= i < |back| :: cut(back[i])
    ensures forall i | 0 <= i < |front| :: Inert(nfc, front[i])
    ensures forall i | 0 <= i < |back| :: Inert(nfc, back[i])
  {
    assert forall i | 0 <= i < |front| :: s[i] == front[i];
    assert forall i | 0 <= i < |back| :: s[|front + r| + i] == back[i];
  }

  // ---------------------------------------------------------------------------
  // The steps of SanitizeFilename
  // ---------------------------------------------------------------------------

  // Replacing characters never breaks a text; only dropping one can.
  lemma {:induction false} ReplacingKeepsNormal(nfc: string -> string, m: string)
    requires Normaliser(nfc) && Normal(nfc, m) && NothingDropped(m)
    ensures Normal(nfc, CleanChars(m))
    decreases |m|
  {
    if i :| 0 <= i < |m| && Forbidden(m[i]) {
      var left, right := m[..i], m[i + 1..];
      assert m == left + [m[i]] + right;
      assert m == "" + left + ([m[i]] + right) && m == (left + [m[i]]) + right + "";
      Part(nfc, m, "", left, [m[i]] + right);
      Part(nfc, m, left + [m[i]], right, "");
      ReplacingKeepsNormal(nfc, left);
      ReplacingKeepsNormal(nfc, right);
      CleanSplit(left, m[i], right, m);
      Joined(nfc, CleanChars(m), CleanChars(left), '_', CleanChars(right));
    } else {
      UsableIsUnchanged(m);
    }
  }

  lemma {:induction false} CleanConcat(a: string, b: string, whole: string)
    requires whole == a + b
    ensures CleanChars(whole) == CleanChars(a) + CleanChars(b)
    decreases |b|
  {
    if b == "" {
      assert whole == a;
    } else {
      var front, c := b[..|b|-1], b[|b|-1];
      assert whole[..|whole|-1] == a + front && whole[|whole|-1] == c;
      CleanConcat(a, front, a + front);
      Regrouped(CleanChars(a), CleanChars(front), CleanChar(c));
    }
  }

  lemma {:induction false} CleanSplit(left: string, x: char, right: string, m: string)
    requires m == left + [x] + right && Forbidden(x) && !IsControl(x)
    ensures CleanChars(m) == CleanChars(left) + ['_'] + CleanChars(right)
  {
    CleanConcat(left + [x], right, m);
    CleanConcat(left, [x], left + [x]);
    assert [x][..0] == "";
    assert CleanChars([x]) == CleanChars("") + "_";
  }

  // A cut keeps a prefix of the stem and, from a dot on, an extension.
  lemma {:induction false} ClampKeepsNormal(nfc: string -> string, s: string, r: string)
    requires Normaliser(nfc) && Normal(nfc, s) && r == Clamped(s, MAX_NAME_BYTES)
    ensures Normal(nfc, r)
  {
    if |Bytes(s)| <= MAX_NAME_BYTES {
      ClampNothing(s);
    } else {
      var stem, p, e := LongClamp(s, r);
      PiecesAreNormal(nfc, s, stem, p, e, r);
    }
  }

  lemma {:induction false} PiecesAreNormal(nfc: string -> string, s: string, stem: string, p: string, e: string,
                                           r: string)
    requires Normaliser(nfc) && Normal(nfc, s) && s == stem + e && p <= stem && r == p + e
    requires e == "" || e[0] == '.'
    ensures Normal(nfc, r)
  {
    assert s == "" + p + s[|p|..];
    Part(nfc, s, "", p, s[|p|..]);
    if e == "" {
      assert r == p;
    } else {
      assert s == (stem + [e[0]]) + e[1..] + "";
      Part(nfc, s, stem + [e[0]], e[1..], "");
      assert r == p + [e[0]] + e[1..];
      Joined(nfc, r, p, e[0], e[1..]);
    }
  }

  // What the clamp is given: the cleaned name, behind an underscore when it is
  // a device name.
  function Guarded(c: string): string {
    if Reserved(c) then "_" + c else c
  }

  lemma {:induction false} GuardedNormalIff(nfc: string -> string, c: string)
    requires Normaliser(nfc)
    ensures Normal(nfc, Guarded(c)) <==> Normal(nfc, c)
  {
    assert ("_" + c) == "_" + c + "";
    if Normal(nfc, c) {
      InertFront(nfc, "_", c);
    }
    if Normal(nfc, "_" + c) {
      Part(nfc, "_" + c, "_", c, "");
    }
  }

  lemma {:induction false} FinishNormalIff(nfc: string -> string, c: string, r: string)
    requires Normaliser(nfc) && r == Finish(c)
    ensures Normal(nfc, r) <==> Normal(nfc, Clamped(Guarded(c), MAX_NAME_BYTES))
    ensures Normal(nfc, c) ==> Normal(nfc, r)
    ensures |Bytes(Guarded(c))| <= MAX_NAME_BYTES ==> (Normal(nfc, r) <==> Normal(nfc, c))
  {
    var g := Guarded(c);
    var k := Clamped(g, MAX_NAME_BYTES);
    GuardedNormalIff(nfc, c);
    FinishedNormalIff(nfc, c, k, r);
    if Normal(nfc, g) {
      ClampKeepsNormal(nfc, g, k);
    }
    if |Bytes(g)| <= MAX_NAME_BYTES {
      ClampNothing(g);
    }
  }

  lemma {:induction false} FinishForm(c: string, r: string) returns (k: string, t: string)
    requires r == Finish(c)
    ensures k == Clamped(Guarded(c), MAX_NAME_BYTES) && t == TrimDots(k)
    ensures r == if IsDots(c) || t == "" then "file" else t
  {
    var safe;
    safe, t := FinishCases(c, r);
    k := Clamped(safe, MAX_NAME_BYTES);
    DotsAre(c);
  }

  lemma {:induction false} FinishedNormalIff(nfc: string -> string, c: string, k: string, r: string)
    requires Normaliser(nfc) && r == Finish(c) && k == Clamped(Guarded(c), MAX_NAME_BYTES)
    ensures Normal(nfc, r) <==> Normal(nfc, k)
  {
    var k', t := FinishForm(c, r);
    TrimmedNormalIff(nfc, k, x => SpaceOrDot(x), t);
    FileIsNormal(nfc);
    if IsDots(c) {
      DotsAreNormal(nfc, c, k);
    }
  }

  lemma {:induction false} FileIsNormal(nfc: string -> string)
    requires Normaliser(nfc)
    ensures Normal(nfc, "") && Normal(nfc, "file")
  {
    AsciiIsNormal(nfc, "");
    AsciiIsNormal(nfc, "file");
  }

  lemma {:induction false} DotsAreNormal(nfc: string -> string, c: string, k: string)
    requires Normaliser(nfc) && IsDots(c) && k == Clamped(Guarded(c), MAX_NAME_BYTES)
    ensures Normal(nfc, k)
  {
    OnlyDots(c);
    ClampNothing(c);
    AsciiIsNormal(nfc, c);
  }

  lemma {:induction false} CleanCharsFrom(m: string)
    ensures forall c | c in CleanChars(m) :: c == '_' || c in m
    ensures forall c | c in CleanChars(m) :: !IsControl(c)
  {
    if m != "" {
      CleanCharsFrom(m[..|m|-1]);
    }
  }

  lemma {:induction false} OneCharacter(nfc: string -> string, m: string, c: char)
    requires Normaliser(nfc) && Normal(nfc, m) && c in m
    ensures Normal(nfc, [c])
  {
    var i :| 0 <= i < |m| && m[i] == c;
    assert m == m[..i] + [c] + m[i + 1..];
    Part(nfc, m, m[..i], [c], m[i + 1..]);
  }

  // Trimming dots and spaces of every kind neither breaks nor mends what the
  // replacements left.
  lemma {:induction false} CleanedNormalIff(nfc: string -> string, m: string, k: string, c: string)
    requires Normaliser(nfc) && Normal(nfc, m) && k == CleanChars(m) && c == TrimSpace(TrimDots(k))
    ensures Normal(nfc, c) <==> Normal(nfc, k)
  {
    var d := TrimDots(k);
    TrimmedNormalIff(nfc, k, x => SpaceOrDot(x), d);
    TrimmedFrom(m, k, d);
    SpacesAreInert(nfc, m, d);
    TrimmedNormalIff(nfc, d, x => IsSpace(x), c);
  }

  lemma {:induction false} TrimmedFrom(m: string, k: string, d: string)
    requires k == CleanChars(m) && d == TrimDots(k)
    ensures forall c | c in d :: !IsControl(c) && (c == '_' || c in m)
  {
    var front, back := TrimIsAMiddle(k, x => SpaceOrDot(x), d);
    CleanCharsFrom(m);
  }

  lemma {:induction false} SpacesAreInert(nfc: string -> string, m: string, d: string)
    requires Normaliser(nfc) && Normal(nfc, m) && forall c | c in d :: !IsControl(c) && (c == '_' || c in m)
    ensures forall i | 0 <= i < |d| && IsSpace(d[i]) :: Inert(nfc, d[i])
  {
    forall i | 0 <= i < |d| && IsSpace(d[i])
      ensures Inert(nfc, d[i])
    {
      assert d[i] in d;
      SpaceIsInert(nfc, m, d[i]);
    }
  }

  lemma {:induction false} SpaceIsInert(nfc: string -> string, m: string, c: char)
    requires Normaliser(nfc) && Normal(nfc, m) && IsSpace(c) && !IsControl(c) && c in m
    ensures Inert(nfc, c)
  {
    OneCharacter(nfc, m, c);
  }

  // ---------------------------------------------------------------------------
  // When a sanitised name is normal
  // ---------------------------------------------------------------------------

  // Exactly when what the clamp keeps is normal; for a name with no need of
  // the clamp, exactly when dropping characters has left it normal.
  lemma {:induction false} SanitizedNormalIff(name: string, nfc: string -> string)
    requires Normaliser(nfc)
    ensures var k, c := CleanChars(nfc(LastComponent(name))), Cleaned(name, nfc);
            && (Normal(nfc, Sanitized(name, nfc)) <==> Normal(nfc, Clamped(Guarded(c), MAX_NAME_BYTES)))
            && (Normal(nfc, k) ==> Normal(nfc, Sanitized(name, nfc)))
            && (|Bytes(Guarded(c))| <= MAX_NAME_BYTES ==>
                  (Normal(nfc, Sanitized(name, nfc)) <==> Normal(nfc, k)))
  {
    var m := nfc(LastComponent(name));
    assert ResultIsNormal(nfc, LastComponent(name));
    CleanedNormalIff(nfc, m, CleanChars(m), Cleaned(name, nfc));
    FinishNormalIff(nfc, Cleaned(name, nfc), Sanitized(name, nfc));
  }

  // A name with no control or invisible character in its last component comes
  // out normal.
  lemma {:induction false} NothingDroppedIsNormal(name: string, nfc: string -> string)
    requires Normaliser(nfc) && NothingDropped(LastComponent(name))
    ensures Normal(nfc, Sanitized(name, nfc))
  {
    assert ResultIsNormal(nfc, LastComponent(name));
    ReplacingKeepsNormal(nfc, nfc(LastComponent(name)));
    SanitizedNormalIff(name, nfc);
  }

  // ---------------------------------------------------------------------------
  // When sanitising again changes nothing
  // ---------------------------------------------------------------------------

  lemma {:induction false} IdempotentIff(r: string, nfc: string -> string)
    requires Normaliser(nfc) && Safe(r)
    ensures Sanitized(r, nfc) == r <==>
            Normal(nfc, r) && !Reserved(r) && !IsSpace(r[0]) && !IsSpace(r[|r|-1])
  {
    if Normal(nfc, r) {
      FixedPointIff(r, nfc);
    } else {
      UsableIsUnchanged(r);
      assert forall i | 0 <= i < |r| :: Usable(r[i]);
      NothingDroppedIsNormal(r, nfc);
    }
  }

  lemma {:induction false} SanitizedTwiceIff(name: string, nfc: string -> string)
    requires Normaliser(nfc)
    ensures var r := Sanitized(name, nfc);
            && Safe(r)
            && (Sanitized(r, nfc) == r <==>
                  Normal(nfc, r) && !Reserved(r) && !IsSpace(r[0]) && !IsSpace(r[|r|-1]))
  {
    SanitizedIsSafe(name, nfc);
    IdempotentIff(Sanitized(name, nfc), nfc);
  }

  // A character that takes part in names without being trimmed.
  predicate Plain(c: char) {
    Usable(c) && !SpaceOrDot(c) && !IsSpace(c)
  }

  // A dropped character between two that compose: dropping it joins them, and
  // the next pass composes them.
  lemma {:induction false} DroppedInside(a: char, x: char, y: char, s: string, t: string, u: string,
                                         nfc: string -> string)
    requires Plain(a) && Dropped(x) && Plain(y) && s == [a] + [x] + [y] && t == [a] + [y]
    requires |u| == 1 && Plain(u[0]) && Normal(nfc, s) && nfc(t) == u
    ensures Sanitized(s, nfc) == t && !Normal(nfc, t) && Safe(t) && !Reserved(t)
    ensures Sanitized(t, nfc) == u != t
  {
    FirstPass(a, x, y, s, t, nfc);
    SecondPass(t, u, nfc);
  }

  lemma {:induction false} FirstPass(a: char, x: char, y: char, s: string, t: string, nfc: string -> string)
    requires Plain(a) && Dropped(x) && Plain(y) && s == [a] + [x] + [y] && t == [a] + [y] && Normal(nfc, s)
    ensures Sanitized(s, nfc) == t && Safe(t) && !Reserved(t) && |t| == 2
  {
    TwoAround(a, x, y, s, t);
    Passes(s, s, t, nfc);
  }

  lemma {:induction false} TwoAround(a: char, x: char, y: char, s: string, t: string)
    requires Usable(a) && Dropped(x) && Usable(y) && s == [a] + [x] + [y] && t == [a] + [y]
    ensures LastComponent(s) == s && CleanChars(s) == t
  {
    NoSeparator(s);
    CleanDrops([a], x, y, s, t);
  }

  lemma {:induction false} SecondPass(t: string, u: string, nfc: string -> string)
    requires Safe(t) && |t| == 2 && |u| == 1 && Plain(u[0]) && nfc(t) == u
    ensures Sanitized(t, nfc) == u != t && !Normal(nfc, t)
  {
    ShortNameIsSafe(u);
    UsableIsUnchanged(t);
    UsableIsUnchanged(u);
    Passes(t, u, u, nfc);
  }

  // One pass over a name that needs no more than its characters looked at.
  lemma {:induction false} Passes(s: string, m: string, t: string, nfc: string -> string)
    requires LastComponent(s) == s && nfc(s) == m && CleanChars(m) == t
    requires 1 <= |t| <= 2 && Plain(t[0]) && Plain(t[|t|-1])
    ensures Sanitized(s, nfc) == t && Safe(t) && !Reserved(t)
  {
    ShortNameStays(t);
  }

  // For instance an e, a zero-width space and a combining acute.
  lemma {:induction false} ZeroWidthSpaceInside(s: string, t: string, u: string, nfc: string -> string)
    requires s == "e\U{200B}\U{0301}" && t == "e\U{0301}" && u == "\U{00E9}"
    requires Normal(nfc, s) && nfc(t) == u
    ensures Sanitized(s, nfc) == t && !Normal(nfc, t) && Safe(t) && !Reserved(t)
    ensures !IsSpace(t[0]) && !IsSpace(t[|t|-1]) && Sanitized(t, nfc) == u != t
  {
    DroppedInside('e', '\U{200B}', '\U{0301}', s, t, u, nfc);
  }

  lemma {:induction false} NoSeparator(s: string)
    requires forall i | 0 <= i < |s| :: s[i] != '/' && s[i] != '\\'
    ensures LastComponent(s) == s
  {
    if s != "" {
      NoSeparator(s[..|s|-1]);
    }
  }

  lemma {:induction false} CleanDrops(a: string, x: char, y: char, s: string, t: string)
    requires AllUsable(a) && Dropped(x) && Usable(y) && s == a + [x] + [y] && t == a + [y]
    ensures CleanChars(s) == t
  {
    CleanConcat(a + [x], [y], s);
    CleanConcat(a, [x], a + [x]);
    UsableIsUnchanged(a);
    assert [x][..0] == "" && [y][..0] == "";
    assert CleanChars([x]) == CleanChars("") + "" && CleanChars([y]) == CleanChars("") + [y];
  }

  // One or two characters that need nothing done.
  lemma {:induction false} ShortNameStays(t: string)
    requires 1 <= |t| <= 2 && Plain(t[0]) && Plain(t[|t|-1])
    ensures Safe(t) && !Reserved(t) && Finish(TrimSpace(TrimDots(t))) == t
  {
    ShortNameIsSafe(t);
    TooShortForADevice(t);
    TrimNothing(t, x => SpaceOrDot(x));
    TrimNothing(t, x => IsSpace(x));
    NothingToFinish(t, Finish(t));
  }

  lemma {:induction false} ShortNameIsSafe(t: string)
    requires 1 <= |t| <= 2 && Plain(t[0]) && Plain(t[|t|-1])
    ensures Safe(t)
  {
    BytesLength(t);
    assert forall i | 0 <= i < |t| :: t[i] == t[0] || t[i] == t[|t|-1];
  }
}
