// The names SanitizeFilename lets through, spelled out character by character
// and device by device.
module Portable {
  import opened Text
  import opened Filename
  import opened NormalForm

  // ---------------------------------------------------------------------------
  // Characters
  // ---------------------------------------------------------------------------

  predicate PlainCharacter(c: char) {
    var n := c as int;
    && 0x20 <= n && !(0x7F <= n <= 0x9F)
    && c != '<' && c != '>' && c != ':' && c != '\"' && c != '/' && c != '\\' && c != '|' && c != '?' && c != '*'
    && !(0x200B <= n <= 0x200F) && !(0x202A <= n <= 0x202E) && !(0x2066 <= n <= 0x2069) && n != 0xFEFF
  }

  predicate IsPortable(r: string) {
    && r != "" && |Bytes(r)| <= 255
    && (forall i | 0 <= i < |r| :: PlainCharacter(r[i]))
    && r[0] != ' ' && r[0] != '.' && r[|r|-1] != ' ' && r[|r|-1] != '.'
  }

  lemma PlainIffUsable(c: char)
    ensures PlainCharacter(c) <==> Usable(c)
  {
  }

  lemma {:induction false} PortableIffSafe(r: string)
    ensures IsPortable(r) <==> Safe(r)
  {
    forall i | 0 <= i < |r|
      ensures PlainCharacter(r[i]) <==> Usable(r[i])
    {
      PlainIffUsable(r[i]);
    }
  }

  // On every input, whatever the normalisation does.
  lemma {:induction false} SanitizedIsPortable(name: string, nfc: string -> string)
    ensures IsPortable(Sanitized(name, nfc))
  {
    SanitizedIsSafe(name, nfc);
    PortableIffSafe(Sanitized(name, nfc));
  }

  // And nothing more is taken away than it has to be.
  lemma {:induction false} PortableIsKept(name: string, nfc: string -> string)
    requires IsPortable(name) && nfc(name) == name && !IsSpace(name[0]) && !IsSpace(name[|name|-1]) && !Reserved(name)
    ensures Sanitized(name, nfc) == name
  {
    PortableIffSafe(name);
    FixedPointIff(name, nfc);
  }

  // A device name gets an underscore in front.
  lemma {:induction false} DeviceGetsUnderscore(name: string, longer: string, nfc: string -> string)
    requires IsPortable(name) && nfc(name) == name && !IsSpace(name[0]) && !IsSpace(name[|name|-1]) && Reserved(name)
    requires longer == "_" + name && |Bytes(longer)| <= 255
    ensures Sanitized(name, nfc) == longer
  {
    PortableIffSafe(name);
    NothingToClean(name, nfc);
    BehindUnderscore(name, longer);
    UnderscoreInFront(name, longer, Finish(name));
  }

  lemma {:induction false} BehindUnderscore(c: string, longer: string)
    requires Reserved(c) && EdgeFree(c) && longer == "_" + c
    ensures longer == Guarded(c) && EdgeFree(longer) && !IsDots(c)
  {
    if IsDots(c) {
      OnlyDots(c);
    }
  }

  lemma {:induction false} UnderscoreInFront(c: string, longer: string, r: string)
    requires longer == Guarded(c) && EdgeFree(longer) && |Bytes(longer)| <= MAX_NAME_BYTES
    requires !IsDots(c) && r == Finish(c)
    ensures r == longer
  {
    var k, t := FinishForm(c, r);
    ClampNothing(longer);
    TrimNothing(longer, x => SpaceOrDot(x));
  }

  // The characters Windows forbids become underscores, in place.
  lemma {:induction false} ReplacedInPlace(m: string)
    requires forall i | 0 <= i < |m| :: PlainCharacter(m[i]) || m[i] in {'<', '>', ':', '\"', '/', '\\', '|', '?', '*'}
    ensures |CleanChars(m)| == |m|
    ensures forall i | 0 <= i < |m| :: CleanChars(m)[i] == if PlainCharacter(m[i]) then m[i] else '_'
  {
    if m != "" {
      ReplacedInPlace(m[..|m|-1]);
      PlainIffUsable(m[|m|-1]);
    }
  }

  // Controls and invisible characters vanish.
  lemma {:induction false} DroppedVanishes(a: string, x: char, b: string)
    requires !PlainCharacter(x) && x !in {'<', '>', ':', '\"', '/', '\\', '|', '?', '*'}
    ensures CleanChars(a + [x] + b) == CleanChars(a) + CleanChars(b)
  {
    OneDropped(a, x, a + [x]);
    CleanConcat(a + [x], b, a + [x] + b);
  }

  lemma {:induction false} OneDropped(a: string, x: char, longer: string)
    requires !PlainCharacter(x) && x !in {'<', '>', ':', '\"', '/', '\\', '|', '?', '*'} && longer == a + [x]
    ensures CleanChars(longer) == CleanChars(a)
  {
    PlainIffUsable(x);
    assert longer[..|longer|-1] == a;
    assert CleanChars(a) + "" == CleanChars(a);
  }

  // ---------------------------------------------------------------------------
  // The last component
  // ---------------------------------------------------------------------------

  // Whatever comes before the last separator of either kind makes no difference.
  lemma {:induction false} OnlyTheLastComponent(dir: string, sep: char, base: string, nfc: string -> string)
    requires (sep == '/' || sep == '\\') && '/' !in base && '\\' !in base
    ensures Sanitized(dir + [sep] + base, nfc) == Sanitized(base, nfc)
  {
    Behind(dir + [sep], base);
    Behind("", base);
    assert "" + base == base;
    assert LastComponent(dir + [sep]) == "";
  }

  lemma {:induction false} Behind(front: string, base: string)
    requires '/' !in base && '\\' !in base
    ensures LastComponent(front + base) == LastComponent(front) + base
    decreases |base|
  {
    if base == "" {
      assert front + base == front;
    } else {
      var shorter := base[..|base|-1];
      assert (front + base)[..|front + base|-1] == front + shorter;
      Behind(front, shorter);
      assert base == shorter + [base[|base|-1]];
    }
  }

  // ---------------------------------------------------------------------------
  // When nothing is left
  // ---------------------------------------------------------------------------

  predicate Trimmed(c: char) {
    c == ' ' || c == '.' || (!PlainCharacter(c) && c !in {'<', '>', ':', '\"', '/', '\\', '|', '?', '*'})
  }

  // A name of nothing but spaces, dots, controls and invisible characters.
  lemma {:induction false} NothingLeftIsFile(name: string, nfc: string -> string)
    requires forall i | 0 <= i < |nfc(LastComponent(name))| :: Trimmed(nfc(LastComponent(name))[i])
    ensures Sanitized(name, nfc) == "file"
  {
    var k := CleanChars(nfc(LastComponent(name)));
    OnlyCutsLeft(nfc(LastComponent(name)));
    AllCutAway(k, c => SpaceOrDot(c));
    AllCutAway("", c => IsSpace(c));
  }

  lemma {:induction false} OnlyCutsLeft(m: string)
    requires forall i | 0 <= i < |m| :: Trimmed(m[i])
    ensures forall i | 0 <= i < |CleanChars(m)| :: SpaceOrDot(CleanChars(m)[i])
  {
    if m != "" {
      OnlyCutsLeft(m[..|m|-1]);
      PlainIffUsable(m[|m|-1]);
    }
  }

  // ---------------------------------------------------------------------------
  // Names that are too long
  // ---------------------------------------------------------------------------

  // What fits: this much of the text before the extension, and no more.
  ghost predicate MostThatFits(stem: string, ext: string, p: string) {
    && p <= stem && |Bytes(p + ext)| <= 255
    && (forall q | p < q <= stem :: |Bytes(q + ext)| > 255)
  }

  // Next to an extension of at most 16 bytes as much of the stem as fits, and
  // of a name with a longer one as much as fits.
  lemma {:induction false} ClampKeepsTheMost(s: string, x: string, r: string) returns (stem: string, p: string)
    requires |Bytes(s)| > MAX_NAME_BYTES && r == Clamped(s, MAX_NAME_BYTES) && x == Ext(s)
    ensures |Bytes(x)| <= 16 ==> s == stem + x && r == p + x && MostThatFits(stem, x, p)
    ensures |Bytes(x)| > 16 ==> stem == s && r == p && MostThatFits(s, "", p)
  {
    var e;
    stem, p, e := LongClamp(s, r);
    KeptTheMost(s, x, r, stem, p, e);
  }

  lemma {:induction false} KeptTheMost(s: string, x: string, r: string, stem: string, p: string, e: string)
    requires s == stem + e && r == p + e && e == KeptExt(x, MAX_NAME_BYTES) && |Bytes(e)| <= 16
    requires p == LongestFit(stem, MAX_NAME_BYTES - |Bytes(e)|)
    ensures |Bytes(x)| <= 16 ==> e == x && MostThatFits(stem, x, p)
    ensures |Bytes(x)| > 16 ==> stem == s && r == p && MostThatFits(s, "", p)
  {
    LongestKept(stem, e, p);
    if |Bytes(x)| > 16 {
      assert stem + "" == stem && p + "" == p;
    }
  }

  lemma {:induction false} LongestKept(stem: string, ext: string, p: string)
    requires |Bytes(ext)| <= 16 && p == LongestFit(stem, MAX_NAME_BYTES - |Bytes(ext)|)
    ensures MostThatFits(stem, ext, p)
  {
    BytesConcat(p, ext);
    forall q | p < q <= stem
      ensures |Bytes(q + ext)| > 255
    {
      assert q == stem[..|q|];
      LongestFitIsLongest(stem, MAX_NAME_BYTES - |Bytes(ext)|, |q|);
      BytesConcat(q, ext);
    }
  }

  // ---------------------------------------------------------------------------
  // Device names
  // ---------------------------------------------------------------------------

  const DEVICES: set<string> := {
    "con", "prn", "aux", "nul",
    "com1", "com2", "com3", "com4", "com5", "com6", "com7", "com8", "com9",
    "lpt1", "lpt2", "lpt3", "lpt4", "lpt5", "lpt6", "lpt7", "lpt8", "lpt9"
  }

  lemma {:induction false} DeviceIsListed(d: string)
    requires IsDevice(d)
    ensures d in DEVICES
  {
    if |d| == 4 {
      assert d == d[..3] + [d[3]];
      NineOfEach(d[3]);
    }
  }

  lemma NineOfEach(c: char)
    requires '1' <= c <= '9'
    ensures "com" + [c] in DEVICES && "lpt" + [c] in DEVICES
  {
    var n := c as int - '0' as int;
    assert c == "0123456789"[n];
    assert "com" + [c] == ["com1", "com2", "com3", "com4", "com5", "com6", "com7", "com8", "com9"][n - 1];
    assert "lpt" + [c] == ["lpt1", "lpt2", "lpt3", "lpt4", "lpt5", "lpt6", "lpt7", "lpt8", "lpt9"][n - 1];
  }

  lemma {:induction false} ListedIsDevice(d: string)
    requires d in DEVICES
    ensures IsDevice(d)
  {
    if |d| == 4 {
      assert d[..3] == "com" || d[..3] == "lpt";
    }
  }

  // Equal to a lower-case word but for the case of ASCII letters.
  predicate Spells(s: string, word: string) {
    && |s| == |word|
    && (forall i | 0 <= i < |s| ::
          s[i] == word[i] || ('A' <= s[i] <= 'Z' && s[i] as int + 32 == word[i] as int))
  }

  ghost predicate SpellsADevice(s: string) {
    exists d :: d in DEVICES && Spells(s, d)
  }

  lemma {:induction false} SpellsIff(s: string, word: string)
    requires forall i | 0 <= i < |word| :: !('A' <= word[i] <= 'Z')
    ensures LowerAll(s) == word <==> Spells(s, word)
  {
    assert |LowerAll(s)| == |s|;
    forall i | 0 <= i < |s| && i < |word|
      ensures LowerAll(s)[i] == word[i] <==>
              s[i] == word[i] || ('A' <= s[i] <= 'Z' && s[i] as int + 32 == word[i] as int)
    {
    }
  }

  lemma DevicesAreLowerCase(d: string)
    requires d in DEVICES
    ensures forall i | 0 <= i < |d| :: !('A' <= d[i] <= 'Z')
  {
  }

  lemma {:induction false} DeviceIffSpelled(s: string)
    ensures IsDevice(LowerAll(s)) <==> SpellsADevice(s)
  {
    if IsDevice(LowerAll(s)) {
      DeviceIsListed(LowerAll(s));
      DevicesAreLowerCase(LowerAll(s));
      SpellsIff(s, LowerAll(s));
    }
    if d :| d in DEVICES && Spells(s, d) {
      DevicesAreLowerCase(d);
      SpellsIff(s, d);
      ListedIsDevice(d);
    }
  }

  // A name is reserved when what comes before its first dot is one of the 22
  // device names in any case, whatever follows the dot; one that begins with a
  // dot never is.
  lemma {:induction false} ReservedIffDevice(stem: string, rest: string)
    requires '.' !in stem
    ensures Reserved(stem) <==> SpellsADevice(stem)
    ensures Reserved(stem + "." + rest) <==> SpellsADevice(stem)
  {
    DeviceIffSpelled(stem);
    NoDots(stem);
    DottedStem(stem, rest, stem + "." + rest);
  }

  lemma {:induction false} DottedStem(stem: string, rest: string, s: string)
    requires '.' !in stem && s == stem + "." + rest
    ensures Reserved(s) <==> IsDevice(LowerAll(stem))
  {
    assert s[|stem|] == '.' && forall i | 0 <= i < |stem| :: s[i] == stem[i];
    assert FirstDot(s) == |stem|;
    if stem == "" {
      LeadingCutIsNotReserved(s);
    } else {
      assert s[..|stem|] == stem;
    }
  }
}
