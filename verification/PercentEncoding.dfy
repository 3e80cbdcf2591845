// urlEncode: percent-encoding of a file name for the filename* parameter.
module PercentEncoding {
  import opened Common

  const HEXD := "0123456789ABCDEF"

  // Section 2.3 of RFC 3986.
  predicate Unreserved(c: int) {
    || 'A' as int <= c <= 'Z' as int
    || 'a' as int <= c <= 'z' as int
    || '0' as int <= c <= '9' as int
    || c == '-' as int || c == '.' as int || c == '_' as int || c == '~' as int
  }

  function EncodeByte(c: byte): string {
    if Unreserved(c) then [c as char] else ['%', HEXD[c / 16], HEXD[c % 16]]
  }

  function Encoded(s: seq<byte>): string {
    if s == [] then "" else EncodeByte(s[0]) + Encoded(s[1..])
  }

  lemma {:induction false} EncodedSnoc(s: seq<byte>, c: byte)
    ensures Encoded(s + [c]) == Encoded(s) + EncodeByte(c)
  {
    if s == [] {
      assert [c][1..] == [] && s + [c] == [c];
    } else {
      var longer := s + [c];
      assert longer[0] == s[0] && longer[1..] == s[1..] + [c];
      EncodedSnoc(s[1..], c);
      Regrouped(EncodeByte(s[0]), Encoded(s[1..]), EncodeByte(c));
    }
  }

  method UrlEncode(s: seq<byte>) returns (out: string)
    ensures out == Encoded(s)
    ensures Canonical(out) && Decoded(out) == Some(s)
  {
    out := "";
    var i := 0;
    while i < |s|
      invariant 0 <= i <= |s| && out == Encoded(s[..i])
    {
      var c := s[i];
      EncodedSnoc(s[..i], c);
      assert s[..i + 1] == s[..i] + [c];
      if Unreserved(c) {
        out := out + [c as char];
      } else {
        out := out + ['%'];
        out := out + [HEXD[c / 16]];
        out := out + [HEXD[c % 16]];
      }
      i := i + 1;
    }
    assert s[..i] == s;
    DecodeOfEncode(s);
  }

  // ---------------------------------------------------------------------------
  // Decoding, section 2.1 of RFC 3986
  // ---------------------------------------------------------------------------

  // Hexadecimal digits of either case.
  function HexValue(c: char): Option<nat> {
    if '0' <= c <= '9' then Some(c as int - '0' as int)
    else if 'A' <= c <= 'F' then Some(c as int - 'A' as int + 10)
    else if 'a' <= c <= 'f' then Some(c as int - 'a' as int + 10)
    else None
  }

  predicate Escape(t: string) {
    |t| >= 3 && t[0] == '%' && HexValue(t[1]).Some? && HexValue(t[2]).Some?
  }

  function EscapedByte(t: string): (b: int)
    requires Escape(t)
    ensures 0 <= b < 256
  {
    HexValue(t[1]).value * 16 + HexValue(t[2]).value
  }

  // None when a % is not followed by two hexadecimal digits, or a character is
  // not a byte.
  function Decoded(t: string): Option<seq<byte>> {
    if t == "" then Some([])
    else if t[0] == '%' then
      if !Escape(t) then None
      else
        var rest := Decoded(t[3..]);
        if rest.None? then None else Some([EscapedByte(t) as byte] + rest.value)
    else if t[0] as int >= 256 then None
    else
      var rest := Decoded(t[1..]);
      if rest.None? then None else Some([(t[0] as int) as byte] + rest.value)
  }

  // Only unreserved characters, and %XX in upper case for the other bytes.
  predicate Canonical(t: string) {
    t == "" ||
    (Unreserved(t[0] as int) && Canonical(t[1..])) ||
    (Escape(t) && t[1] in HEXD && t[2] in HEXD && !Unreserved(EscapedByte(t)) && Canonical(t[3..]))
  }

  // A byte stands for itself exactly when it is an ASCII letter, a digit, or
  // one of - . _ ~; any other becomes % and its two digits, high half first.
  lemma EscapedIff(c: byte)
    ensures EncodeByte(c) == [c as char] <==>
            || 0x41 <= c <= 0x5A || 0x61 <= c <= 0x7A || 0x30 <= c <= 0x39
            || c == 0x2D || c == 0x2E || c == 0x5F || c == 0x7E
    ensures EncodeByte(c) != [c as char] ==>
            EncodeByte(c) == ['%', "0123456789ABCDEF"[c / 16], "0123456789ABCDEF"[c % 16]]
  {
  }

  lemma HexDigits(d: nat)
    requires d < 16
    ensures HEXD[d] in HEXD && HexValue(HEXD[d]) == Some(d)
  {
  }

  lemma UpperHex(c: char)
    requires c in HEXD
    ensures HexValue(c).Some? && HexValue(c).value < 16 && HEXD[HexValue(c).value] == c
  {
  }

  // What the encoder writes for one byte decodes to that byte.
  lemma {:induction false} EscapedStep(c: byte, rest: string)
    requires !Unreserved(c)
    ensures var t := EncodeByte(c) + rest;
            t[0] == '%' && Escape(t) && EscapedByte(t) == c && t[1] in HEXD && t[2] in HEXD && t[3..] == rest
  {
    HexDigits(c / 16);
    HexDigits(c % 16);
  }

  lemma {:induction false} PlainStep(c: byte, rest: string)
    requires Unreserved(c)
    ensures var t := EncodeByte(c) + rest;
            t[0] != '%' && t[0] as int == c && t[1..] == rest
  {
  }

  lemma {:induction false} DecodeOfEncode(s: seq<byte>)
    ensures Canonical(Encoded(s)) && Decoded(Encoded(s)) == Some(s)
  {
    if s != [] {
      DecodeOfEncode(s[1..]);
      if Unreserved(s[0]) {
        PlainStep(s[0], Encoded(s[1..]));
      } else {
        EscapedStep(s[0], Encoded(s[1..]));
      }
      assert s == [s[0]] + s[1..];
    }
  }

  lemma {:induction false} CanonicalEscape(t: string)
    requires Escape(t) && t[1] in HEXD && t[2] in HEXD && !Unreserved(EscapedByte(t))
    ensures EncodeByte(EscapedByte(t) as byte) == t[..3]
  {
    UpperHex(t[1]);
    UpperHex(t[2]);
    Nibbles(HexValue(t[1]).value, HexValue(t[2]).value);
    TwoDigits(EscapedByte(t), HexValue(t[1]).value, HexValue(t[2]).value);
    assert t[..3] == ['%', t[1], t[2]];
  }

  lemma Nibbles(h: nat, l: nat)
    requires h < 16 && l < 16
    ensures (h * 16 + l) / 16 == h && (h * 16 + l) % 16 == l
  {
  }

  lemma TwoDigits(c: int, h: nat, l: nat)
    requires 0 <= c < 256 && h < 16 && l < 16 && c / 16 == h && c % 16 == l && !Unreserved(c)
    ensures EncodeByte(c as byte) == ['%', HEXD[h], HEXD[l]]
  {
  }

  lemma {:induction false} EncodedCons(c: byte, s: seq<byte>)
    ensures Encoded([c] + s) == EncodeByte(c) + Encoded(s)
  {
    assert ([c] + s)[1..] == s;
  }

  // The encoder reaches every canonical string, from what it decodes to.
  lemma {:induction false} EncodeOfDecode(t: string)
    requires Canonical(t)
    ensures Decoded(t).Some? && Encoded(Decoded(t).value) == t
  {
    if t != "" {
      if Unreserved(t[0] as int) {
        EncodeOfDecode(t[1..]);
        EncodedCons((t[0] as int) as byte, Decoded(t[1..]).value);
        assert t == [t[0]] + t[1..];
      } else {
        EncodeOfDecode(t[3..]);
        CanonicalEscape(t);
        EncodedCons(EscapedByte(t) as byte, Decoded(t[3..]).value);
        assert t == t[..3] + t[3..];
      }
    }
  }
}
