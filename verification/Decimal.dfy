// Decimal numbers: strconv.Itoa and Atoi, and the hand-written pair itoa64
// and parseUnix that stores the scratch document's timestamp.
module Decimal {
  import opened Common

  const INT64_LIMIT := 0x8000_0000_0000_0000

  // Two's-complement wrap-around of int64 arithmetic.
  function Wrap64(n: int): int {
    (n + INT64_LIMIT) % (2 * INT64_LIMIT) - INT64_LIMIT
  }

  function Digit(d: nat): char
    requires d < 10
  {
    "0123456789"[d]
  }

  predicate IsDigit(c: char) {
    '0' <= c <= '9'
  }

  function Value(c: char): nat
    requires IsDigit(c)
  {
    c as int - '0' as int
  }

  function Itoa(n: nat): string {
    if n < 10 then [Digit(n)] else Itoa(n / 10) + [Digit(n % 10)]
  }

  predicate AllDigits(s: string) {
    forall i | 0 <= i < |s| :: IsDigit(s[i])
  }

  function Number(s: string): nat
    requires AllDigits(s)
  {
    if s == [] then 0 else Number(s[..|s|-1]) * 10 + Value(s[|s|-1])
  }

  lemma {:induction false} NumberSnoc(s: string, d: nat)
    requires AllDigits(s) && d < 10
    ensures AllDigits(s + [Digit(d)]) && Number(s + [Digit(d)]) == Number(s) * 10 + d
  {
    assert (s + [Digit(d)])[..|s|] == s;
  }

  lemma {:induction false} ItoaReadsBack(n: nat)
    ensures |Itoa(n)| >= 1 && AllDigits(Itoa(n)) && Number(Itoa(n)) == n
  {
    if n >= 10 {
      ItoaReadsBack(n / 10);
      NumberSnoc(Itoa(n / 10), n % 10);
    } else {
      NumberSnoc([], n);
    }
  }

  lemma {:induction false} ItoaInjective(a: nat, b: nat)
    requires Itoa(a) == Itoa(b)
    ensures a == b
  {
    ItoaReadsBack(a);
    ItoaReadsBack(b);
  }

  // An optional sign, then digits, within the range of an int.
  function Atoi(s: string): Option<int> {
    var signed := s != "" && (s[0] == '+' || s[0] == '-');
    var digits := if signed then s[1..] else s;
    if digits == "" || !AllDigits(digits) then None
    else
      var abs: int := Number(digits);
      var n := if signed && s[0] == '-' then -abs else abs;
      if -INT64_LIMIT <= n < INT64_LIMIT then Some(n) else None
  }

  lemma {:induction false} AtoiOfItoa(n: nat)
    requires n < INT64_LIMIT
    ensures Atoi(Itoa(n)) == Some(n)
  {
    ItoaReadsBack(n);
    assert IsDigit(Itoa(n)[0]);
  }

  // %d
  function ShowInt(n: int): string {
    if n < 0 then "-" + Itoa(-n) else Itoa(n)
  }

  lemma {:induction false} ShowIntShape(n: int)
    ensures ShowInt(n) != ""
    ensures n < 0 ==> ShowInt(n)[0] == '-' && ShowInt(n)[1..] == Itoa(-n)
    ensures n >= 0 ==> ShowInt(n) == Itoa(n) && IsDigit(ShowInt(n)[0])
    ensures forall i | 0 <= i < |ShowInt(n)| :: ShowInt(n)[i] == '-' || IsDigit(ShowInt(n)[i])
  {
    ItoaReadsBack(if n < 0 then -n else n);
  }

  lemma {:induction false} ShowIntInjective(a: int, b: int)
    requires ShowInt(a) == ShowInt(b)
    ensures a == b
  {
    ShowIntShape(a);
    ShowIntShape(b);
    if a < 0 {
      ItoaInjective(-a, -b);
    } else {
      ItoaInjective(a, b);
    }
  }

  // ---------------------------------------------------------------------------
  // itoa64 and parseUnix
  // ---------------------------------------------------------------------------

  lemma {:induction false} ItoaLength(n: nat, k: nat)
    requires n < Pow10(k) && k >= 1
    ensures |Itoa(n)| <= k
  {
    if n >= 10 {
      ItoaLength(n / 10, k - 1);
    }
  }

  function Pow10(k: nat): nat {
    if k == 0 then 1 else 10 * Pow10(k - 1)
  }

  // A negative number leaves the buffer untouched and gives the empty string.
  function Shown64(n: int): string {
    if n < 0 then "" else Itoa(n)
  }

  // The digits are written backwards into a buffer of twenty bytes, which a
  // 63-bit number cannot outrun.
  method Itoa64(n: int) returns (s: string)
    requires -INT64_LIMIT <= n < INT64_LIMIT
    ensures s == Shown64(n)
    ensures |s| <= 19
  {
    if n >= 0 { Below63Bits(n); }
    if n == 0 {
      return "0";
    }
    var b := new char[20](_ => '\0');
    var i := b.Length;
    var rest := n;
    while rest > 0
      invariant 0 <= i <= b.Length && b.Length == 20
      invariant n < 0 ==> rest == n && i == 20
      invariant n > 0 ==> rest >= 0
      invariant n > 0 ==> Itoa(n) == (if rest == 0 then "" else Itoa(rest)) + b[i..]
    {
      if rest >= 10 {
        ItoaReadsBack(rest / 10);
      }
      ghost var tail := b[i..];
      assert |Itoa(n)| == |Itoa(rest)| + |tail|;
      ItoaReadsBack(rest);
      i := i - 1;
      b[i] := Digit(rest % 10);
      assert b[i..] == [Digit(rest % 10)] + tail;
      rest := rest / 10;
    }
    s := b[i..];
  }

  lemma Below63Bits(n: nat)
    requires n < INT64_LIMIT
    ensures |Itoa(n)| <= 19
  {
    assert Pow10(4) == 10_000;
    assert Pow10(8) == 10_000 * Pow10(4);
    assert Pow10(12) == 10_000 * Pow10(8);
    assert Pow10(16) == 10_000 * Pow10(12);
    assert Pow10(19) == 1_000 * Pow10(16);
    ItoaLength(n, 19);
  }

  // The longest prefix of digits.
  function LeadingDigits(s: string): (d: string)
    ensures AllDigits(d) && d <= s
    ensures |d| < |s| ==> !IsDigit(s[|d|])
  {
    if s == "" || !IsDigit(s[0]) then "" else [s[0]] + LeadingDigits(s[1..])
  }

  // parseUnix stops at the first byte that is not a digit, with no error.
  function Wrapped(d: string): int
    requires AllDigits(d)
  {
    if d == [] then 0 else Wrap64(Wrap64(Wrapped(d[..|d|-1]) * 10) + Value(d[|d|-1]))
  }

  method ParseUnix(s: string) returns (n: int)
    ensures n == Wrapped(LeadingDigits(s))
  {
    n := 0;
    var i := 0;
    assert s[..0] == "";
    while i < |s|
      invariant 0 <= i <= |s|
      invariant AllDigits(s[..i]) && n == Wrapped(s[..i])
    {
      if s[i] < '0' || s[i] > '9' {
        LeadingIs(s, i);
        return;
      }
      assert s[..i+1][..i] == s[..i];
      n := Wrap64(Wrap64(n * 10) + Value(s[i]));
      i := i + 1;
    }
    assert s[..i] == s;
    LeadingIs(s, i);
  }

  lemma {:induction false} LeadingIs(s: string, i: nat)
    requires i <= |s| && AllDigits(s[..i]) && (i < |s| ==> !IsDigit(s[i]))
    ensures LeadingDigits(s) == s[..i]
  {
    if i > 0 {
      assert s[..i][0] == s[0] && s[1..][..i - 1] == s[..i][1..];
      LeadingIs(s[1..], i - 1);
    }
  }

  lemma WrapInRange(n: int)
    requires 0 <= n < INT64_LIMIT
    ensures Wrap64(n) == n
  {
  }

  // A 64-bit sum of two sizes stays within a limit when it does, and also
  // when it wraps.
  lemma SumWithinIff(a: nat, b: nat, limit: nat)
    requires a < INT64_LIMIT && b < INT64_LIMIT && limit < INT64_LIMIT
    ensures Wrap64(a + b) <= limit <==> a + b <= limit || a + b >= INT64_LIMIT
  {
  }

  lemma {:induction false} NoWrap(d: string)
    requires AllDigits(d) && Number(d) < INT64_LIMIT
    ensures Wrapped(d) == Number(d)
  {
    if d != [] {
      var front := d[..|d|-1];
      NoWrap(front);
      WrapInRange(Number(front) * 10);
      WrapInRange(Number(d));
    }
  }

  // A timestamp survives being stored exactly when it is not negative.
  lemma {:induction false} TimestampRoundTrip(n: int)
    requires -INT64_LIMIT <= n < INT64_LIMIT
    ensures Wrapped(LeadingDigits(Shown64(n))) == n <==> n >= 0
  {
    if n >= 0 {
      ItoaReadsBack(n);
      LeadingIs(Itoa(n), |Itoa(n)|);
      assert Itoa(n)[..|Itoa(n)|] == Itoa(n);
      NoWrap(Itoa(n));
    }
  }
}
