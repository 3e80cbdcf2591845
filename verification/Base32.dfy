// Numbers in base 32, over any alphabet whose digits are in byte order.
module Base32 {
  import Text

  predicate Alphabet(abc: string) {
    && |abc| == 32
    && (forall i, j | 0 <= i < j < 32 :: abc[i] < abc[j])
  }

  predicate Written(s: string, abc: string) {
    forall i | 0 <= i < |s| :: s[i] in abc
  }

  function DigitOf(c: char, abc: string): (d: nat)
    requires c in abc
    ensures d < |abc| && abc[d] == c
  {
    if abc[0] == c then 0 else 1 + DigitOf(c, abc[1..])
  }

  // The number a string of digits stands for, most significant first.
  function Decode(s: string, abc: string): nat
    requires Written(s, abc)
  {
    if s == "" then 0 else Decode(s[..|s|-1], abc) * 32 + DigitOf(s[|s|-1], abc)
  }

  function Pow32(k: nat): (p: nat)
    ensures p >= 1
  {
    if k == 0 then 1 else 32 * Pow32(k - 1)
  }

  // The last k base-32 digits of n.
  function Digits(n: nat, k: nat, abc: string): (s: string)
    requires |abc| == 32
    ensures |s| == k
  {
    if k == 0 then "" else Digits(n / 32, k - 1, abc) + [abc[n % 32]]
  }

  lemma DigitIsUnique(d: nat, c: char, abc: string)
    requires Alphabet(abc) && d < 32 && abc[d] == c
    ensures c in abc && DigitOf(c, abc) == d
  {
    assert forall i, j | 0 <= i < j < 32 :: abc[i] != abc[j];
  }

  lemma {:induction false} DecodeSnoc(s: string, front: string, last: char, abc: string)
    requires s == front + [last] && Written(front, abc) && last in abc
    ensures Written(s, abc) && Decode(s, abc) == Decode(front, abc) * 32 + DigitOf(last, abc)
  {
    assert s[..|s|-1] == front;
  }

  // The digits of a number read back as the number.
  lemma {:induction false} DigitsDecode(n: nat, k: nat, abc: string)
    requires Alphabet(abc) && n < Pow32(k)
    ensures Written(Digits(n, k, abc), abc) && Decode(Digits(n, k, abc), abc) == n
    decreases k
  {
    if k > 0 {
      DigitsDecode(n / 32, k - 1, abc);
      DigitIsUnique(n % 32, abc[n % 32], abc);
      DecodeSnoc(Digits(n, k, abc), Digits(n / 32, k - 1, abc), abc[n % 32], abc);
    }
  }

  lemma {:induction false} DigitsSnoc(v: nat, i: nat, tail: string, abc: string)
    requires |abc| == 32
    ensures Digits(v, i + 1, abc) + tail == Digits(v / 32, i, abc) + ([abc[v % 32]] + tail)
  {
    assert Digits(v, i + 1, abc) == Digits(v / 32, i, abc) + [abc[v % 32]];
  }

  lemma {:induction false} DecodeBound(s: string, abc: string)
    requires |abc| == 32 && Written(s, abc)
    ensures Decode(s, abc) < Pow32(|s|)
  {
    if s != "" {
      DecodeBound(s[..|s|-1], abc);
    }
  }

  // A digit k places up.
  function Placed(d: nat, k: nat): nat
    decreases k
  {
    if k == 0 then d else 32 * Placed(d, k - 1)
  }

  lemma {:induction false} DecodeCons(c: char, s: string, cs: string, abc: string)
    requires c in abc && Written(s, abc) && cs == [c] + s
    ensures Written(cs, abc) && Decode(cs, abc) == Placed(DigitOf(c, abc), |s|) + Decode(s, abc)
    decreases |s|
  {
    if s == "" {
      DecodeSnoc(cs, "", c, abc);
    } else {
      var front := s[..|s|-1];
      DecodeCons(c, front, [c] + front, abc);
      DecodeSnoc(cs, [c] + front, s[|s|-1], abc);
      DecodeSnoc(s, front, s[|s|-1], abc);
    }
  }

  lemma {:induction false} PlacedGap(d: nat, e: nat, k: nat)
    requires d < e
    ensures Placed(d, k) + Pow32(k) <= Placed(e, k)
    decreases k
  {
    if k > 0 {
      PlacedGap(d, e, k - 1);
    }
  }

  // Strings of the same length compare byte by byte as the numbers they stand
  // for compare.
  lemma {:induction false} OrderIsNumeric(a: string, b: string, abc: string)
    requires Alphabet(abc) && |a| == |b| && Written(a, abc) && Written(b, abc)
    ensures Text.Less(a, b) <==> Decode(a, abc) < Decode(b, abc)
    decreases |a|
  {
    if a != "" {
      var ta, tb := a[1..], b[1..];
      assert a == [a[0]] + ta && b == [b[0]] + tb;
      DecodeCons(a[0], ta, a, abc);
      DecodeCons(b[0], tb, b, abc);
      DecodeBound(ta, abc);
      DecodeBound(tb, abc);
      OrderIsNumeric(ta, tb, abc);
      var d, e := DigitOf(a[0], abc), DigitOf(b[0], abc);
      if d < e {
        PlacedGap(d, e, |ta|);
      } else if e < d {
        PlacedGap(e, d, |ta|);
      }
    }
  }

  lemma {:induction false} DecodeInjective(a: string, b: string, abc: string)
    requires Alphabet(abc) && |a| == |b| && Written(a, abc) && Written(b, abc)
    requires Decode(a, abc) == Decode(b, abc)
    ensures a == b
  {
    OrderIsNumeric(a, b, abc);
    OrderIsNumeric(b, a, abc);
    Text.LessTotal(a, b);
  }

  // A number below m * 32^k leads with a digit below m.
  lemma {:induction false} LeadingDigit(s: string, k: nat, m: nat, abc: string)
    requires |abc| == 32 && Written(s, abc) && |s| == k + 1 && Decode(s, abc) < Placed(m, k)
    ensures DigitOf(s[0], abc) < m
  {
    assert s == [s[0]] + s[1..];
    DecodeCons(s[0], s[1..], s, abc);
    if m < DigitOf(s[0], abc) {
      PlacedGap(m, DigitOf(s[0], abc), k);
    }
  }

  lemma {:induction false} LeadsBelow(n: nat, k: nat, m: nat, abc: string)
    requires Alphabet(abc) && m < 32 && n < Placed(m, k) && n < Pow32(k + 1)
    ensures var s := Digits(n, k + 1, abc);
            Written(s, abc) && Decode(s, abc) == n && s[0] < abc[m]
  {
    var s := Digits(n, k + 1, abc);
    DigitsDecode(n, k + 1, abc);
    LeadingDigit(s, k, m, abc);
  }
}
