// Identifiers: NewID lays out a 48-bit timestamp and 80 random bits as a
// 128-bit number, and encodeULID writes that number in Crockford base 32.
module Ulid {
  import opened Common
  import Base32
  import Text

  const CROCKFORD := "0123456789ABCDEFGHJKMNPQRSTVWXYZ"
  const LENGTH := 26
  const TWO48 := 0x1_0000_0000_0000
  const TWO59 := 0x800_0000_0000_0000
  const TWO64 := 0x1_0000_0000_0000_0000

  // ---------------------------------------------------------------------------
  // The machine operations of the loop, on uint64 values
  // ---------------------------------------------------------------------------

  function BitAnd(a: nat, b: nat): nat {
    if a == 0 || b == 0 then 0
    else 2 * BitAnd(a / 2, b / 2) + (if a % 2 == 1 && b % 2 == 1 then 1 else 0)
  }

  function BitOr(a: nat, b: nat): nat
    decreases a + b
  {
    if a == 0 then b else if b == 0 then a
    else 2 * BitOr(a / 2, b / 2) + (if a % 2 == 1 || b % 2 == 1 then 1 else 0)
  }

  function Pow2(k: nat): nat
    ensures Pow2(k) >= 1
  {
    if k == 0 then 1 else 2 * Pow2(k - 1)
  }

  // x >> k
  function Shr(x: nat, k: nat): nat
    decreases k
  {
    if k == 0 then x else Shr(x / 2, k - 1)
  }

  // x << k, keeping 64 bits
  function Shl(x: nat, k: nat): nat {
    (x * Pow2(k)) % TWO64
  }

  lemma {:induction false} AndMask(a: nat, k: nat)
    ensures BitAnd(a, Pow2(k) - 1) == a % Pow2(k)
    decreases k
  {
    if k > 0 {
      AndMask(a / 2, k - 1);
      assert (Pow2(k) - 1) / 2 == Pow2(k - 1) - 1 && (k > 0 ==> (Pow2(k) - 1) % 2 == 1);
      ModTwice(a, Pow2(k - 1));
    }
  }

  lemma ModTwice(a: nat, m: nat)
    requires m > 0
    ensures a % (2 * m) == 2 * ((a / 2) % m) + a % 2
  {
    var q, r := (a / 2) / m, (a / 2) % m;
    assert a / 2 == q * m + r;
    assert a == (2 * m) * q + (2 * r + a % 2);
    DivModUnique(a, 2 * m, q, 2 * r + a % 2);
  }

  lemma DivModUnique(a: int, d: int, q: int, r: int)
    requires d > 0 && a == d * q + r && 0 <= r < d
    ensures a / d == q && a % d == r
  {
    var q', r' := a / d, a % d;
    assert a == d * q' + r';
    if q > q' {
      MulGrows(d, q' + 1, q);
    } else if q < q' {
      MulGrows(d, q + 1, q');
    }
  }

  lemma MulGrows(d: int, x: int, y: int)
    requires d > 0 && x <= y
    ensures d * x <= d * y
  {
  }

  // Values with no bit in common: or is addition.
  lemma {:induction false} OrIsSum(a: nat, b: nat, k: nat)
    requires a < Pow2(k) && b % Pow2(k) == 0
    ensures BitOr(a, b) == a + b
    decreases k
  {
    if k > 0 && a != 0 && b != 0 {
      ModTwice(b, Pow2(k - 1));
      OrIsSum(a / 2, b / 2, k - 1);
    }
  }

  lemma MaskFive(lo: nat)
    ensures BitAnd(lo, 0x1f) == lo % 32
  {
    assert Pow2(5) == 32;
    AndMask(lo, 5);
  }

  lemma ShrFive(x: nat)
    ensures Shr(x, 5) == x / 32
  {
    assert Shr(x, 5) == x / 2 / 2 / 2 / 2 / 2;
  }

  lemma EightMore(m: nat)
    ensures Pow2(m + 3) == 8 * Pow2(m) && Pow2(m + 8) == 256 * Pow2(m)
  {
    assert Pow2(m + 3) == 2 * Pow2(m + 2) == 4 * Pow2(m + 1);
    assert Pow2(m + 8) == 2 * Pow2(m + 7) == 4 * Pow2(m + 6) == 8 * Pow2(m + 5) == 16 * Pow2(m + 4) == 32 * Pow2(m + 3);
  }

  lemma PowersFrom(m: nat)
    ensures Pow2(m + 48) == TWO48 * Pow2(m) && Pow2(m + 59) == TWO59 * Pow2(m) && Pow2(m + 64) == TWO64 * Pow2(m)
  {
    EightMore(m);
    EightMore(m + 8);
    EightMore(m + 16);
    EightMore(m + 24);
    EightMore(m + 32);
    EightMore(m + 40);
    EightMore(m + 48);
    EightMore(m + 56);
  }

  lemma PowersUsed()
    ensures Pow2(48) == TWO48 && Pow2(59) == TWO59 && Pow2(64) == TWO64
  {
    PowersFrom(0);
  }

  // The five bits that cross from hi to lo.
  lemma ShlFiftyNine(hi: nat)
    ensures Shl(hi, 59) == (hi % 32) * TWO59
    ensures (hi % 32) * TWO59 % TWO59 == 0
  {
    PowersUsed();
    var top := hi % 32;
    assert hi * TWO59 == TWO64 * (hi / 32) + top * TWO59;
    DivModUnique(hi * TWO59, TWO64, hi / 32, top * TWO59);
    DivModUnique(top * TWO59, TWO59, top, 0);
  }

  lemma OrAbove59(a: nat, b: nat)
    requires a < TWO59 && b % TWO59 == 0
    ensures BitOr(a, b) == a + b
  {
    PowersUsed();
    OrIsSum(a, b, 59);
  }

  lemma Recombined(hi: nat, lo: nat)
    ensures (hi * TWO64 + lo) / 32 == hi / 32 * TWO64 + (hi % 32 * TWO59 + lo / 32)
    ensures (hi * TWO64 + lo) % 32 == lo % 32
  {
    var q := hi / 32 * TWO64 + (hi % 32 * TWO59 + lo / 32);
    DivModUnique(hi * TWO64 + lo, 32, q, lo % 32);
  }

  // One turn of the loop: the low digit, and the pair shifted right by five.
  lemma ShiftStep(hi: nat, lo: nat, hi': nat, lo': nat, low: nat)
    requires hi < TWO64 && lo < TWO64
    requires low == BitAnd(lo, 0x1f) && lo' == BitOr(Shr(lo, 5), Shl(hi, 59)) && hi' == Shr(hi, 5)
    ensures lo' < TWO64 && hi' < TWO64
    ensures low == (hi * TWO64 + lo) % 32
    ensures hi' * TWO64 + lo' == (hi * TWO64 + lo) / 32
  {
    MaskFive(lo);
    ShrFive(lo);
    ShrFive(hi);
    ShlFiftyNine(hi);
    OrAbove59(lo / 32, hi % 32 * TWO59);
    Recombined(hi, lo);
  }

  lemma {:induction false} PowAdd(a: nat, b: nat)
    ensures Pow2(a + b) == Pow2(a) * Pow2(b)
  {
    if b > 0 {
      PowAdd(a, b - 1);
    }
  }

  // ---------------------------------------------------------------------------
  // encodeULID
  // ---------------------------------------------------------------------------

  // binary.BigEndian.Uint64, for any number of bytes.
  function BigEndian(b: seq<byte>): nat {
    if b == [] then 0 else BigEndian(b[..|b|-1]) * 256 + b[|b|-1]
  }

  lemma {:induction false} BigEndianBound(b: seq<byte>)
    ensures BigEndian(b) < Pow2(8 * |b|)
  {
    if b != [] {
      BigEndianBound(b[..|b|-1]);
      PowAdd(8 * (|b| - 1), 8);
      assert Pow2(8) == 256;
    }
  }

  lemma {:induction false} BigEndianConcat(a: seq<byte>, b: seq<byte>)
    ensures BigEndian(a + b) == BigEndian(a) * Pow2(8 * |b|) + BigEndian(b)
    decreases |b|
  {
    if b == [] {
      assert a + b == a;
    } else {
      var front := b[..|b|-1];
      assert (a + b)[..|a + b|-1] == a + front;
      BigEndianConcat(a, front);
      PowAdd(8 * |front|, 8);
      assert Pow2(8) == 256;
      assert BigEndian(a) * Pow2(8 * |front|) * 256 == BigEndian(a) * (Pow2(8 * |front|) * 256);
    }
  }

  lemma {:induction false} EightBytes(b: seq<byte>)
    requires |b| == 8
    ensures BigEndian(b) < TWO64
  {
    BigEndianBound(b);
    PowersUsed();
  }

  lemma {:induction false} Halves(a: seq<byte>, b: seq<byte>)
    requires |a| == |b| == 8
    ensures BigEndian(a) < TWO64 && BigEndian(b) < TWO64
    ensures BigEndian(a + b) == BigEndian(a) * TWO64 + BigEndian(b)
  {
    EightBytes(a);
    EightBytes(b);
    BigEndianConcat(a, b);
    PowersUsed();
  }

  // One turn of the loop moves one digit from the number to the text.
  lemma {:induction false} DigitStep(hi: nat, lo: nat, hi': nat, lo': nat, low: nat, i: nat, tail: string)
    requires hi < TWO64 && lo < TWO64
    requires low == BitAnd(lo, 0x1f) && lo' == BitOr(Shr(lo, 5), Shl(hi, 59)) && hi' == Shr(hi, 5)
    ensures low < 32 && lo' < TWO64 && hi' < TWO64
    ensures Base32.Digits(hi * TWO64 + lo, i + 1, CROCKFORD) + tail ==
            Base32.Digits(hi' * TWO64 + lo', i, CROCKFORD) + ([CROCKFORD[low]] + tail)
  {
    ShiftStep(hi, lo, hi', lo', low);
    Base32.DigitsSnoc(hi * TWO64 + lo, i, tail, CROCKFORD);
  }

  // The 26 base-32 digits of a number.
  function Encoded(n: nat): (s: string)
    ensures |s| == LENGTH
  {
    Base32.Digits(n, LENGTH, CROCKFORD)
  }

  // The 128-bit number written out in 26 digits by the shift loop.
  method EncodeULID(b: seq<byte>) returns (id: string)
    requires |b| == 16
    ensures id == Encoded(BigEndian(b))
  {
    var dst := new char[LENGTH](_ => '0');
    var hi: nat, lo: nat := BigEndian(b[0..8]), BigEndian(b[8..16]);
    Halves(b[0..8], b[8..16]);
    assert b[0..8] + b[8..16] == b;
    ghost var all := Encoded(BigEndian(b));
    var i := 25;
    while i >= 0
      invariant -1 <= i <= 25 && dst.Length == LENGTH
      invariant hi < TWO64 && lo < TWO64
      invariant all == Base32.Digits(hi * TWO64 + lo, (i + 1) as nat, CROCKFORD) + dst[i + 1..]
    {
      ghost var tail := dst[i + 1..];
      var low := BitAnd(lo, 0x1f);
      var lo', hi' := BitOr(Shr(lo, 5), Shl(hi, 59)), Shr(hi, 5);
      DigitStep(hi, lo, hi', lo', low, i, tail);
      dst[i] := CROCKFORD[low];
      assert dst[i..] == [dst[i]] + tail;
      lo, hi := lo', hi';
      i := i - 1;
    }
    id := dst[..];
    assert dst[0..] == dst[..];
  }

  lemma CrockfordIsOrdered()
    ensures Base32.Alphabet(CROCKFORD)
  {
    assert forall i | 0 <= i < 31 :: CROCKFORD[i] < CROCKFORD[i + 1];
    Ascends(CROCKFORD);
  }

  lemma {:induction false} Ascends(abc: string)
    requires forall i | 0 <= i < |abc| - 1 :: abc[i] < abc[i + 1]
    ensures forall i, j | 0 <= i < j < |abc| :: abc[i] < abc[j]
    decreases |abc|
  {
    if |abc| > 1 {
      var front := abc[..|abc|-1];
      Ascends(front);
      var last := |abc| - 1;
      assert abc[last - 1] < abc[last - 1 + 1];
      assert forall i | 0 <= i < last - 1 :: front[i] < front[last - 1];
    }
  }

  lemma {:induction false} FiveBitsADigit(k: nat)
    ensures Pow2(5 * k) == Base32.Pow32(k) && Pow2(5 * k + 3) == Base32.Placed(8, k)
    decreases k
  {
    if k > 0 {
      FiveBitsADigit(k - 1);
      Double5(5 * (k - 1));
      Double5(5 * (k - 1) + 3);
    }
  }

  lemma Double5(m: nat)
    ensures Pow2(m + 5) == 32 * Pow2(m)
  {
    assert Pow2(m + 5) == 2 * Pow2(m + 4) == 4 * Pow2(m + 3) == 8 * Pow2(m + 2) == 16 * Pow2(m + 1);
  }

  // 128 bits leave the top two of the 26 digits' 130 bits zero.
  lemma {:induction false} FitsIn26(b: seq<byte>)
    requires |b| == 16
    ensures BigEndian(b) < Base32.Placed(8, 25) < Base32.Pow32(26)
  {
    BigEndianBound(b);
    FiveBitsADigit(25);
    FiveBitsADigit(26);
    assert Pow2(130) == 2 * Pow2(129) == 4 * Pow2(128);
  }

  // The identifier reads back as the number, and never starts past '7'.
  lemma {:induction false} EncodedDecodes(b: seq<byte>)
    requires |b| == 16
    ensures var id := Encoded(BigEndian(b));
            Base32.Written(id, CROCKFORD) && Base32.Decode(id, CROCKFORD) == BigEndian(b) && id[0] <= '7'
  {
    FitsIn26(b);
    CrockfordIsOrdered();
    LeadsTo7(BigEndian(b), 25, CROCKFORD);
  }

  lemma {:induction false} LeadsTo7(n: nat, k: nat, abc: string)
    requires Base32.Alphabet(abc) && abc[8] == '8' && n < Base32.Placed(8, k) < Base32.Pow32(k + 1)
    ensures var id := Base32.Digits(n, k + 1, abc);
            Base32.Written(id, abc) && Base32.Decode(id, abc) == n && id[0] <= '7'
  {
    Base32.LeadsBelow(n, k, 8, abc);
  }

  // Digits and capital letters, but for I, L, O and U.
  predicate InCrockford(c: char) {
    '0' <= c <= '9' || ('A' <= c <= 'Z' && c != 'I' && c != 'L' && c != 'O' && c != 'U')
  }

  lemma {:induction false} OnlyCrockford(b: seq<byte>)
    requires |b| == 16
    ensures |Encoded(BigEndian(b))| == 26
    ensures forall i | 0 <= i < 26 :: InCrockford(Encoded(BigEndian(b))[i])
  {
    EncodedDecodes(b);
    AlphabetIsCrockford();
    WrittenFrom(Encoded(BigEndian(b)), CROCKFORD);
  }

  lemma AlphabetIsCrockford()
    ensures |CROCKFORD| == 32 && forall i | 0 <= i < 32 :: InCrockford(CROCKFORD[i])
  {
  }

  lemma {:induction false} WrittenFrom(s: string, abc: string)
    requires Base32.Written(s, abc) && forall i | 0 <= i < |abc| :: InCrockford(abc[i])
    ensures forall i | 0 <= i < |s| :: InCrockford(s[i])
  {
  }

  // Different bytes give different identifiers, in the order of their numbers.
  lemma {:induction false} EncodingKeepsOrder(b: seq<byte>, c: seq<byte>)
    requires |b| == |c| == 16
    ensures Encoded(BigEndian(b)) == Encoded(BigEndian(c)) ==> b == c
    ensures Text.Less(Encoded(BigEndian(b)), Encoded(BigEndian(c))) <==> BigEndian(b) < BigEndian(c)
  {
    EncodedDecodes(b);
    EncodedDecodes(c);
    CrockfordIsOrdered();
    Base32.OrderIsNumeric(Encoded(BigEndian(b)), Encoded(BigEndian(c)), CROCKFORD);
    if BigEndian(b) == BigEndian(c) {
      BigEndianInjective(b, c);
    }
  }

  lemma {:induction false} BigEndianInjective(b: seq<byte>, c: seq<byte>)
    requires |b| == |c| && BigEndian(b) == BigEndian(c)
    ensures b == c
  {
    if b != [] {
      var fb, fc := b[..|b|-1], c[..|c|-1];
      DivModUnique(BigEndian(b), 256, BigEndian(fb), b[|b|-1]);
      DivModUnique(BigEndian(c), 256, BigEndian(fc), c[|c|-1]);
      BigEndianInjective(fb, fc);
      assert b == fb + [b[|b|-1]] && c == fc + [c[|c|-1]];
    }
  }

  // ---------------------------------------------------------------------------
  // NewID
  // ---------------------------------------------------------------------------

  // byte(ms >> 40), ..., byte(ms)
  function Timestamp(ms: nat): (b: seq<byte>)
    ensures |b| == 6
  {
    [ms / 0x100_0000_0000 % 256, ms / 0x1_0000_0000 % 256, ms / 0x100_0000 % 256,
     ms / 0x1_0000 % 256, ms / 0x100 % 256, ms % 256]
  }

  // The low k bytes of n, most significant first.
  function Bytes(n: nat, k: nat): (b: seq<byte>)
    ensures |b| == k
  {
    if k == 0 then [] else Bytes(n / 256, k - 1) + [n % 256]
  }

  lemma {:induction false} BytesKeepLowBits(n: nat, k: nat)
    ensures BigEndian(Bytes(n, k)) == n % Pow2(8 * k)
  {
    if k > 0 {
      BytesKeepLowBits(n / 256, k - 1);
      PowAdd(8 * (k - 1), 8);
      assert Pow2(8) == 256;
      Mod256(n, Pow2(8 * (k - 1)));
    }
  }

  lemma Mod256(n: nat, m: nat)
    requires m > 0
    ensures n % (m * 256) == (n / 256 % m) * 256 + n % 256
  {
    var q, r := n / 256 / m, n / 256 % m;
    assert n / 256 == m * q + r;
    assert n == (m * 256) * q + (r * 256 + n % 256);
    DivModUnique(n, m * 256, q, r * 256 + n % 256);
  }

  lemma DivTwice(n: nat, d: nat)
    requires d > 0
    ensures n / d / 256 == n / (d * 256)
  {
    var q, r := n / d, n % d;
    assert n == d * q + r && q == 256 * (q / 256) + q % 256;
    assert d * q == (d * 256) * (q / 256) + d * (q % 256);
    MulGrows(d, q % 256, 255);
    DivModUnique(n, d * 256, q / 256, d * (q % 256) + r);
  }

  lemma {:induction false} TimestampKeeps48Bits(ms: nat)
    ensures BigEndian(Timestamp(ms)) == ms % TWO48
  {
    DivTwice(ms, 0x100);
    DivTwice(ms, 0x1_0000);
    DivTwice(ms, 0x100_0000);
    DivTwice(ms, 0x1_0000_0000);
    assert Bytes(ms / 0x100_0000_0000, 1) == [ms / 0x100_0000_0000 % 256];
    assert Bytes(ms / 0x1_0000_0000, 2) == Bytes(ms / 0x100_0000_0000, 1) + [ms / 0x1_0000_0000 % 256];
    assert Bytes(ms / 0x100_0000, 3) == Bytes(ms / 0x1_0000_0000, 2) + [ms / 0x100_0000 % 256];
    assert Bytes(ms / 0x1_0000, 4) == Bytes(ms / 0x100_0000, 3) + [ms / 0x1_0000 % 256];
    assert Bytes(ms / 0x100, 5) == Bytes(ms / 0x1_0000, 4) + [ms / 0x100 % 256];
    assert Bytes(ms, 6) == Timestamp(ms);
    BytesKeepLowBits(ms, 6);
    PowersUsed();
  }

  // The clock and ten random bytes make an identifier.
  method NewID(ms: nat, random: seq<byte>) returns (id: string)
    requires |random| == 10
    ensures |id| == LENGTH && id == Encoded(BigEndian(Timestamp(ms) + random))
  {
    id := EncodeULID(Timestamp(ms) + random);
  }

  // A smaller millisecond gives a smaller identifier, whatever the random bits.
  lemma {:induction false} OlderSortsFirst(ms: nat, r: seq<byte>, ms': nat, r': seq<byte>)
    requires ms < ms' < TWO48 && |r| == |r'| == 10
    ensures Text.Less(Encoded(BigEndian(Timestamp(ms) + r)), Encoded(BigEndian(Timestamp(ms') + r')))
  {
    var a := Stamp(ms);
    var b := Stamp(ms');
    StampDecides(a, r, b, r');
  }

  lemma {:induction false} Stamp(ms: nat) returns (a: seq<byte>)
    requires ms < TWO48
    ensures a == Timestamp(ms) && |a| == 6 && BigEndian(a) == ms
  {
    a := Timestamp(ms);
    assert BigEndian(a) == ms % TWO48 == ms by {
      TimestampKeeps48Bits(ms);
    }
  }

  lemma {:induction false} StampDecides(a: seq<byte>, r: seq<byte>, b: seq<byte>, r': seq<byte>)
    requires |a| == |b| == 6 && |r| == |r'| == 10 && BigEndian(a) < BigEndian(b)
    ensures Text.Less(Encoded(BigEndian(a + r)), Encoded(BigEndian(b + r')))
  {
    EarlierIsSmaller(a, r, b, r');
    EncodingKeepsOrder(a + r, b + r');
  }

  lemma {:induction false} EarlierIsSmaller(a: seq<byte>, r: seq<byte>, b: seq<byte>, r': seq<byte>)
    requires BigEndian(a) < BigEndian(b) && |r| == |r'|
    ensures BigEndian(a + r) < BigEndian(b + r')
    decreases |r|
  {
    if r == [] {
      assert a + r == a && b + r' == b;
    } else {
      var f, f' := r[..|r|-1], r'[..|r|-1];
      EarlierIsSmaller(a, f, b, f');
      assert (a + r)[..|a + r|-1] == a + f && (b + r')[..|b + r'|-1] == b + f';
    }
  }
}
