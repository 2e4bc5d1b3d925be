/** The checksum that tells card numbers from other digit strings (ISO/IEC 7812-1, Annex B). */
module Luhn {
  import opened ByteStrings

  function Digit(b: Byte): nat
    requires IsDigit(b)
  {
    b - 0x30
  }

  /** What a digit contributes when it is doubled. */
  function Doubled(d: nat): nat {
    if 2 * d > 9 then 2 * d - 9 else 2 * d
  }

  /** The sum of the two decimal digits of a number below 100. */
  function DigitSum(n: nat): nat
    requires n < 100
  {
    n / 10 + n % 10
  }

  /** Subtracting nine adds up the two digits of the doubled digit. */
  lemma DoubledIsDigitSum(d: nat)
    requires d < 10
    ensures Doubled(d) == DigitSum(2 * d)
  {
  }

  function Part(double: bool, d: nat): nat { if double then Doubled(d) else d }

  /** Every second digit counts double, starting from the right with double for the last digit. */
  function Sum(s: Bytes, double: bool): nat
    requires AllDigits(s)
  {
    if s == [] then 0 else Part(double, Digit(s[|s| - 1])) + Sum(s[..|s| - 1], !double)
  }

  ghost predicate Passes(s: Bytes)
    requires AllDigits(s)
  {
    Sum(s, false) % 10 == 0
  }

  /** The backward loop computes the checksum. */
  method Luhn(digits: Bytes) returns (ok: bool)
    requires AllDigits(digits)
    ensures ok == Passes(digits)
    ensures ok <==> Checksum(digits) % 10 == 0
  {
    PassesExactly(digits);
    var sum: int := 0;
    var double := false;
    var i := |digits|;
    assert digits[..i] == digits;
    while i > 0
      invariant 0 <= i <= |digits|
      invariant sum + Sum(digits[..i], double) == Sum(digits, false)
    {
      i := i - 1;
      assert digits[..i + 1][..i] == digits[..i];
      var d: int := Digit(digits[i]);
      if double {
        d := d * 2;
        if d > 9 {
          d := d - 9;
        }
      }
      sum := sum + d;
      double := !double;
    }
    return sum % 10 == 0;
  }

  /** Whether the digit n places further left is doubled. */
  predicate Alternate(double: bool, n: nat)
    decreases n
  {
    if n == 0 then double else Alternate(!double, n - 1)
  }

  lemma {:induction false} AlternateNext(double: bool, n: nat)
    ensures Alternate(double, n + 1) == !Alternate(double, n)
    decreases n
  {
    if n == 0 {
      assert Alternate(double, 1) == Alternate(!double, 0);
    } else {
      AlternateNext(!double, n - 1);
    }
  }

  /** Whether the digit at position i is doubled. */
  predicate DoubledAt(s: Bytes, i: nat)
    requires i < |s|
  {
    Alternate(false, |s| - 1 - i)
  }

  /** The checksum is the sum of what the two sides of a cut contribute. */
  lemma {:induction false} SumSplit(a: Bytes, b: Bytes, double: bool)
    requires AllDigits(a) && AllDigits(b)
    ensures Sum(a + b, double) == Sum(a, Alternate(double, |b|)) + Sum(b, double)
    decreases |b|
  {
    if b == [] {
      assert a + b == a;
    } else {
      var t := b[..|b| - 1];
      assert (a + b)[..|a + b| - 1] == a + t;
      SumSplit(a, t, !double);
    }
  }

  lemma SumAround(l: Bytes, m: Bytes, r: Bytes)
    requires AllDigits(l) && AllDigits(m) && AllDigits(r)
    ensures var double := Alternate(false, |r|);
            Sum(l + m + r, false) == Sum(l, Alternate(double, |m|)) + Sum(m, double) + Sum(r, false)
  {
    SumSplit(l + m, r, false);
    SumSplit(l, m, Alternate(false, |r|));
  }

  lemma SumOne(double: bool, a: Byte)
    requires IsDigit(a)
    ensures Sum([a], double) == Part(double, Digit(a))
  {
    assert [a][..0] == [];
  }

  lemma SumPair(double: bool, a: Byte, b: Byte)
    requires IsDigit(a) && IsDigit(b)
    ensures Sum([a, b], double) == Pair(!double, a, b)
  {
    assert [a, b][..1] == [a];
    SumOne(!double, a);
  }

  /** What all digits but one contribute. */
  function Others(s: Bytes, i: nat): nat
    requires AllDigits(s) && i < |s|
  {
    Sum(s[..i], !DoubledAt(s, i)) + Sum(s[i + 1..], false)
  }

  lemma SumAt(s: Bytes, i: nat)
    requires AllDigits(s) && i < |s|
    ensures Sum(s, false) == Others(s, i) + Part(DoubledAt(s, i), Digit(s[i]))
  {
    assert s == s[..i] + [s[i]] + s[i + 1..];
    SumAround(s[..i], [s[i]], s[i + 1..]);
    SumOne(DoubledAt(s, i), s[i]);
    AlternateNext(DoubledAt(s, i), 0);
  }

  lemma OthersSame(s: Bytes, i: nat, b: Byte)
    requires AllDigits(s) && i < |s| && IsDigit(b)
    ensures AllDigits(s[i := b]) && Others(s[i := b], i) == Others(s, i)
  {
    assert s[i := b][..i] == s[..i] && s[i := b][i + 1..] == s[i + 1..];
  }

  lemma SameResidue(rest: int, x: int, y: int)
    requires (rest + x) % 10 == 0
    ensures (rest + y) % 10 == 0 <==> (x - y) % 10 == 0
  {
    assert rest + y == (rest + x) - (x - y);
  }

  lemma PartsDiffer(double: bool, d: nat, e: nat)
    requires d < 10 && e < 10 && d != e
    ensures (Part(double, d) - Part(double, e)) % 10 != 0
  {
  }

  lemma DigitChanged(rest: int, double: bool, a: Byte, b: Byte)
    requires IsDigit(a) && IsDigit(b) && a != b && (rest + Part(double, Digit(a))) % 10 == 0
    ensures (rest + Part(double, Digit(b))) % 10 != 0
  {
    PartsDiffer(double, Digit(a), Digit(b));
    SameResidue(rest, Part(double, Digit(a)), Part(double, Digit(b)));
  }

  /** Changing one digit of a number that passes makes it fail. */
  lemma SingleErrorDetected(s: Bytes, i: nat, b: Byte)
    requires AllDigits(s) && i < |s| && IsDigit(b) && b != s[i] && Passes(s)
    ensures AllDigits(s[i := b]) && !Passes(s[i := b])
  {
    OthersSame(s, i, b);
    SumAt(s, i);
    SumAt(s[i := b], i);
    DigitChanged(Others(s, i), DoubledAt(s, i), s[i], b);
  }

  function Swapped(s: Bytes, i: nat): Bytes
    requires i + 1 < |s|
  {
    s[i := s[i + 1]][i + 1 := s[i]]
  }

  /** What two neighbours contribute. */
  function Pair(double: bool, a: Byte, b: Byte): nat
    requires IsDigit(a) && IsDigit(b)
  {
    Part(double, Digit(a)) + Part(!double, Digit(b))
  }

  /** What all the other digits contribute. */
  function Around(s: Bytes, i: nat): nat
    requires AllDigits(s) && i + 1 < |s|
  {
    Sum(s[..i], DoubledAt(s, i + 1)) + Sum(s[i + 2..], false)
  }

  lemma AroundSwapped(s: Bytes, i: nat)
    requires AllDigits(s) && i + 1 < |s|
    ensures AllDigits(Swapped(s, i)) && Around(Swapped(s, i), i) == Around(s, i)
  {
    assert Swapped(s, i)[..i] == s[..i] && Swapped(s, i)[i + 2..] == s[i + 2..];
  }

  /**
   Exactly which transpositions are caught: swapping two distinct neighbours of a number
   that passes goes unnoticed if and only if they are 0 and 9.
   */
  lemma TranspositionDetected(s: Bytes, i: nat)
    requires AllDigits(s) && i + 1 < |s| && s[i] != s[i + 1] && Passes(s)
    ensures AllDigits(Swapped(s, i))
    ensures Passes(Swapped(s, i)) <==> {s[i], s[i + 1]} == {0x30, 0x39}
  {
    AroundSwapped(s, i);
    PairAt(s, i);
    PairAt(Swapped(s, i), i);
    PairSwapped(Around(s, i), DoubledAt(s, i), s[i], s[i + 1]);
  }

  lemma PairSwapped(rest: int, double: bool, a: Byte, b: Byte)
    requires IsDigit(a) && IsDigit(b) && a != b && (rest + Pair(double, a, b)) % 10 == 0
    ensures (rest + Pair(double, b, a)) % 10 == 0 <==> {a, b} == {0x30, 0x39}
  {
    SameResidue(rest, Pair(double, a, b), Pair(double, b, a));
    SwapChanges(double, Digit(a), Digit(b));
    ZeroNine(a, b);
  }

  lemma ZeroNine(a: Byte, b: Byte)
    ensures {a, b} == {0x30, 0x39} <==> (a == 0x30 && b == 0x39) || (a == 0x39 && b == 0x30)
  {
    if {a, b} == {0x30, 0x39} {
      assert a in {0x30, 0x39} && b in {0x30, 0x39};
      assert 0x30 in {a, b} && 0x39 in {a, b};
    }
  }

  lemma CutAtPair(s: Bytes, i: nat) returns (l: Bytes, m: Bytes, r: Bytes)
    requires AllDigits(s) && i + 1 < |s|
    ensures s == l + m + r && l == s[..i] && m == [s[i], s[i + 1]] && r == s[i + 2..]
    ensures AllDigits(l) && AllDigits(m) && AllDigits(r) && |m| == 2
  {
    l, m, r := s[..i], [s[i], s[i + 1]], s[i + 2..];
  }

  /** Of two neighbours one is doubled. */
  lemma NeighboursDoubled(s: Bytes, i: nat)
    requires i + 1 < |s|
    ensures DoubledAt(s, i) == !DoubledAt(s, i + 1)
    ensures Alternate(DoubledAt(s, i + 1), 2) == DoubledAt(s, i + 1)
  {
    AlternateNext(false, |s| - 2 - i);
    AlternateNext(DoubledAt(s, i + 1), 0);
    AlternateNext(DoubledAt(s, i + 1), 1);
  }

  lemma PairAt(s: Bytes, i: nat)
    requires AllDigits(s) && i + 1 < |s|
    ensures Sum(s, false) == Around(s, i) + Pair(DoubledAt(s, i), s[i], s[i + 1])
  {
    var l, m, r := CutAtPair(s, i);
    SumAround(l, m, r);
    SumPair(DoubledAt(s, i + 1), s[i], s[i + 1]);
    NeighboursDoubled(s, i);
  }

  lemma SwapChanges(double: bool, d: nat, e: nat)
    requires d < 10 && e < 10 && d != e
    ensures (Part(double, d) + Part(!double, e) - Part(double, e) - Part(!double, d)) % 10 == 0
            <==> (d == 0 && e == 9) || (d == 9 && e == 0)
  {
  }

  lemma Appended(s: Bytes, b: Byte)
    requires AllDigits(s) && IsDigit(b)
    ensures AllDigits(s + [b]) && Sum(s + [b], false) == Sum(s, true) + Digit(b)
  {
    assert (s + [b])[..|s|] == s;
  }

  lemma CheckDigit(n: nat)
    ensures (n + (10 - n % 10) % 10) % 10 == 0
  {
  }

  ghost predicate Checks(s: Bytes, b: Byte)
    requires AllDigits(s)
  {
    IsDigit(b) && AllDigits(s + [b]) && Passes(s + [b])
  }

  lemma ChecksIff(s: Bytes, b: Byte)
    requires AllDigits(s)
    ensures Checks(s, b) <==> IsDigit(b) && (Sum(s, true) + (b - 0x30)) % 10 == 0
  {
    if IsDigit(b) { Appended(s, b); }
  }

  lemma SameDigit(n: int, d: int, e: int)
    requires 0 <= d < 10 && 0 <= e < 10 && (n + d) % 10 == 0 && (n + e) % 10 == 0
    ensures d == e
  {
    SameResidue(n, d, e);
  }

  lemma CheckDigitsAgree(s: Bytes, b: Byte, c: Byte)
    requires AllDigits(s) && Checks(s, b) && Checks(s, c)
    ensures b == c
  {
    ChecksIff(s, b);
    ChecksIff(s, c);
    SameDigit(Sum(s, true), b - 0x30, c - 0x30);
  }

  lemma CheckDigitOf(s: Bytes) returns (b: Byte)
    requires AllDigits(s)
    ensures Checks(s, b)
  {
    var n := Sum(s, true);
    b := 0x30 + (10 - n % 10) % 10;
    CheckDigit(n);
    ChecksIff(s, b);
  }

  /** Every prefix has exactly one check digit that makes it pass. */
  lemma OneCheckDigit(s: Bytes)
    requires AllDigits(s)
    ensures exists b :: Checks(s, b)
    ensures forall b, c | Checks(s, b) && Checks(s, c) :: b == c
  {
    var check := CheckDigitOf(s);
    forall b: Byte, c: Byte | Checks(s, b) && Checks(s, c)
      ensures b == c
    {
      CheckDigitsAgree(s, b, c);
    }
  }

  // ---------------------------------------------------------------- the standard's formula

  /** What the digit with n digits to its right contributes: every second one is doubled and its digits added up. */
  function Contribution(b: Byte, n: nat): nat
    requires IsDigit(b)
  {
    if n % 2 == 1 then DigitSum(2 * Digit(b)) else Digit(b)
  }

  /** The contributions of all digits, from the left. */
  function Checksum(s: Bytes): nat
    requires AllDigits(s)
  {
    if s == [] then 0 else Contribution(s[0], |s| - 1) + Checksum(s[1..])
  }

  lemma {:induction false} AlternateOdd(n: nat)
    ensures Alternate(false, n) <==> n % 2 == 1
  {
    if n == 0 {
    } else {
      AlternateOdd(n - 1);
      AlternateNext(false, n - 1);
    }
  }

  lemma ContributionIsPart(b: Byte, n: nat)
    requires IsDigit(b)
    ensures Contribution(b, n) == Part(Alternate(false, n), Digit(b))
  {
    AlternateOdd(n);
    DoubledIsDigitSum(Digit(b));
  }

  lemma {:induction false} SumIsChecksum(s: Bytes)
    requires AllDigits(s)
    ensures Sum(s, false) == Checksum(s)
  {
    if s == [] {
    } else {
      SumAt(s, 0);
      assert s[..0] == [];
      ContributionIsPart(s[0], |s| - 1);
      SumIsChecksum(s[1..]);
    }
  }

  /** The loop accepts exactly the numbers whose checksum by the standard's formula is a multiple of ten. */
  lemma PassesExactly(s: Bytes)
    requires AllDigits(s)
    ensures Passes(s) <==> Checksum(s) % 10 == 0
  {
    SumIsChecksum(s);
  }

  function Ones(n: nat): Bytes { seq(n, i => 0x31) }

  lemma {:induction false} OnesAddUp(n: nat)
    ensures AllDigits(Ones(n)) && Checksum(Ones(n)) == n / 2 * 3 + n % 2
  {
    if n == 0 {
    } else {
      assert Ones(n)[1..] == Ones(n - 1);
      OnesAddUp(n - 1);
    }
  }

  /** The well-known number 4111 1111 1111 1111: eight, seven twos and eight ones make thirty. */
  lemma KnownCardPasses()
    ensures var card := [0x34] + Ones(15); AllDigits(card) && Checksum(card) == 30 && Passes(card)
  {
    var card := [0x34] + Ones(15);
    OnesAddUp(15);
    assert card[1..] == Ones(15);
    PassesExactly(card);
  }
}
