/**
 The placeholder grammar shared by the masker, which prints tokens, and the streaming
 writer, which recognises them: `[`, one or more of A-Z, `_`, one or more digits, `]`.
 */
module TokenGrammar {
  import opened ByteStrings

  /** A candidate longer than this is given up on. */
  const MAX_TOKEN_LEN: nat := 64

  /** s has the shape of a token whose underscore stands at index u. */
  ghost predicate TokenAt(s: Bytes, u: int) {
    && 2 <= u <= |s| - 3
    && s[0] == OPEN
    && (forall i | 1 <= i < u :: IsUpper(s[i]))
    && s[u] == UNDERSCORE
    && (forall i | u < i < |s| - 1 :: IsDigit(s[i]))
    && s[|s| - 1] == CLOSE
  }

  ghost predicate IsToken(s: Bytes) {
    exists u :: TokenAt(s, u)
  }

  /** Some token continues s by at least one byte. */
  ghost predicate CanGrow(s: Bytes) {
    exists t :: IsToken(t) && s < t
  }

  /** The bytes a token may hold after its first one. */
  predicate IsTail(b: Byte) {
    IsUpper(b) || IsDigit(b) || b == UNDERSCORE || b == CLOSE
  }

  lemma TokenBytes(t: Bytes)
    requires IsToken(t)
    ensures |t| >= 5 && t[0] == OPEN && IsUpper(t[1])
    ensures t[|t| - 1] == CLOSE
    ensures forall i | 1 <= i < |t| :: IsTail(t[i])
    ensures forall i | 0 <= i < |t| - 1 :: t[i] != CLOSE
  {
    var u :| TokenAt(t, u);
    forall i | 1 <= i < |t|
      ensures IsTail(t[i])
    {
      if i < u { assert IsUpper(t[i]); } else if u < i < |t| - 1 { assert IsDigit(t[i]); }
    }
    forall i | 0 <= i < |t| - 1
      ensures t[i] != CLOSE
    {
      if 1 <= i < u { assert IsUpper(t[i]); } else if u < i { assert IsDigit(t[i]); }
    }
  }

  /** No token is a proper prefix of another one, so a token never grows. */
  lemma TokenEnds(s: Bytes, t: Bytes)
    requires IsToken(s) && IsToken(t) && s <= t
    ensures s == t
  {
    TokenBytes(s);
    TokenBytes(t);
    assert t[|s| - 1] == s[|s| - 1];
  }

  lemma TokenCannotGrow(s: Bytes)
    requires IsToken(s)
    ensures !CanGrow(s)
  {
    if CanGrow(s) {
      var t :| IsToken(t) && s < t;
      TokenEnds(s, t);
    }
  }

  lemma PrefixAlive(s: Bytes, more: Bytes)
    requires IsToken(s + more) || CanGrow(s + more)
    ensures IsToken(s) || CanGrow(s)
  {
    var t :| IsToken(t) && s + more <= t;
    assert s <= t;
    if s != t {
      assert IsToken(t) && s < t;
    }
  }

  /** Once nothing can come of a candidate, nothing can come of any continuation of it. */
  lemma DeadForever(s: Bytes, more: Bytes)
    requires !IsToken(s) && !CanGrow(s)
    ensures !IsToken(s + more) && !CanGrow(s + more)
  {
    if IsToken(s + more) || CanGrow(s + more) {
      PrefixAlive(s, more);
    }
  }

  /** Where a candidate stands while it can still grow: in its letters or in its digits. */
  ghost predicate InKind(s: Bytes) {
    && |s| >= 1
    && s[0] == OPEN
    && forall i | 1 <= i < |s| :: IsUpper(s[i])
  }

  ghost predicate InNumber(s: Bytes, u: int) {
    && 2 <= u < |s|
    && s[0] == OPEN
    && (forall i | 1 <= i < u :: IsUpper(s[i]))
    && s[u] == UNDERSCORE
    && forall i | u < i < |s| :: IsDigit(s[i])
  }

  lemma GrowFromKind(s: Bytes)
    requires InKind(s)
    ensures CanGrow(s)
  {
    var t := s + [0x41, UNDERSCORE, 0x30, CLOSE];
    assert TokenAt(t, |s| + 1);
    assert IsToken(t) && s < t;
  }

  lemma GrowFromNumber(s: Bytes, u: int)
    requires InNumber(s, u)
    ensures CanGrow(s)
  {
    var t := s + [0x30, CLOSE];
    assert TokenAt(t, u);
    assert IsToken(t) && s < t;
  }

  /** The three shapes a live candidate can have. */
  lemma LiveShape(s: Bytes)
    requires IsToken(s) || CanGrow(s)
    ensures s == [] || InKind(s) || exists u :: InNumber(s, u) || TokenAt(s, u)
  {
    if IsToken(s) {
      var u :| TokenAt(s, u);
    } else {
      var t :| IsToken(t) && s < t;
      var u :| TokenAt(t, u);
      assert forall i | 0 <= i < |s| :: s[i] == t[i];
      assert s == [] || InKind(s) || InNumber(s, u);
    }
  }

  lemma GrowingBytes(s: Bytes)
    requires CanGrow(s) && s != []
    ensures s[0] == OPEN
    ensures forall i | 1 <= i < |s| :: s[i] != OPEN
  {
    var t :| IsToken(t) && s < t;
    TokenBytes(t);
    assert forall i | 0 <= i < |s| :: s[i] == t[i];
  }

  datatype TokenState = PartialToken | CompleteToken | DeadToken

  /** The recogniser agrees with the grammar on every candidate that starts with `[`. */
  method Classify(buf: Bytes) returns (state: TokenState)
    requires buf != [] && buf[0] == OPEN
    ensures state == CompleteToken <==> IsToken(buf)
    ensures state == PartialToken <==> CanGrow(buf)
  {
    if IsToken(buf) { TokenCannotGrow(buf); }
    var i := 1;
    while i < |buf| && IsUpper(buf[i])
      invariant 1 <= i <= |buf|
      invariant forall k | 1 <= k < i :: IsUpper(buf[k])
    {
      i := i + 1;
    }
    if i == |buf| {
      GrowFromKind(buf);
      return PartialToken;
    }
    ghost var u := i;
    if i == 1 || buf[i] != UNDERSCORE {
      DeadAt(buf, i);
      return DeadToken;
    }
    i := i + 1;
    var digits := i;
    while i < |buf| && IsDigit(buf[i])
      invariant digits <= i <= |buf|
      invariant forall k | digits <= k < i :: IsDigit(buf[k])
    {
      i := i + 1;
    }
    if i == |buf| {
      GrowFromNumber(buf, u);
      return PartialToken;
    }
    if i != digits && buf[i] == CLOSE && i == |buf| - 1 {
      assert TokenAt(buf, u);
      return CompleteToken;
    }
    DeadInNumber(buf, u, i);
    return DeadToken;
  }

  /** The first byte that is not a letter must be an underscore after at least one letter. */
  lemma DeadAt(s: Bytes, i: int)
    requires 1 <= i < |s| && (forall k | 1 <= k < i :: IsUpper(s[k])) && !IsUpper(s[i])
    requires i == 1 || s[i] != UNDERSCORE
    ensures !IsToken(s) && !CanGrow(s)
  {
    if IsToken(s) || CanGrow(s) { LiveShape(s); }
  }

  /** After the underscore come digits, and the first other byte must close the token. */
  lemma DeadInNumber(s: Bytes, u: int, i: int)
    requires 2 <= u < i < |s|
    requires (forall k | 1 <= k < u :: IsUpper(s[k])) && s[u] == UNDERSCORE
    requires (forall k | u < k < i :: IsDigit(s[k])) && !IsDigit(s[i])
    requires i == u + 1 || s[i] != CLOSE || i != |s| - 1
    ensures !IsToken(s) && !CanGrow(s)
  {
    if IsToken(s) || CanGrow(s) { LiveShape(s); }
  }

  // ---------------------------------------------------------------- printing

  /** The decimal digits of n, as fmt prints them. */
  function Decimal(n: nat): (r: Bytes)
    ensures |r| >= 1 && AllDigits(r)
  {
    if n < 10 then [0x30 + n] else Decimal(n / 10) + [0x30 + n % 10]
  }

  /** The number a digit string denotes. */
  function Value(digits: Bytes): nat
    requires AllDigits(digits)
  {
    if digits == [] then 0
    else 10 * Value(digits[..|digits| - 1]) + (digits[|digits| - 1] - 0x30)
  }

  lemma {:induction false} DecimalDenotes(n: nat)
    ensures Value(Decimal(n)) == n
  {
    if n >= 10 {
      DecimalDenotes(n / 10);
      assert Decimal(n)[..|Decimal(n)| - 1] == Decimal(n / 10);
    } else {
      assert [0x30 + n][..0] == [];
    }
  }

  lemma DecimalAtMostEight(n: nat)
    requires n < 100_000_000
    ensures |Decimal(n)| <= 8
  {
    DecimalLength(n, 100_000_000, 8);
  }

  lemma {:induction false} DecimalLength(n: nat, bound: nat, width: nat)
    requires n < bound && width >= 1 && bound == Pow10(width)
    ensures |Decimal(n)| <= width
    decreases width
  {
    if n < 10 {
    } else {
      DecimalLength(n / 10, Pow10(width - 1), width - 1);
    }
  }

  function Pow10(k: nat): nat { if k == 0 then 1 else 10 * Pow10(k - 1) }

  /** A kind the grammar can carry. */
  predicate IsKind(kind: Bytes) { kind != [] && AllUpper(kind) }

  function PrintToken(kind: Bytes, n: nat): Bytes {
    [OPEN] + kind + [UNDERSCORE] + Decimal(n) + [CLOSE]
  }

  /** Every token printed from a sanitised, non-empty kind is one the recogniser completes. */
  lemma PrintedIsToken(kind: Bytes, n: nat)
    requires IsKind(kind)
    ensures IsToken(PrintToken(kind, n))
    ensures |PrintToken(kind, n)| == |kind| + |Decimal(n)| + 3
  {
    var t := PrintToken(kind, n);
    assert forall i | 1 <= i <= |kind| :: t[i] == kind[i - 1];
    assert forall i | |kind| + 2 <= i < |t| - 1 :: t[i] == Decimal(n)[i - |kind| - 2];
    assert TokenAt(t, |kind| + 1);
  }

  lemma OneUnderscore(kind: Bytes, n: nat)
    requires IsKind(kind)
    ensures forall i | 0 <= i < |PrintToken(kind, n)| :: PrintToken(kind, n)[i] == UNDERSCORE <==> i == |kind| + 1
  {
    var t := PrintToken(kind, n);
    assert forall i | 1 <= i <= |kind| :: t[i] == kind[i - 1];
    assert forall i | |kind| + 2 <= i < |t| - 1 :: t[i] == Decimal(n)[i - |kind| - 2];
  }

  /** Printing is injective: the token determines its kind and its number. */
  lemma PrintInjective(k1: Bytes, n1: nat, k2: Bytes, n2: nat)
    requires IsKind(k1) && IsKind(k2)
    requires PrintToken(k1, n1) == PrintToken(k2, n2)
    ensures k1 == k2 && n1 == n2
  {
    var t1, t2 := PrintToken(k1, n1), PrintToken(k2, n2);
    OneUnderscore(k1, n1);
    OneUnderscore(k2, n2);
    assert |k1| == |k2| by {
      assert t1[|k1| + 1] == t2[|k1| + 1] == UNDERSCORE;
    }
    assert k1 == t1[1..|k1| + 1] && k2 == t2[1..|k2| + 1];
    assert Decimal(n1) == t1[|k1| + 2..|t1| - 1] && Decimal(n2) == t2[|k2| + 2..|t2| - 1];
    DecimalDenotes(n1);
    DecimalDenotes(n2);
  }

  /**
   A kind of at most 53 letters leaves room for eight digits, and eight digits are enough
   to number every masked value of a body of at most 16 MiB.
   */
  lemma PrintedFits(kind: Bytes, n: nat)
    requires IsKind(kind) && |kind| <= 53 && n <= 0x100_0000
    ensures |PrintToken(kind, n)| <= MAX_TOKEN_LEN
  {
    PrintedIsToken(kind, n);
    DecimalAtMostEight(n);
  }

  /** The bound of 53 is exact: with one letter more, the eight-digit numbers do not fit. */
  lemma PrintedFitsExactly(kind: Bytes)
    requires IsKind(kind)
    ensures (forall n: nat | n <= 0x100_0000 :: |PrintToken(kind, n)| <= MAX_TOKEN_LEN) <==> |kind| <= 53
  {
    if |kind| <= 53 {
      forall n: nat | n <= 0x100_0000
        ensures |PrintToken(kind, n)| <= MAX_TOKEN_LEN
      {
        PrintedFits(kind, n);
      }
    } else {
      var n := 10_000_000;
      EightDigits(n);
      PrintedIsToken(kind, n);
      assert |PrintToken(kind, n)| > MAX_TOKEN_LEN;
    }
  }

  lemma EightDigits(n: nat)
    requires 10_000_000 <= n
    ensures |Decimal(n)| >= 8
  {
    AtLeastDigits(n, 7);
  }

  lemma {:induction false} AtLeastDigits(n: nat, k: nat)
    requires n >= Pow10(k)
    ensures |Decimal(n)| > k
  {
    if k == 0 {
    } else {
      AtLeastDigits(n / 10, k - 1);
    }
  }
}
