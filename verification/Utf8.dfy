/**
 UTF-8 at the level of bytes. A rune is represented by its encoding: one of the
 UTF8-1 to UTF8-4 sequences of section 4 of RFC 3629.
 */
module Utf8 {
  import opened ByteStrings

  predicate IsTrail(b: Byte) { 0x80 <= b <= 0xBF }

  predicate Starts3(lead: Byte, second: Byte) {
    || (lead == 0xE0 && 0xA0 <= second <= 0xBF)
    || (0xE1 <= lead <= 0xEC && IsTrail(second))
    || (lead == 0xED && 0x80 <= second <= 0x9F)
    || (0xEE <= lead <= 0xEF && IsTrail(second))
  }

  predicate Starts4(lead: Byte, second: Byte) {
    || (lead == 0xF0 && 0x90 <= second <= 0xBF)
    || (0xF1 <= lead <= 0xF3 && IsTrail(second))
    || (lead == 0xF4 && 0x80 <= second <= 0x8F)
  }

  /** The first n bytes of s are one of the sequences of n bytes. */
  predicate Sequence(s: Bytes, n: nat) {
    && 1 <= n <= 4 && n <= |s|
    && (n == 1 ==> s[0] < 0x80)
    && (n == 2 ==> 0xC2 <= s[0] <= 0xDF && IsTrail(s[1]))
    && (n == 3 ==> Starts3(s[0], s[1]) && IsTrail(s[2]))
    && (n == 4 ==> Starts4(s[0], s[1]) && IsTrail(s[2]) && IsTrail(s[3]))
  }

  /** The length of the sequence of at most n bytes at the head of s; zero when there is none. */
  function SequenceUpTo(s: Bytes, n: nat): (k: nat)
    ensures k <= n && k <= 4
  {
    if n == 0 then 0 else if Sequence(s, n) then n else SequenceUpTo(s, n - 1)
  }

  /** The length of the rune at the head of s; zero when there is none. */
  function RuneLen(s: Bytes): (n: nat)
    ensures n <= |s| && n <= 4
  {
    SequenceUpTo(s, |s|)
  }

  lemma {:induction false} SequenceUpToIs(s: Bytes, n: nat)
    ensures SequenceUpTo(s, n) > 0 ==> Sequence(s, SequenceUpTo(s, n))
    ensures forall k: nat | k <= n && Sequence(s, k) :: SequenceUpTo(s, n) > 0
  {
    if n == 0 || Sequence(s, n) {
    } else {
      SequenceUpToIs(s, n - 1);
    }
  }

  lemma SequenceUnique(s: Bytes, n: nat, k: nat)
    requires Sequence(s, n) && Sequence(s, k)
    ensures n == k
  {
  }

  /** A rune starts with a byte that no trail byte can be, and goes on with trail bytes. */
  lemma RuneBytes(s: Bytes)
    ensures var n := RuneLen(s);
            && (forall i | 1 <= i < n :: IsTrail(s[i]))
            && (n > 0 ==> !IsTrail(s[0]) && Sequence(s, n))
            && (n == 1 ==> s[0] < 0x80)
            && (n > 1 ==> s[0] >= 0xC2)
  {
    SequenceUpToIs(s, |s|);
  }

  lemma RuneLenIs(s: Bytes, n: nat)
    requires Sequence(s, n)
    ensures RuneLen(s) == n
  {
    SequenceUpToIs(s, |s|);
    SequenceUnique(s, n, RuneLen(s));
  }

  predicate IsRune(r: Bytes) { r != [] && RuneLen(r) == |r| }

  type Rune = r: Bytes | IsRune(r) witness [0]

  lemma SequencePrefix(s: Bytes, t: Bytes, n: nat)
    requires Sequence(s, n) && n <= |t| && s[..n] == t[..n]
    ensures Sequence(t, n)
  {
    assert forall i | 0 <= i < n :: s[i] == s[..n][i] == t[..n][i] == t[i];
  }

  /** The runes are a prefix code: what follows a rune does not change where it ends. */
  lemma HeadRune(s: Bytes, more: Bytes)
    requires RuneLen(s) > 0
    ensures RuneLen(s[..RuneLen(s)] + more) == RuneLen(s)
    ensures IsRune(s[..RuneLen(s)])
  {
    var n := RuneLen(s);
    var t := s[..n] + more;
    RuneBytes(s);
    assert t[..n] == s[..n] && s[..n][..n] == s[..n];
    SequencePrefix(s, t, n);
    SequencePrefix(s, s[..n], n);
    RuneLenIs(t, n);
    RuneLenIs(s[..n], n);
  }

  lemma RuneThen(r: Rune, more: Bytes)
    ensures RuneLen(r + more) == |r| && (r + more)[..|r|] == r && (r + more)[|r|..] == more
  {
    HeadRune(r, more);
    assert r[..|r|] == r;
  }

  predicate Valid(s: Bytes)
    decreases |s|
  {
    s == [] || (RuneLen(s) > 0 && Valid(s[RuneLen(s)..]))
  }

  /** The runes of a valid text, in order. */
  function Runes(s: Bytes): seq<Rune>
    requires Valid(s)
    decreases |s|
  {
    if s == [] then []
    else
      HeadRune(s, []);
      [s[..RuneLen(s)]] + Runes(s[RuneLen(s)..])
  }

  function Encode(rs: seq<Rune>): Bytes {
    if rs == [] then [] else rs[0] + Encode(rs[1..])
  }

  lemma {:induction false} EncodeRunes(s: Bytes)
    requires Valid(s)
    ensures Encode(Runes(s)) == s
    decreases |s|
  {
    if s == [] {
    } else {
      EncodeRunes(s[RuneLen(s)..]);
      assert s == s[..RuneLen(s)] + s[RuneLen(s)..];
    }
  }

  lemma {:induction false} RunesEncode(rs: seq<Rune>)
    ensures Valid(Encode(rs)) && Runes(Encode(rs)) == rs
  {
    if rs == [] {
    } else {
      RuneThen(rs[0], Encode(rs[1..]));
      RunesEncode(rs[1..]);
      assert rs == [rs[0]] + rs[1..];
    }
  }

  lemma {:induction false} EncodeAppend(a: seq<Rune>, b: seq<Rune>)
    ensures Encode(a + b) == Encode(a) + Encode(b)
  {
    if a == [] {
      assert a + b == b;
    } else {
      assert (a + b)[0] == a[0] && (a + b)[1..] == a[1..] + b;
      EncodeAppend(a[1..], b);
    }
  }

  lemma ValidThen(r: Rune, t: Bytes)
    ensures Valid(r + t) <==> Valid(t)
  {
    RuneThen(r, t);
  }

  lemma {:induction false} ValidAppend(a: Bytes, b: Bytes)
    requires Valid(a) && Valid(b)
    ensures Valid(a + b)
    decreases |a|
  {
    if a == [] {
      assert a + b == b;
    } else {
      var r, t := HeadAndRest(a);
      ValidAppend(t, b);
      Associate(r, t, b);
      ValidThen(r, t + b);
    }
  }

  lemma HeadAndRest(s: Bytes) returns (r: Rune, t: Bytes)
    requires Valid(s) && s != []
    ensures s == r + t && Valid(t) && |t| < |s|
  {
    HeadRune(s, []);
    r, t := s[..RuneLen(s)], s[RuneLen(s)..];
  }

  lemma {:induction false} ValidRest(a: Bytes, b: Bytes)
    requires Valid(a) && Valid(a + b)
    ensures Valid(b)
    decreases |a|
  {
    if a == [] {
      assert a + b == b;
    } else {
      HeadRune(a, []);
      var r: Rune, t := a[..RuneLen(a)], a[RuneLen(a)..];
      assert a + b == r + (t + b);
      ValidThen(r, t + b);
      ValidRest(t, b);
    }
  }
}
