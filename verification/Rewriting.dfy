/**
 The reference meaning of restoring a text: one left-to-right pass that replaces every
 token of at most 64 bytes that a substitution knows, and keeps every other byte.
 */
module Rewriting {
  import opened ByteStrings
  import opened TokenGrammar

  /** What each known token is replaced by. */
  type Substitution = map<Bytes, Bytes>

  function Subst(sub: Substitution, token: Bytes): Bytes {
    if token in sub then sub[token] else token
  }

  /** The first n bytes of s are a token short enough to be recognised. */
  ghost predicate StartsToken(s: Bytes, n: int) {
    0 < n <= |s| && n <= MAX_TOKEN_LEN && IsToken(s[..n])
  }

  /** The length of the token of at most max bytes at the head of s; zero when there is none. */
  ghost function TokenWithin(s: Bytes, max: nat): (n: nat)
    ensures n <= max
  {
    if max == 0 then 0 else if StartsToken(s, max) then max else TokenWithin(s, max - 1)
  }

  ghost function Rewrite(sub: Substitution, s: Bytes): Bytes
    decreases |s|
  {
    if s == [] then []
    else
      var n := TokenWithin(s, MAX_TOKEN_LEN);
      if 0 < n <= |s| then Subst(sub, s[..n]) + Rewrite(sub, s[n..]) else [s[0]] + Rewrite(sub, s[1..])
  }

  lemma {:induction false} TokenWithinFinds(s: Bytes, max: nat)
    ensures TokenWithin(s, max) > 0 ==> StartsToken(s, TokenWithin(s, max))
    ensures TokenWithin(s, max) == 0 ==> forall n | n <= max :: !StartsToken(s, n)
  {
    if max == 0 {
    } else {
      TokenWithinFinds(s, max - 1);
    }
  }

  lemma OneTokenStarts(s: Bytes, n: int, k: int)
    requires StartsToken(s, n) && StartsToken(s, k)
    ensures n == k
  {
    if n <= k { TokenEnds(s[..n], s[..k]); } else { TokenEnds(s[..k], s[..n]); }
  }

  lemma RewriteToken(sub: Substitution, t: Bytes, rest: Bytes)
    requires IsToken(t) && |t| <= MAX_TOKEN_LEN
    ensures Rewrite(sub, t + rest) == Subst(sub, t) + Rewrite(sub, rest)
  {
    TokenBytes(t);
    var s := t + rest;
    var n := TokenWithin(s, MAX_TOKEN_LEN);
    TokenWithinFinds(s, MAX_TOKEN_LEN);
    assert s[..|t|] == t && s[|t|..] == rest;
    assert StartsToken(s, |t|);
    OneTokenStarts(s, n, |t|);
  }

  /** A byte at which no token starts is kept. */
  lemma RewriteKeeps(sub: Substitution, s: Bytes)
    requires s != [] && forall n :: !StartsToken(s, n)
    ensures Rewrite(sub, s) == [s[0]] + Rewrite(sub, s[1..])
  {
    TokenWithinFinds(s, MAX_TOKEN_LEN);
  }

  lemma NoTokenHere(s: Bytes)
    requires s == [] || s[0] != OPEN || (|s| >= 2 && !IsUpper(s[1]))
    ensures forall n :: !StartsToken(s, n)
  {
    if n :| StartsToken(s, n) {
      TokenBytes(s[..n]);
    }
  }

  /** A stretch without `[` is kept as it is. */
  lemma {:induction false} RewritePlain(sub: Substitution, a: Bytes, rest: Bytes)
    requires OPEN !in a
    ensures Rewrite(sub, a + rest) == a + Rewrite(sub, rest)
  {
    if a == [] {
      assert a + rest == rest;
    } else {
      var s := a + rest;
      assert s[0] == a[0] && s[1..] == a[1..] + rest;
      NoTokenHere(s);
      RewriteKeeps(sub, s);
      RewritePlain(sub, a[1..], rest);
      Associate([a[0]], a[1..], Rewrite(sub, rest));
      assert [a[0]] + a[1..] == a;
    }
  }

  /** So is a stretch whose first byte starts no token and whose other bytes are not `[`. */
  lemma RewriteDead(sub: Substitution, a: Bytes, rest: Bytes)
    requires a != [] && OPEN !in a[1..]
    requires forall n :: !StartsToken(a + rest, n)
    ensures Rewrite(sub, a + rest) == a + Rewrite(sub, rest)
  {
    var s := a + rest;
    assert s[0] == a[0] && s[1..] == a[1..] + rest;
    RewriteKeeps(sub, s);
    RewritePlain(sub, a[1..], rest);
    Associate([a[0]], a[1..], Rewrite(sub, rest));
    assert [a[0]] + a[1..] == a;
  }

  lemma StartTails(s: Bytes, n: int)
    requires StartsToken(s, n)
    ensures forall i | 1 <= i < n :: IsTail(s[i])
  {
    TokenBytes(s[..n]);
    assert forall i | 0 <= i < n :: s[i] == s[..n][i];
  }

  /** A token that starts in a ends in a when b cannot continue one. */
  lemma StartsWithin(a: Bytes, b: Bytes, n: int)
    requires a != [] && (b == [] || !IsTail(b[0]))
    requires StartsToken(a + b, n)
    ensures StartsToken(a, n)
  {
    var t := (a + b)[..n];
    assert b != [] ==> (a + b)[|a|] == b[0];
    StartTails(a + b, n);
    if n <= |a| {
      assert t == a[..n];
    }
  }

  lemma NoneAcross(a: Bytes, b: Bytes)
    requires a != [] && (b == [] || !IsTail(b[0])) && forall n :: !StartsToken(a, n)
    ensures forall n :: !StartsToken(a + b, n)
  {
    if n :| StartsToken(a + b, n) {
      StartsWithin(a, b, n);
    }
  }

  lemma SplitAfterToken(sub: Substitution, a: Bytes, n: int, b: Bytes)
    requires StartsToken(a, n) && Rewrite(sub, a[n..] + b) == Rewrite(sub, a[n..]) + Rewrite(sub, b)
    ensures Rewrite(sub, a + b) == Rewrite(sub, a) + Rewrite(sub, b)
  {
    var t, u := a[..n], a[n..];
    assert a == t + u;
    Associate(t, u, b);
    RewriteToken(sub, t, u + b);
    RewriteToken(sub, t, u);
    Associate(Subst(sub, t), Rewrite(sub, u), Rewrite(sub, b));
  }

  lemma SplitAfterByte(sub: Substitution, a: Bytes, b: Bytes)
    requires a != [] && Rewrite(sub, a[1..] + b) == Rewrite(sub, a[1..]) + Rewrite(sub, b)
    requires (forall n :: !StartsToken(a, n)) && (forall n :: !StartsToken(a + b, n))
    ensures Rewrite(sub, a + b) == Rewrite(sub, a) + Rewrite(sub, b)
  {
    assert (a + b)[0] == a[0] && (a + b)[1..] == a[1..] + b;
    RewriteKeeps(sub, a + b);
    RewriteKeeps(sub, a);
    Associate([a[0]], Rewrite(sub, a[1..]), Rewrite(sub, b));
  }

  lemma SplitNothing(sub: Substitution, b: Bytes)
    ensures Rewrite(sub, [] + b) == Rewrite(sub, []) + Rewrite(sub, b)
  {
    assert [] + b == b;
  }

  /** Restoring distributes over a cut where no token can straddle it. */
  lemma {:induction false} RewriteSplit(sub: Substitution, a: Bytes, b: Bytes)
    requires b == [] || !IsTail(b[0])
    ensures Rewrite(sub, a + b) == Rewrite(sub, a) + Rewrite(sub, b)
    decreases |a|
  {
    if a == [] {
      SplitNothing(sub, b);
    } else {
      var n := TokenWithin(a, MAX_TOKEN_LEN);
      TokenWithinFinds(a, MAX_TOKEN_LEN);
      if n > 0 {
        RewriteSplit(sub, a[n..], b);
        SplitAfterToken(sub, a, n, b);
      } else {
        NoneAcross(a, b);
        RewriteSplit(sub, a[1..], b);
        SplitAfterByte(sub, a, b);
      }
    }
  }

  /** Every occurrence of a short token is replaced, wherever it stands. */
  lemma RewriteOccurrence(sub: Substitution, before: Bytes, t: Bytes, after: Bytes)
    requires IsToken(t) && |t| <= MAX_TOKEN_LEN
    ensures Rewrite(sub, before + t + after)
         == Rewrite(sub, before) + Subst(sub, t) + Rewrite(sub, after)
  {
    NoTailAhead(t, after);
    Associate(before, t, after);
    RewriteSplit(sub, before, t + after);
    RewriteToken(sub, t, after);
    Associate(Rewrite(sub, before), Subst(sub, t), Rewrite(sub, after));
  }

  lemma NoTailAhead(t: Bytes, after: Bytes)
    requires IsToken(t)
    ensures t + after != [] && !IsTail((t + after)[0])
  {
    TokenBytes(t);
  }

  /** The token s[i..i + n] is short and known. */
  ghost predicate Hit(sub: Substitution, s: Bytes, i: int, n: int) {
    0 <= i && 0 < n && i + n <= |s| && n <= MAX_TOKEN_LEN && s[i..i + n] in sub && IsToken(s[i..i + n])
  }

  ghost predicate NoHit(sub: Substitution, s: Bytes) {
    forall i, n :: !Hit(sub, s, i, n)
  }

  lemma NoHitSuffix(sub: Substitution, s: Bytes, k: int)
    requires NoHit(sub, s) && 0 <= k <= |s|
    ensures NoHit(sub, s[k..])
  {
    forall i, n | 0 <= i && 0 < n && i + n <= |s| - k
      ensures !Hit(sub, s[k..], i, n)
    {
      assert s[k..][i..i + n] == s[i + k..i + k + n];
      assert !Hit(sub, s, i + k, n);
    }
  }

  /** A text without known tokens is left alone. */
  lemma {:induction false} RewriteNoHit(sub: Substitution, s: Bytes)
    requires NoHit(sub, s)
    ensures Rewrite(sub, s) == s
  {
    if s == [] {
    } else {
      if n :| StartsToken(s, n) {
        assert s[0..0 + n] == s[..n];
        assert !Hit(sub, s, 0, n);
        NoHitSuffix(sub, s, n);
        RewriteNoHit(sub, s[n..]);
        assert s == s[..n] + s[n..];
        RewriteToken(sub, s[..n], s[n..]);
      } else {
        RewriteKeeps(sub, s);
        NoHitSuffix(sub, s, 1);
        RewriteNoHit(sub, s[1..]);
        assert s == [s[0]] + s[1..];
      }
    }
  }
}
