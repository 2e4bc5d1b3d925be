/**
 Splicing values into the inside of a JSON string literal: the tokens of the escaped text
 are those of the text, and reading the restored literal gives the restored text.
 */
module JsonSplice {
  import opened ByteStrings
  import opened Utf8
  import opened TokenGrammar
  import opened Rewriting
  import opened JsonString
  import opened Streaming

  predicate IsTokenByte(b: Byte) { IsTail(b) || b == OPEN }

  predicate AllTokenBytes(s: Bytes) { forall i | 0 <= i < |s| :: IsTokenByte(s[i]) }

  lemma TokenByteEscape(r: Rune)
    ensures var e := EscapeRune(false, r);
            e != [] && (IsTokenByte(e[0]) ==> e == r && |r| == 1)
  {
  }

  lemma {:induction false} TokenBytesUnescaped(s: Bytes)
    requires AllTokenBytes(s)
    ensures Valid(s) && Escape(false, s) == s
  {
    if s == [] {
    } else {
      RuneLenIs([s[0]], 1);
      var r: Rune, t := [s[0]], s[1..];
      TokenBytesUnescaped(t);
      ValidThen(r, t);
      EscapeThen(false, r, t);
      assert s == r + t && EscapeRune(false, r) == r;
    }
  }

  /** A token byte at the head of the escaped text is the head of the text. */
  lemma HeadVerbatim(s: Bytes)
    requires Valid(s) && s != [] && Escape(false, s) != [] && IsTokenByte(Escape(false, s)[0])
    ensures Valid(s[1..]) && Escape(false, s) == [s[0]] + Escape(false, s[1..])
  {
    var k := RuneLen(s);
    HeadRune(s, []);
    TokenByteEscape(s[..k]);
    assert Escape(false, s) == EscapeRune(false, s[..k]) + Escape(false, s[k..]);
    assert k == 1 && s[..1] == [s[0]];
  }

  lemma TailTokenBytes(b: Byte, t: Bytes, n: nat)
    requires n <= |t| && AllTokenBytes(([b] + t)[..n + 1])
    ensures AllTokenBytes(t[..n])
  {
    assert forall i | 0 <= i < n :: t[..n][i] == ([b] + t)[..n + 1][i + 1];
  }

  ghost predicate StartAlike(s: Bytes, e: Bytes, n: nat) {
    n <= |s| && n <= |e| && forall i | 0 <= i < n :: s[i] == e[i]
  }

  lemma StartAlikeMore(s: Bytes, e: Bytes, t: Bytes, n: nat)
    requires s != [] && e == [s[0]] + t && StartAlike(s[1..], t, n)
    ensures StartAlike(s, e, n + 1)
  {
    assert s == [s[0]] + s[1..];
  }

  /** A spelling of some texts that keeps a token byte at the head. */
  ghost predicate KeepsHead(ok: Bytes -> bool, spell: Bytes -> Bytes) {
    forall s | ok(s) && spell(s) != [] && IsTokenByte(spell(s)[0]) ::
      s != [] && ok(s[1..]) && spell(s) == [s[0]] + spell(s[1..])
  }

  lemma {:induction false} HeadKept(ok: Bytes -> bool, spell: Bytes -> Bytes, s: Bytes, n: nat)
    requires KeepsHead(ok, spell) && ok(s) && n <= |spell(s)| && AllTokenBytes(spell(s)[..n])
    ensures StartAlike(s, spell(s), n)
    decreases n
  {
    if n == 0 {
    } else {
      assert spell(s)[..n][0] == spell(s)[0];
      var t := spell(s[1..]);
      TailTokenBytes(s[0], t, n - 1);
      HeadKept(ok, spell, s[1..], n - 1);
      StartAlikeMore(s, spell(s), t, n - 1);
    }
  }

  /** Token bytes at the head of the escaped text stand at the head of the text. */
  lemma VerbatimHead(s: Bytes, n: nat)
    requires Valid(s) && n <= |Escape(false, s)| && AllTokenBytes(Escape(false, s)[..n])
    ensures n <= |s| && s[..n] == Escape(false, s)[..n]
  {
    var ok, spell := (x: Bytes) => Valid(x), (x: Bytes) => Escape(false, x);
    forall x | ok(x) && spell(x) != [] && IsTokenByte(spell(x)[0])
      ensures x != [] && ok(x[1..]) && spell(x) == [x[0]] + spell(x[1..])
    {
      HeadVerbatim(x);
    }
    HeadKept(ok, spell, s, n);
  }

  lemma TokenIsTokenBytes(t: Bytes)
    requires IsToken(t)
    ensures AllTokenBytes(t)
  {
    TokenBytes(t);
  }

  /** Escaping keeps the tokens at the head of a text, and what follows them. */
  lemma EscapeKeepsStart(s: Bytes, n: int)
    requires Valid(s) && StartsToken(s, n)
    ensures Valid(s[n..]) && Escape(false, s) == s[..n] + Escape(false, s[n..])
    ensures StartsToken(Escape(false, s), n)
  {
    TokenIsTokenBytes(s[..n]);
    assert s == s[..n] + s[n..];
    EscapeAfterTokenBytes(s[..n], s[n..]);
    assert Escape(false, s)[..n] == s[..n];
  }

  lemma EscapeAfterTokenBytes(t: Bytes, u: Bytes)
    requires Valid(t + u) && AllTokenBytes(t)
    ensures Valid(u) && Escape(false, t + u) == t + Escape(false, u)
  {
    TokenBytesUnescaped(t);
    ValidRest(t, u);
    EscapeAppend(false, t, u);
  }

  /** Escaping creates no token at the head of a text. */
  lemma EscapeAddsNoStart(s: Bytes, n: int)
    requires Valid(s) && StartsToken(Escape(false, s), n)
    ensures StartsToken(s, n)
  {
    var e := Escape(false, s);
    TokenIsTokenBytes(e[..n]);
    VerbatimHead(s, n);
  }

  lemma EscapedRuneHasNoOpenInside(r: Rune)
    ensures EscapeRune(false, r) != []
    ensures OPEN !in EscapeRune(false, r)[1..] && OPEN !in r[1..]
  {
    var e := EscapeRune(false, r);
    if |r| == 1 && |e| == 6 {
      var b := r[0];
      assert e == EscapeByte(b);
      assert forall i | 0 <= i < |e| - 1 :: e[1..][i] == e[i + 1];
      assert HexDigit(b / 16) != OPEN && HexDigit(b % 16) != OPEN;
    }
    assert forall i | 0 <= i < |r| - 1 :: r[1..][i] == r[i + 1];
  }

  ghost predicate ValidValues(m: map<Bytes, Bytes>) { forall t | t in m :: Valid(m[t]) }

  /** The head of a text that starts no token passes through, escaped or not. */
  lemma RunePasses(m: map<Bytes, Bytes>, s: Bytes)
    requires Valid(s) && s != [] && forall n :: !StartsToken(s, n)
    ensures IsRune(s[..RuneLen(s)])
    ensures Rewrite(m, s) == s[..RuneLen(s)] + Rewrite(m, s[RuneLen(s)..])
    ensures Rewrite(Spliced(m), Escape(false, s))
         == EscapeRune(false, s[..RuneLen(s)]) + Rewrite(Spliced(m), Escape(false, s[RuneLen(s)..]))
  {
    var k := RuneLen(s);
    HeadRune(s, []);
    var r: Rune, t := s[..k], s[k..];
    EscapedRuneHasNoOpenInside(r);
    assert s == r + t;
    RewriteDead(m, r, t);
    var e := Escape(false, s);
    if n :| StartsToken(e, n) { EscapeAddsNoStart(s, n); }
    RewriteDead(Spliced(m), EscapeRune(false, r), Escape(false, t));
  }

  /** The token at the head of a text is replaced, escaped or not. */
  lemma TokenPasses(m: map<Bytes, Bytes>, s: Bytes, n: int)
    requires Valid(s) && StartsToken(s, n)
    ensures Valid(s[n..])
    ensures Rewrite(m, s) == Subst(m, s[..n]) + Rewrite(m, s[n..])
    ensures Rewrite(Spliced(m), Escape(false, s))
         == Subst(Spliced(m), s[..n]) + Rewrite(Spliced(m), Escape(false, s[n..]))
  {
    EscapeKeepsStart(s, n);
    assert s == s[..n] + s[n..];
    RewriteToken(Spliced(m), s[..n], Escape(false, s[n..]));
    RewriteToken(m, s[..n], s[n..]);
  }

  /** What is spliced in for a token is read as what the token stands for. */
  lemma SubstituteSpells(m: map<Bytes, Bytes>, t: Bytes)
    requires IsToken(t) && ValidValues(m)
    ensures Spells(Subst(Spliced(m), t), Subst(m, t))
  {
    if t in m {
      EscapedSpells(true, m[t]);
    } else {
      TokenIsTokenBytes(t);
      TokenBytesUnescaped(t);
      EscapedSpells(false, t);
    }
  }

  /** A restored literal is read as the restored text. */
  lemma {:induction false} SplicedSpells(m: map<Bytes, Bytes>, s: Bytes)
    requires Valid(s) && ValidValues(m)
    ensures Spells(Rewrite(Spliced(m), Escape(false, s)), Rewrite(m, s))
    decreases |s|
  {
    if s == [] {
      SpellsNothing();
    } else if n :| StartsToken(s, n) {
      TokenPasses(m, s, n);
      var t, u := s[..n], s[n..];
      SplicedSpells(m, u);
      SubstituteSpells(m, t);
      SpellsThen(Subst(Spliced(m), t), Subst(m, t), Rewrite(Spliced(m), Escape(false, u)), Rewrite(m, u));
    } else {
      RunePasses(m, s);
      var r: Rune, u := s[..RuneLen(s)], s[RuneLen(s)..];
      SplicedSpells(m, u);
      EscapedRuneSpells(false, r);
      SpellsThen(EscapeRune(false, r), r, Rewrite(Spliced(m), Escape(false, u)), Rewrite(m, u));
    }
  }

  /** A whole restored literal, with its closing quote, is read as the restored text. */
  lemma ReadSpliced(m: map<Bytes, Bytes>, s: Bytes, rest: Bytes)
    requires Valid(s) && ValidValues(m)
    ensures ReadString(Rewrite(Spliced(m), Escape(false, s)) + ([QUOTE] + rest)) == Read(Rewrite(m, s), rest)
  {
    SplicedSpells(m, s);
    var text := Rewrite(m, s);
    SpellsAt(Rewrite(Spliced(m), Escape(false, s)), text, [QUOTE] + rest);
    assert ([QUOTE] + rest)[1..] == rest;
    assert text + [] == text;
  }
}
