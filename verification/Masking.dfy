/**
 Masking one text: the sweep that replaces every chosen span by its token, and what
 restoring the masked text gives back.
 */
module Masking {
  import opened ByteStrings
  import opened Utf8
  import opened TokenGrammar
  import opened Rewriting
  import opened JsonString
  import opened Spans
  import opened Sessions
  import opened Streaming

  /**
   The detectors, as arbitrary functions of the text: the trusted spans of the patterns and
   the dictionary, the model's guesses, and the object keys whose value is a credential.
   */
  datatype Detectors = Detectors(sure: Bytes -> seq<Span>, guess: Bytes -> seq<Span>, secretKey: Bytes -> bool)

  /** What every detector guarantees about every text. */
  ghost predicate InRange(det: Detectors) {
    forall text {:trigger det.sure(text)} {:trigger det.guess(text)} ::
        AllProper(det.sure(text), |text|) && AllProper(det.guess(text), |text|)
  }

  ghost predicate KindsAtMost(spans: seq<Span>, max: nat) { forall s | s in spans :: |s.kind| <= max }

  ghost predicate ShortKinds(det: Detectors) {
    forall text :: KindsAtMost(det.sure(text), 53) && KindsAtMost(det.guess(text), 53)
  }

  ghost predicate CutsAtRunes(text: Bytes, spans: seq<Span>) {
    forall s | s in spans :: 0 <= s.start <= s.end <= |text| && Valid(text[..s.start]) && Valid(text[..s.end])
  }

  /** Spans of a valid text start and end between runes. */
  ghost predicate OnRunes(det: Detectors) {
    forall text {:trigger det.sure(text)} {:trigger det.guess(text)} | Valid(text) ::
      CutsAtRunes(text, det.sure(text)) && CutsAtRunes(text, det.guess(text))
  }

  ghost function Kept(det: Detectors, text: Bytes): seq<Span> {
    Chosen(Resolved(det.sure(text), det.guess(text)))
  }

  lemma ChosenFits(sure: seq<Span>, guess: seq<Span>, len: int)
    requires AllProper(sure, len) && AllProper(guess, len)
    ensures AllProper(Chosen(Resolved(sure, guess)), len) && Disjoint(Chosen(Resolved(sure, guess)), 0)
    ensures forall s | s in Chosen(Resolved(sure, guess)) :: s in sure || s in guess
  {
    ResolvedProper(sure, guess, len);
    SweepGuarantee(Resolved(sure, guess), len);
    SurvivingFree(sure, guess);
  }

  lemma KeptFits(det: Detectors, text: Bytes)
    requires InRange(det)
    ensures AllProper(Kept(det, text), |text|) && Disjoint(Kept(det, text), 0)
    ensures forall s | s in Kept(det, text) :: s in det.sure(text) || s in det.guess(text)
  {
    ChosenFits(det.sure(text), det.guess(text), |text|);
  }

  // ---------------------------------------------------------------- masked texts

  /** A text cut into unmasked stretches and masked values with the tokens that replace them. */
  datatype Marked = Tail(gap: Bytes) | Cut(gap: Bytes, value: Bytes, token: Bytes, rest: Marked)

  function MaskedText(p: Marked): Bytes {
    match p
    case Tail(g) => g
    case Cut(g, v, t, r) => g + t + MaskedText(r)
  }

  function Original(p: Marked): Bytes {
    match p
    case Tail(g) => g
    case Cut(g, v, t, r) => g + v + Original(r)
  }

  /** The original text with each masked value JSON-escaped. */
  function EscapedOriginal(p: Marked): Bytes {
    match p
    case Tail(g) => g
    case Cut(g, v, t, r) => g + Escape(true, v) + EscapedOriginal(r)
  }

  /** Cutting the text at disjoint spans while a session hands out the tokens. */
  function Mark(text: Bytes, kept: seq<Span>, last: int, st: SessionState): (Marked, SessionState)
    requires 0 <= last <= |text|
  {
    if kept == [] || !(last <= kept[0].start <= kept[0].end <= |text|) then (Tail(text[last..]), st)
    else
      var k := kept[0];
      var value := text[k.start..k.end];
      var (st1, t) := Allot(st, k.kind, value);
      var (rest, st2) := Mark(text, kept[1..], k.end, st1);
      (Cut(text[last..k.start], value, t, rest), st2)
  }

  ghost function MarkText(det: Detectors, text: Bytes, st: SessionState): (Marked, SessionState) {
    Mark(text, Kept(det, text), 0, st)
  }

  /** What the sweep still has to do with the spans ahead. */
  function Ahead(text: Bytes, spans: seq<Span>, last: int, st: SessionState): (Marked, SessionState)
    requires 0 <= last <= |text|
  {
    Mark(text, Sweep(spans, last), last, st)
  }

  ghost predicate Fits(text: Bytes, spans: seq<Span>, last: int) {
    0 <= last <= |text| && AllProper(Sweep(spans, last), |text|)
  }

  lemma AheadStep(text: Bytes, spans: seq<Span>, last: int, st: SessionState)
    requires spans != [] && Fits(text, spans, last)
    ensures var s := spans[0];
            if s.start < last then
              Fits(text, spans[1..], last) && Ahead(text, spans, last, st) == Ahead(text, spans[1..], last, st)
            else
              && Proper(s, |text|) && Fits(text, spans[1..], s.end)
              && var (st1, t) := Allot(st, s.kind, text[s.start..s.end]);
                 var (rest, st2) := Ahead(text, spans[1..], s.end, st1);
                 Ahead(text, spans, last, st) == (Cut(text[last..s.start], text[s.start..s.end], t, rest), st2)
  {
    var kept := Sweep(spans, last);
    var s := spans[0];
    if s.start >= last {
      assert kept[0] == s && kept[1..] == Sweep(spans[1..], s.end);
      assert Proper(kept[0], |text|);
      assert forall j | 0 <= j < |kept| - 1 :: kept[1..][j] == kept[j + 1];
    }
  }

  /** The sweep over the ordered spans, replacing each one it keeps. */
  method Replace(text: Bytes, spans: seq<Span>, sess: Session) returns (b: Bytes)
    requires Fits(text, spans, 0)
    modifies sess
    ensures (b, sess.State()) == (MaskedText(Ahead(text, spans, 0, old(sess.State())).0),
                                  Ahead(text, spans, 0, old(sess.State())).1)
  {
    ghost var whole := Ahead(text, spans, 0, sess.State());
    b := [];
    var last := 0;
    assert spans[0..] == spans;
    for i := 0 to |spans|
      invariant Fits(text, spans[i..], last)
      invariant b + MaskedText(Ahead(text, spans[i..], last, sess.State()).0) == MaskedText(whole.0)
      invariant Ahead(text, spans[i..], last, sess.State()).1 == whole.1
    {
      var s := spans[i];
      ghost var todo, st := spans[i..], sess.State();
      AheadStep(text, todo, last, st);
      assert todo[0] == s && todo[1..] == spans[i + 1..];
      if s.start < last {
        continue;
      }
      var t := sess.TokenFor(s.kind, text[s.start..s.end]);
      ghost var rest := MaskedText(Ahead(text, spans[i + 1..], s.end, sess.State()).0);
      assert MaskedText(Ahead(text, todo, last, st).0) == text[last..s.start] + t + rest;
      assert b + (text[last..s.start] + t + rest) == b + text[last..s.start] + t + rest;
      b := b + text[last..s.start] + t;
      last := s.end;
    }
    assert spans[|spans|..] == [];
    b := b + text[last..];
  }

  /** Merges the two tiers, orders the spans and replaces those the sweep keeps. */
  method MaskSpans(text: Bytes, sure: seq<Span>, guess: seq<Span>, sess: Session) returns (masked: Bytes)
    requires AllProper(sure, |text|) && AllProper(guess, |text|)
    modifies sess
    ensures (masked, sess.State()) == (MaskedText(Mark(text, Chosen(Resolved(sure, guess)), 0, old(sess.State())).0),
                                       Mark(text, Chosen(Resolved(sure, guess)), 0, old(sess.State())).1)
  {
    ChosenFits(sure, guess, |text|);
    var spans := ResolveConflicts(sure, guess);
    spans := StableSort(spans);
    masked := Replace(text, spans, sess);
  }

  /** Masking a text in place cuts it as the cutting function says and leaves the session it leaves. */
  method AnonymizeText(det: Detectors, text: Bytes, sess: Session) returns (masked: Bytes)
    requires InRange(det)
    modifies sess
    ensures masked == MaskedText(MarkText(det, text, old(sess.State())).0)
    ensures sess.State() == MarkText(det, text, old(sess.State())).1
  {
    masked := MaskSpans(text, det.sure(text), det.guess(text), sess);
  }

  // ---------------------------------------------------------------- what a cut knows

  /** Every token of the cut stands for its value in the mapping. */
  ghost predicate Known(m: map<Bytes, Bytes>, p: Marked) {
    p.Cut? ==> p.token in m && m[p.token] == p.value && IsToken(p.token) && p.value != [] && Known(m, p.rest)
  }

  lemma {:induction false} KnownLater(a: map<Bytes, Bytes>, b: map<Bytes, Bytes>, p: Marked)
    requires Known(a, p) && forall t | t in a :: t in b && b[t] == a[t]
    ensures Known(b, p)
  {
    if p.Tail? {
    } else {
      KnownLater(a, b, p.rest);
    }
  }

  lemma {:induction false} MarkCuts(text: Bytes, kept: seq<Span>, last: int, st: SessionState)
    requires 0 <= last <= |text|
    ensures Original(Mark(text, kept, last, st).0) == text[last..]
  {
    if kept == [] || !(last <= kept[0].start <= kept[0].end <= |text|) {
    } else {
      var k := kept[0];
      MarkCuts(text, kept[1..], k.end, Allot(st, k.kind, text[k.start..k.end]).0);
      assert text[last..k.start] + text[k.start..k.end] + text[k.end..] == text[last..];
    }
  }

  /** Cutting a text keeps the session invariant, extends the session, and adds at most one value per byte. */
  lemma {:induction false} MarkKeeps(text: Bytes, kept: seq<Span>, last: int, st: SessionState)
    requires 0 <= last <= |text| && AllProper(kept, |text|)
    requires Consistent(st)
    ensures var (p, st1) := Mark(text, kept, last, st);
            && Consistent(st1) && Extends(st, st1) && Known(st1.mapping, p)
            && |st1.mapping| <= |st.mapping| + |text| - last
            && (LettersAtMost(st, 53) && (forall k | k in kept :: |k.kind| <= 53) ==> LettersAtMost(st1, 53))
  {
    if kept == [] || !(last <= kept[0].start <= kept[0].end <= |text|) {
    } else {
      var k, tail := kept[0], kept[1..];
      var value := text[k.start..k.end];
      assert Proper(k, |text|);
      TokenForKeeps(st, k.kind, value);
      var (st1, t) := Allot(st, k.kind, value);
      assert forall x | x in tail :: x in kept;
      assert k in kept;
      MarkKeeps(text, tail, k.end, st1);
      var (rest, st2) := Mark(text, tail, k.end, st1);
      ExtendsTransitive(st, st1, st2);
    }
  }

  // ---------------------------------------------------------------- restoring

  /** No unmasked stretch holds a known token, and every token is short enough to be recognised. */
  ghost predicate Clean(sub: Substitution, p: Marked) {
    NoHit(sub, p.gap) && (p.Cut? ==> |p.token| <= MAX_TOKEN_LEN && Clean(sub, p.rest))
  }

  function Expand(sub: Substitution, p: Marked): Bytes {
    match p
    case Tail(g) => g
    case Cut(g, v, t, r) => g + Subst(sub, t) + Expand(sub, r)
  }

  /** Restoring a clean cut puts exactly the substitutes in place of the tokens, in a single pass. */
  lemma {:induction false} CleanExpands(m: map<Bytes, Bytes>, sub: Substitution, p: Marked)
    requires Known(m, p) && Clean(sub, p)
    ensures Rewrite(sub, MaskedText(p)) == Expand(sub, p)
  {
    RewriteNoHit(sub, p.gap);
    if p.Tail? {
    } else {
      CleanExpands(m, sub, p.rest);
      RewriteOccurrence(sub, p.gap, p.token, MaskedText(p.rest));
    }
  }

  lemma {:induction false} ExpandValues(m: map<Bytes, Bytes>, p: Marked)
    requires Known(m, p)
    ensures Expand(m, p) == Original(p)
    ensures Expand(Spliced(m), p) == EscapedOriginal(p)
  {
    if p.Tail? {
    } else {
      ExpandValues(m, p.rest);
    }
  }

  lemma {:induction false} CleanSpliced(m: map<Bytes, Bytes>, p: Marked)
    ensures Clean(Spliced(m), p) <==> Clean(m, p)
  {
    NoHitSpliced(m, p.gap);
    if p.Tail? {
    } else {
      CleanSpliced(m, p.rest);
    }
  }

  lemma NoHitSpliced(m: map<Bytes, Bytes>, s: Bytes)
    ensures NoHit(Spliced(m), s) <==> NoHit(m, s)
  {
    assert forall i, n :: Hit(Spliced(m), s, i, n) <==> Hit(m, s, i, n);
  }

  /** No value is empty or starts with `[`. */
  ghost predicate Blunt(m: map<Bytes, Bytes>) {
    forall t | t in m :: m[t] != [] && m[t][0] != OPEN
  }

  lemma OpenOutside(s: Bytes, n: int, i: int)
    requires StartsToken(s, n) && 0 <= i < |s| && s[i] == OPEN
    ensures i == 0 || i >= n
  {
    StartTails(s, n);
  }

  lemma HitStarts(m: map<Bytes, Bytes>, s: Bytes, i: int, k: int)
    requires Hit(m, s, i, k)
    ensures s[i] == OPEN && (i == 0 ==> StartsToken(s, k) && s[..k] in m)
  {
    TokenBytes(s[i..i + k]);
    assert s[i..i + k][0] == s[i];
    if i == 0 { assert s[0..k] == s[..k]; }
  }

  lemma HitLater(m: map<Bytes, Bytes>, s: Bytes, i: int, k: int, n: int)
    requires Hit(m, s, i, k) && 0 <= n <= i
    ensures !NoHit(m, s[n..])
  {
    assert s[n..][i - n..i - n + k] == s[i..i + k];
    assert Hit(m, s[n..], i - n, k);
  }

  /** Up to some `[` of a, the two texts are the same; there b holds another byte. */
  ghost predicate Drops(a: Bytes, b: Bytes) {
    exists i :: DropsAt(a, b, i)
  }

  predicate DropsAt(a: Bytes, b: Bytes, i: int) {
    0 <= i < |a| && i < |b| && a[..i] == b[..i] && a[i] == OPEN && b[i] != OPEN
  }

  lemma DropsAfter(t: Bytes, a: Bytes, b: Bytes)
    requires Drops(a, b)
    ensures Drops(t + a, t + b)
  {
    var i :| DropsAt(a, b, i);
    assert (t + a)[..|t| + i] == t + a[..i] && (t + b)[..|t| + i] == t + b[..i];
    assert DropsAt(t + a, t + b, |t| + i);
  }

  /** A known token in an unmasked stretch is replaced, and the first change is where a token starts. */
  lemma {:induction false} DirtyGap(m: map<Bytes, Bytes>, g: Bytes, rest: Bytes)
    requires Blunt(m) && !NoHit(m, g)
    ensures Drops(g, Rewrite(m, g + rest))
    decreases |g|
  {
    var i, k :| Hit(m, g, i, k);
    HitStarts(m, g, i, k);
    var s := g + rest;
    assert s[i] == OPEN;
    if n :| StartsToken(g, n) {
      DirtyAfterToken(m, g, rest, n, i, k);
    } else {
      HitLater(m, g, i, k, 1);
      if n :| StartsToken(s, n) { NoStraddle(g, rest, n, i); }
      assert s[1..] == g[1..] + rest && g == [g[0]] + g[1..];
      RewriteKeeps(m, s);
      DirtyGap(m, g[1..], rest);
      DropsAfter([g[0]], g[1..], Rewrite(m, g[1..] + rest));
    }
  }

  lemma {:induction false} DirtyAfterToken(m: map<Bytes, Bytes>, g: Bytes, rest: Bytes, n: int, i: int, k: int)
    requires Blunt(m) && Hit(m, g, i, k) && g[i] == OPEN && StartsToken(g, n)
    ensures Drops(g, Rewrite(m, g + rest))
    decreases |g|, 0
  {
    var t := g[..n];
    TokenBytes(t);
    assert g + rest == t + (g[n..] + rest) && g == t + g[n..];
    RewriteToken(m, t, g[n..] + rest);
    if t in m {
      assert DropsAt(g, Rewrite(m, g + rest), 0);
    } else {
      OpenOutside(g, n, i);
      if i == 0 {
        HitStarts(m, g, i, k);
        OneTokenStarts(g, n, k);
      }
      HitLater(m, g, i, k, n);
      DirtyGap(m, g[n..], rest);
      DropsAfter(t, g[n..], Rewrite(m, g[n..] + rest));
    }
  }

  /** A token of g + rest that reaches beyond g passes over no `[` of g but the first byte. */
  lemma NoStraddle(g: Bytes, rest: Bytes, n: int, i: int)
    requires StartsToken(g + rest, n) && 0 < i < |g| && g[i] == OPEN
    ensures StartsToken(g, n)
  {
    OpenOutside(g + rest, n, i);
    assert (g + rest)[..n] == g[..n];
  }

  lemma ShortStartIsAll(t: Bytes, rest: Bytes, n: int)
    requires IsToken(t) && n <= |t| && StartsToken(t + rest, n)
    ensures n == |t|
  {
    assert (t + rest)[..n] == t[..n];
    TokenEnds(t[..n], t);
  }

  /** A token above the cap is passed through, starting with its `[`. */
  lemma LongTokenPasses(m: map<Bytes, Bytes>, t: Bytes, rest: Bytes)
    requires IsToken(t) && |t| > MAX_TOKEN_LEN
    ensures |Rewrite(m, t + rest)| > 0 && Rewrite(m, t + rest)[0] == OPEN
  {
    TokenBytes(t);
    var s := t + rest;
    if n :| StartsToken(s, n) { ShortStartIsAll(t, rest, n); }
    RewriteKeeps(m, s);
  }

  lemma LongTokenStays(m: map<Bytes, Bytes>, g: Bytes, t: Bytes, rest: Bytes, v: Bytes, r: Bytes)
    requires NoHit(m, g) && IsToken(t) && |t| > MAX_TOKEN_LEN && v != [] && v[0] != OPEN
    ensures Rewrite(m, g + t + rest) != g + v + r
  {
    TokenBytes(t);
    Associate(g, t, rest);
    RewriteSplit(m, g, t + rest);
    RewriteNoHit(m, g);
    LongTokenPasses(m, t, rest);
    CutDiffers(g, v, r, Rewrite(m, t + rest));
  }

  lemma CutDiffers(g: Bytes, v: Bytes, r: Bytes, x: Bytes)
    requires v != [] && x != [] && v[0] != x[0]
    ensures g + v + r != g + x
  {
    assert (g + v + r)[|g|] == v[0] && (g + x)[|g|] == x[0];
  }

  /**
   Exactly when a text comes back: given that no masked value starts with `[`, restoring the
   masked text yields the original if and only if no unmasked stretch holds a known token
   and every token used is at most 64 bytes.
   */
  lemma {:induction false} RestoredIffClean(m: map<Bytes, Bytes>, p: Marked)
    requires Known(m, p) && Blunt(m)
    ensures Rewrite(m, MaskedText(p)) == Original(p) <==> Clean(m, p)
  {
    if !NoHit(m, p.gap) {
      var rest := if p.Cut? then p.token + MaskedText(p.rest) else [];
      assert MaskedText(p) == p.gap + rest;
      DirtyGap(m, p.gap, rest);
      var i :| DropsAt(p.gap, Rewrite(m, MaskedText(p)), i);
      assert Original(p)[i] == p.gap[i];
    } else if p.Tail? {
      RewriteNoHit(m, p.gap);
    } else {
      RewriteNoHit(m, p.gap);
      TokenBytes(p.token);
      var tail := MaskedText(p.rest);
      if |p.token| > MAX_TOKEN_LEN {
        LongTokenStays(m, p.gap, p.token, tail, p.value, Original(p.rest));
      } else {
        RewriteOccurrence(m, p.gap, p.token, tail);
        RestoredIffClean(m, p.rest);
        SameTails(p.gap + p.value, Rewrite(m, tail), Original(p.rest));
      }
    }
  }

  lemma SameTails(a: Bytes, b: Bytes, c: Bytes)
    ensures a + b == a + c <==> b == c
  {
    if a + b == a + c {
      assert b == (a + b)[|a|..] && c == (a + c)[|a|..];
    }
  }

  // ---------------------------------------------------------------- opaque text

  /** No masked value of the cut is changed by JSON escaping. */
  ghost predicate NeedsNoEscape(p: Marked) {
    p.Cut? ==> Escape(true, p.value) == p.value && NeedsNoEscape(p.rest)
  }

  lemma {:induction false} EscapedLonger(p: Marked)
    ensures |EscapedOriginal(p)| >= |Original(p)|
    ensures |EscapedOriginal(p)| == |Original(p)| <==> NeedsNoEscape(p)
    ensures NeedsNoEscape(p) ==> EscapedOriginal(p) == Original(p)
  {
    if p.Tail? {
    } else {
      EscapeGrows(true, p.value);
      EscapedLonger(p.rest);
    }
  }

  /** A session that masks one opaque text. */
  ghost function MarkOpaque(det: Detectors, text: Bytes): (Marked, SessionState) {
    MarkText(det, text, FRESH)
  }

  lemma MarkTextKeeps(det: Detectors, text: Bytes, st: SessionState)
    requires InRange(det) && Consistent(st)
    ensures var (p, st1) := MarkText(det, text, st);
            && Original(p) == text
            && Consistent(st1) && Extends(st, st1) && Known(st1.mapping, p)
            && |st1.mapping| <= |st.mapping| + |text|
            && (ShortKinds(det) && LettersAtMost(st, 53) ==> LettersAtMost(st1, 53))
  {
    KeptFits(det, text);
    MarkCuts(text, Kept(det, text), 0, st);
    MarkKeeps(text, Kept(det, text), 0, st);
  }

  /**
   Plain-text round trip: restoring a masked opaque text gives the text with each masked
   value JSON-escaped, and so the text itself exactly when no masked value needs escaping.
   */
  lemma OpaqueRoundTrip(det: Detectors, text: Bytes)
    requires InRange(det)
    ensures var (p, st) := MarkOpaque(det, text);
            Clean(st.mapping, p) ==>
              && Rewrite(Spliced(st.mapping), MaskedText(p)) == EscapedOriginal(p)
              && (Rewrite(Spliced(st.mapping), MaskedText(p)) == text <==> NeedsNoEscape(p))
  {
    var (p, st) := MarkOpaque(det, text);
    FreshConsistent();
    MarkTextKeeps(det, text, FRESH);
    if Clean(st.mapping, p) {
      CleanSpliced(st.mapping, p);
      CleanExpands(st.mapping, Spliced(st.mapping), p);
      ExpandValues(st.mapping, p);
      EscapedLonger(p);
    }
  }
}
