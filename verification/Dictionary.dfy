/**
 The custom dictionary: words are searched in a case-folded copy of the text, in which runes
 may have other lengths, and their positions are carried back to the original.
 */
module Dictionary {
  import opened ByteStrings
  import opened Utf8
  import opened TokenGrammar
  import opened Spans
  import opened WholeWords

  const CUSTOM: Bytes := [0x43, 0x55, 0x53, 0x54, 0x4F, 0x4D]

  /** The byte offset of the k-th rune. */
  function Off(rs: seq<Rune>, k: nat): nat
    requires k <= |rs|
  {
    if k == 0 then 0 else Off(rs, k - 1) + |rs[k - 1]|
  }

  lemma {:induction false} OffIs(rs: seq<Rune>, k: nat)
    requires k <= |rs|
    ensures Off(rs, k) == |Encode(rs[..k])|
  {
    if k == 0 {
    } else {
      OffIs(rs, k - 1);
      assert rs[..k] == rs[..k - 1] + [rs[k - 1]];
      EncodeAppend(rs[..k - 1], [rs[k - 1]]);
      assert [rs[k - 1]][1..] == [];
    }
  }

  lemma {:induction false} OffHead(rs: seq<Rune>, k: nat)
    requires 0 < k <= |rs|
    ensures Off(rs, k) == |rs[0]| + Off(rs[1..], k - 1)
  {
    if k == 1 {
    } else {
      OffHead(rs, k - 1);
    }
  }

  lemma {:induction false} OffMonotone(rs: seq<Rune>, j: nat, k: nat)
    requires j <= k <= |rs|
    ensures Off(rs, j) + (k - j) <= Off(rs, k)
    decreases k - j
  {
    if j == k {
    } else {
      OffMonotone(rs, j, k - 1);
    }
  }

  /** A text cut at rune offsets. */
  lemma EncodeSlice(rs: seq<Rune>, j: nat, k: nat)
    requires j <= k <= |rs|
    ensures Off(rs, j) <= Off(rs, k) <= |Encode(rs)|
    ensures Encode(rs)[Off(rs, j)..Off(rs, k)] == Encode(rs[j..k])
    ensures Encode(rs)[..Off(rs, j)] == Encode(rs[..j]) && Encode(rs)[Off(rs, k)..] == Encode(rs[k..])
  {
    assert rs == rs[..j] + rs[j..k] + rs[k..] && rs[..k] == rs[..j] + rs[j..k];
    EncodeAppend(rs[..j] + rs[j..k], rs[k..]);
    EncodeAppend(rs[..j], rs[j..k]);
    OffIs(rs, j);
    OffIs(rs, k);
  }

  // ---------------------------------------------------------------- folding

  function Repeat(n: nat, x: nat): seq<nat> { seq(n, i => x) }

  /** For every byte of the folded text, and for its end, the original offset of its rune. */
  function OrigOf(u: Tables<Rune>, text: seq<Rune>, base: nat): seq<nat> {
    if text == [] then [base]
    else Repeat(|u.lower(text[0])|, base) + OrigOf(u, text[1..], base + |text[0]|)
  }

  lemma LoweredHead(u: Tables<Rune>, text: seq<Rune>)
    requires text != []
    ensures var f := Lowered(u, text); f[0] == u.lower(text[0]) && f[1..] == Lowered(u, text[1..])
  {
    assert ([u.lower(text[0])] + Lowered(u, text[1..]))[1..] == Lowered(u, text[1..]);
  }

  /** What is folded so far, followed by what folding the rest yields. */
  ghost function Folding(u: Tables<Rune>, rest: seq<Rune>, i: nat, folded: Bytes, origOf: seq<nat>): (Bytes, seq<nat>) {
    (folded + Encode(Lowered(u, rest)), origOf + OrigOf(u, rest, i))
  }

  lemma FoldingStep(u: Tables<Rune>, rest: seq<Rune>, r: Rune, t: seq<Rune>, i: nat, folded: Bytes, origOf: seq<nat>)
    requires rest != [] && rest[0] == r && rest[1..] == t
    ensures var low := u.lower(r);
            Folding(u, t, i + |r|, folded + low, origOf + Repeat(|low|, i)) == Folding(u, rest, i, folded, origOf)
  {
    LoweredHead(u, rest);
    Associate(folded, u.lower(r), Encode(Lowered(u, t)));
    Associate(origOf, Repeat(|u.lower(r)|, i), OrigOf(u, t, i + |r|));
  }

  lemma RunesCons(t: Bytes)
    requires t != [] && Valid(t)
    ensures var n := RuneLen(t);
            0 < n <= |t| && IsRune(t[..n]) && Valid(t[n..]) && Runes(t) == [t[..n]] + Runes(t[n..])
  {
    HeadRune(t, []);
  }

  lemma HeadOf(s: Bytes, i: nat, n: nat)
    requires i < |s| && Valid(s[i..]) && n == RuneLen(s[i..])
    ensures 0 < n && i + n <= |s| && IsRune(s[i..i + n]) && Valid(s[i + n..])
    ensures Runes(s[i..])[0] == s[i..i + n] && Runes(s[i..])[1..] == Runes(s[i + n..]) && Runes(s[i..]) != []
  {
    RunesCons(s[i..]);
    assert s[i..][..n] == s[i..i + n] && s[i..][n..] == s[i + n..];
  }

  /** The same for a text in bytes, folded up to i. */
  ghost function FoldingFrom(u: Tables<Rune>, s: Bytes, i: nat, folded: Bytes, origOf: seq<nat>): (Bytes, seq<nat>)
    requires i <= |s| && Valid(s[i..])
  {
    Folding(u, Runes(s[i..]), i, folded, origOf)
  }

  ghost predicate FoldsTo(u: Tables<Rune>, s: Bytes, i: nat, folded: Bytes, origOf: seq<nat>,
                          whole: (Bytes, seq<nat>))
    requires i <= |s| && Valid(s[i..])
  {
    FoldingFrom(u, s, i, folded, origOf) == whole
  }

  /** So far, the text has been folded up to byte i, and folding the rest will make up the whole. */
  ghost predicate FoldedTo(u: Tables<Rune>, s: Bytes, i: nat, folded: Bytes, origOf: seq<nat>,
                           whole: (Bytes, seq<nat>)) {
    i <= |s| && Valid(s[i..]) && FoldsTo(u, s, i, folded, origOf, whole)
  }

  lemma FoldingOnce(u: Tables<Rune>, s: Bytes, i: nat, n: nat, folded: Bytes, origOf: seq<nat>,
                    whole: (Bytes, seq<nat>))
    requires FoldedTo(u, s, i, folded, origOf, whole) && i < |s| && n == RuneLen(s[i..])
    ensures 0 < n && i + n <= |s| && IsRune(s[i..i + n])
    ensures var low := u.lower(s[i..i + n]);
            FoldedTo(u, s, i + n, folded + low, origOf + Repeat(|low|, i), whole)
  {
    HeadOf(s, i, n);
    var r: Rune := s[i..i + n];
    assert i + n == i + |r|;
    FoldingStep(u, Runes(s[i..]), r, Runes(s[i + n..]), i, folded, origOf);
  }

  lemma FoldingStarts(u: Tables<Rune>, s: Bytes)
    requires Valid(s)
    ensures FoldedTo(u, s, 0, [], [], (Encode(Lowered(u, Runes(s))), OrigOf(u, Runes(s), 0)))
  {
    assert s[0..] == s;
    assert [] + Encode(Lowered(u, Runes(s))) == Encode(Lowered(u, Runes(s)));
    assert [] + OrigOf(u, Runes(s), 0) == OrigOf(u, Runes(s), 0);
  }

  lemma FoldingEnds(u: Tables<Rune>, s: Bytes, folded: Bytes, origOf: seq<nat>, whole: (Bytes, seq<nat>))
    requires FoldedTo(u, s, |s|, folded, origOf, whole)
    ensures (folded, origOf + [|s|]) == whole
  {
    assert s[|s|..] == [];
    assert folded + [] == folded;
  }

  /** Rune by rune, the loop builds the folded text and the offset table. */
  method FoldForMatch(u: Tables<Rune>, s: Bytes) returns (folded: Bytes, origOf: seq<nat>)
    requires Valid(s)
    ensures folded == Encode(Lowered(u, Runes(s)))
    ensures origOf == OrigOf(u, Runes(s), 0)
  {
    folded, origOf := [], [];
    var i := 0;
    ghost var whole := (Encode(Lowered(u, Runes(s))), OrigOf(u, Runes(s), 0));
    FoldingStarts(u, s);
    while i < |s|
      invariant i <= |s| && FoldedTo(u, s, i, folded, origOf, whole)
      decreases |s| - i
    {
      var n := RuneLen(s[i..]);
      FoldingOnce(u, s, i, n, folded, origOf, whole);
      var low := u.lower(s[i..i + n]);
      origOf := origOf + Repeat(|low|, i);
      folded := folded + low;
      i := i + n;
    }
    FoldingEnds(u, s, folded, origOf, whole);
    origOf := origOf + [|s|];
  }

  /** The table takes the offset of a folded rune to the offset of the original one. */
  lemma {:induction false} OrigOfAt(u: Tables<Rune>, text: seq<Rune>, base: nat, k: nat)
    requires k <= |text|
    ensures |OrigOf(u, text, base)| == |Encode(Lowered(u, text))| + 1
    ensures Off(Lowered(u, text), k) <= |Encode(Lowered(u, text))|
    ensures OrigOf(u, text, base)[Off(Lowered(u, text), k)] == base + Off(text, k)
    decreases |text|
  {
    var f := Lowered(u, text);
    assert Off(f, k) <= |Encode(f)| by { EncodeSlice(f, k, k); }
    if text == [] {
    } else {
      var t, low := text[1..], u.lower(text[0]);
      LoweredHead(u, text);
      OrigOfAt(u, t, base + |text[0]|, if k == 0 then 0 else k - 1);
      if k > 0 {
        OffHead(f, k);
        OffHead(text, k);
        assert OrigOf(u, text, base)[Off(f, k)] == OrigOf(u, t, base + |text[0]|)[Off(f, k) - |low|];
      }
    }
  }

  // ---------------------------------------------------------------- searching

  predicate MatchesAt(s: Bytes, w: Bytes, j: nat) { j + |w| <= |s| && s[j..j + |w|] == w }

  /** strings.Index, from an offset on: the first match, or the end when there is none. */
  function IndexFrom(s: Bytes, w: Bytes, from: nat): (j: nat)
    requires from <= |s|
    ensures from <= j
    decreases |s| - from
  {
    if MatchesAt(s, w, from) then from
    else if from == |s| then |s| + 1
    else IndexFrom(s, w, from + 1)
  }

  lemma {:induction false} IndexIsFirst(s: Bytes, w: Bytes, from: nat)
    requires from <= |s|
    ensures IndexFrom(s, w, from) <= |s| ==> MatchesAt(s, w, IndexFrom(s, w, from))
    ensures forall i | from <= i < IndexFrom(s, w, from) :: !MatchesAt(s, w, i)
    decreases |s| - from
  {
    if MatchesAt(s, w, from) || from == |s| {
    } else {
      IndexIsFirst(s, w, from + 1);
    }
  }

  /** UTF-8 synchronises itself: a byte that is not a trail byte starts a rune. */
  lemma {:induction false} LeadIsBoundary(rs: seq<Rune>, j: nat) returns (k: nat)
    requires j < |Encode(rs)| && !IsTrail(Encode(rs)[j])
    ensures k < |rs| && j == Off(rs, k)
    decreases |rs|
  {
    if j == 0 {
      return 0;
    }
    var r, t := rs[0], rs[1..];
    assert forall i | 0 <= i < |r| :: Encode(rs)[i] == r[i];
    assert forall i | 1 <= i < |r| :: IsTrail(r[i]);
    assert Encode(t)[j - |r|] == Encode(rs)[j];
    var i := LeadIsBoundary(t, j - |r|);
    OffHead(rs, i + 1);
    return i + 1;
  }

  lemma {:induction false} PrefixRunes(w: seq<Rune>, g: seq<Rune>)
    requires Encode(w) <= Encode(g)
    ensures w <= g
  {
    if w == [] {
    } else {
      var more := Encode(g)[|Encode(w)|..];
      assert Encode(g) == w[0] + (Encode(w[1..]) + more);
      RuneThen(w[0], Encode(w[1..]) + more);
      assert g != [];
      RuneThen(g[0], Encode(g[1..]));
      assert Encode(g)[|w[0]|..] == Encode(w[1..]) + more;
      PrefixRunes(w[1..], g[1..]);
      assert w == [w[0]] + w[1..] && g == [g[0]] + g[1..];
    }
  }

  /** Byte matches of an encoded word are exactly its rune matches. */
  lemma MatchIsOccurrence(f: seq<Rune>, w: seq<Rune>, j: nat) returns (k: nat)
    requires w != [] && MatchesAt(Encode(f), Encode(w), j)
    ensures k <= |f| && j == Off(f, k) && OccursAt(f, w, k)
  {
    var s, x := Encode(f), Encode(w);
    assert x[0] == w[0][0] && s[j] == s[j..j + |x|][0];
    k := LeadIsBoundary(f, j);
    EncodeSlice(f, k, k);
    assert s[j..] == Encode(f[k..]);
    assert x == s[j..][..|x|];
    PrefixRunes(w, f[k..]);
    assert f[k..][..|w|] == f[k..k + |w|];
  }

  lemma OccurrenceIsMatch(f: seq<Rune>, w: seq<Rune>, k: nat)
    requires OccursAt(f, w, k)
    ensures MatchesAt(Encode(f), Encode(w), Off(f, k)) && Off(f, k + |w|) == Off(f, k) + |Encode(w)|
  {
    var start, end := Off(f, k), Off(f, k + |w|);
    EncodeSlice(f, k, k + |w|);
    assert |Encode(f)[start..end]| == end - start;
    assert start + |Encode(w)| == end;
  }

  lemma IndexAtMost(s: Bytes, w: Bytes, from: nat, i: nat)
    requires from <= i && from <= |s| && MatchesAt(s, w, i)
    ensures IndexFrom(s, w, from) <= i
  {
    IndexIsFirst(s, w, from);
  }

  lemma OccursAtMost(f: seq<Rune>, w: seq<Rune>, from: nat, i: nat)
    requires from <= i && from <= |f| && OccursAt(f, w, i)
    ensures OccursFrom(f, w, from) <= i <= |f|
  {
    OccursFirst(f, w, from);
  }

  /** The byte search finds an occurrence, or something before it. */
  lemma OccurrenceIsFound(f: seq<Rune>, w: seq<Rune>, from: nat, k: nat)
    requires from <= k && OccursAt(f, w, k)
    ensures Off(f, from) <= |Encode(f)| && IndexFrom(Encode(f), Encode(w), Off(f, from)) <= Off(f, k)
    ensures Off(f, k) + |Encode(w)| == Off(f, k + |w|) <= |Encode(f)|
  {
    EncodeSlice(f, from, k);
    EncodeSlice(f, k, k + |w|);
    OccurrenceIsMatch(f, w, k);
    IndexAtMost(Encode(f), Encode(w), Off(f, from), Off(f, k));
  }

  /** What the byte search finds is an occurrence, none of which comes before it. */
  lemma FoundIsOccurrence(f: seq<Rune>, w: seq<Rune>, from: nat, j: nat)
    requires w != [] && from <= |f| && Off(f, from) <= j && MatchesAt(Encode(f), Encode(w), j)
    ensures OccursFrom(f, w, from) <= |f| && Off(f, OccursFrom(f, w, from)) <= j
  {
    var i := MatchIsOccurrence(f, w, j);
    if i < from { OffMonotone(f, i, from); }
    OccursAtMost(f, w, from, i);
    OffMonotone(f, OccursFrom(f, w, from), i);
  }

  lemma OffInside(rs: seq<Rune>, k: nat)
    requires k <= |rs|
    ensures Off(rs, k) <= |Encode(rs)|
  {
    EncodeSlice(rs, k, k);
  }

  lemma NextIsFound(f: seq<Rune>, w: seq<Rune>, from: nat)
    requires from <= |f|
    ensures Off(f, from) <= |Encode(f)|
    ensures var j, k := IndexFrom(Encode(f), Encode(w), Off(f, from)), OccursFrom(f, w, from);
            k <= |f| ==>
              && j <= Off(f, k) <= |Encode(f)|
              && k + |w| <= |f| && Off(f, k) + |Encode(w)| == Off(f, k + |w|)
  {
    OffInside(f, from);
    if OccursFrom(f, w, from) <= |f| { OccurrenceIsFound(f, w, from, OccursFrom(f, w, from)); }
  }

  lemma FoundIsNext(f: seq<Rune>, w: seq<Rune>, from: nat)
    requires w != [] && from <= |f| && Off(f, from) <= |Encode(f)|
    ensures var j, k := IndexFrom(Encode(f), Encode(w), Off(f, from)), OccursFrom(f, w, from);
            j <= |Encode(f)| ==> k <= |f| && Off(f, k) <= j
  {
    IndexIsFirst(Encode(f), Encode(w), Off(f, from));
    var j := IndexFrom(Encode(f), Encode(w), Off(f, from));
    if j <= |Encode(f)| { FoundIsOccurrence(f, w, from, j); }
  }

  /** The first match in bytes is the first occurrence in runes. */
  lemma IndexIsOccurs(f: seq<Rune>, w: seq<Rune>, from: nat)
    requires w != [] && from <= |f|
    ensures Off(f, from) <= |Encode(f)|
    ensures var j, k := IndexFrom(Encode(f), Encode(w), Off(f, from)), OccursFrom(f, w, from);
            && (j <= |Encode(f)| <==> k <= |f|)
            && (k <= |f| ==> k + |w| <= |f| && j == Off(f, k) && j + |Encode(w)| == Off(f, k + |w|))
  {
    NextIsFound(f, w, from);
    FoundIsNext(f, w, from);
  }

  // ---------------------------------------------------------------- word boundaries

  /** utf8.DecodeLastRuneInString: steps back over trail bytes, at most four bytes in all. */
  function LastStart(s: Bytes): (i: nat)
    requires s != []
    ensures i < |s|
  {
    var n := |s|;
    if !IsTrail(s[n - 1]) then n - 1
    else if n >= 2 && !IsTrail(s[n - 2]) then n - 2
    else if n >= 3 && !IsTrail(s[n - 3]) then n - 3
    else if n >= 4 then n - 4
    else 0
  }

  const REPLACEMENT: Bytes := [0xEF, 0xBF, 0xBD]

  function LastRune(s: Bytes): Rune
    requires s != []
  {
    var r := s[LastStart(s)..];
    if IsRune(r) then r else REPLACEMENT
  }

  function FirstRune(s: Bytes): Rune
    requires s != []
  {
    HeadRuneOrNone(s);
    if RuneLen(s) > 0 then s[..RuneLen(s)] else REPLACEMENT
  }

  lemma HeadRuneOrNone(s: Bytes)
    ensures RuneLen(s) > 0 ==> IsRune(s[..RuneLen(s)])
  {
    if RuneLen(s) > 0 { HeadRune(s, []); }
  }

  function WordBounded(u: Tables<Rune>, text: Bytes, start: nat, end: nat): bool
    requires start <= end <= |text|
  {
    && (start > 0 ==> !u.word(LastRune(text[..start])))
    && (end < |text| ==> !u.word(FirstRune(text[end..])))
  }

  lemma LastRuneOf(s: Bytes, r: Rune)
    ensures LastRune(s + r) == r
  {
    var t := s + r;
    assert forall i | 0 <= i < |r| :: t[|s| + i] == r[i];
    assert RuneLen(r) == |r|;
    assert LastStart(t) == |s|;
    assert t[|s|..] == r;
  }

  lemma BeforeInBytes(text: seq<Rune>, k: nat)
    requires 0 < k <= |text|
    ensures 0 < Off(text, k) <= |Encode(text)| && LastRune(Encode(text)[..Off(text, k)]) == text[k - 1]
  {
    var a, r := text[..k - 1], text[k - 1];
    EncodeSlice(text, k, k);
    OffIs(text, k - 1);
    assert text[..k] == a + [r];
    EncodeAppend(a, [r]);
    assert [r][1..] == [] && Encode([r]) == r;
    LastRuneOf(Encode(a), r);
  }

  lemma AfterInBytes(text: seq<Rune>, l: nat)
    requires l < |text|
    ensures Off(text, l) < |Encode(text)| && FirstRune(Encode(text)[Off(text, l)..]) == text[l]
  {
    EncodeSlice(text, l, l);
    assert text[l..][0] == text[l];
    RuneThen(text[l], Encode(text[l..][1..]));
  }

  /** The byte test at rune offsets is the rune test. */
  lemma BoundedInBytes(u: Tables<Rune>, text: seq<Rune>, k: nat, l: nat)
    requires k <= l <= |text|
    ensures Off(text, k) <= Off(text, l) <= |Encode(text)|
    ensures WordBounded(u, Encode(text), Off(text, k), Off(text, l)) <==> Bounded(u, text, k, l)
  {
    OffMonotone(text, k, l);
    assert Off(text, l) <= |Encode(text)| && (l == |text| ==> Off(text, l) == |Encode(text)|) by {
      EncodeSlice(text, l, l);
      if l == |text| { assert text[..l] == text; }
    }
    if k > 0 { BeforeInBytes(text, k); }
    if l < |text| { AfterInBytes(text, l); }
  }

  // ---------------------------------------------------------------- collecting

  function SpanAt(text: seq<Rune>, k: nat, l: nat): Span
    requires k <= l <= |text|
  {
    Span(Off(text, k), Off(text, l), CUSTOM)
  }

  /** What a hit of a word of that many runes adds to the report. */
  function SpansAt(u: Tables<Rune>, text: seq<Rune>, len: nat): nat -> seq<Span> {
    (k: nat) => if k + len <= |text| && Bounded(u, text, k, k + len) then [SpanAt(text, k, k + len)] else []
  }

  /** What the scan reports for one word. */
  function Reported(u: Tables<Rune>, text: seq<Rune>, w: seq<Rune>): seq<Span>
    requires w != []
  {
    Gathered(SpansAt(u, text, |w|), Hits(Lowered(u, text), w, 0))
  }

  ghost predicate CarriesRune(t: seq<Rune>, f: seq<Rune>, origOf: seq<nat>, k: nat)
    requires k <= |t| == |f|
  {
    Off(f, k) < |origOf| && origOf[Off(f, k)] == Off(t, k)
  }

  /** The table takes the offset of every folded rune to the offset of the original one. */
  ghost predicate CarriesBack(t: seq<Rune>, f: seq<Rune>, origOf: seq<nat>) {
    |f| == |t| && forall k: nat | k <= |t| :: CarriesRune(t, f, origOf, k)
  }

  lemma TableCarriesBack(u: Tables<Rune>, t: seq<Rune>)
    ensures CarriesBack(t, Lowered(u, t), OrigOf(u, t, 0))
  {
    forall k: nat | k <= |t|
      ensures CarriesRune(t, Lowered(u, t), OrigOf(u, t, 0), k)
    {
      OrigOfAt(u, t, 0, k);
    }
  }

  lemma RangeCarried(t: seq<Rune>, f: seq<Rune>, origOf: seq<nat>, k: nat, l: nat)
    requires CarriesBack(t, f, origOf) && k <= l <= |t|
    ensures Off(f, k) <= Off(f, l) < |origOf|
    ensures origOf[Off(f, k)] == Off(t, k) <= origOf[Off(f, l)] == Off(t, l) <= |Encode(t)|
  {
    assert CarriesRune(t, f, origOf, k) && CarriesRune(t, f, origOf, l);
    OffMonotone(f, k, l);
    EncodeSlice(t, k, l);
  }

  /** What is reported for the bytes of a match, if they are a whole word. */
  function SpanIfWord(u: Tables<Rune>, text: Bytes, start: nat, end: nat): seq<Span>
    requires start <= end <= |text|
  {
    if WordBounded(u, text, start, end) then [Span(start, end, CUSTOM)] else []
  }

  lemma SpanInBytes(u: Tables<Rune>, t: seq<Rune>, k: nat, len: nat, text: Bytes, start: nat, end: nat)
    requires k + len <= |t| && text == Encode(t) && start == Off(t, k) && end == Off(t, k + len)
    ensures start <= end <= |text| && SpanIfWord(u, text, start, end) == SpansAt(u, t, len)(k)
  {
    BoundedInBytes(u, t, k, k + len);
  }

  /** The match of an occurrence, taken back to the original text, and the test made there. */
  lemma HitInOriginal(u: Tables<Rune>, t: seq<Rune>, f: seq<Rune>, w: seq<Rune>, k: nat,
                      text: Bytes, origOf: seq<nat>, start: nat, end: nat)
    requires CarriesBack(t, f, origOf) && k + |w| <= |f|
    requires text == Encode(t) && start == Off(f, k) && end == Off(f, k + |w|)
    ensures start <= end < |origOf| && origOf[start] <= origOf[end] <= |text|
    ensures SpanIfWord(u, text, origOf[start], origOf[end]) == SpansAt(u, t, |w|)(k)
  {
    RangeCarried(t, f, origOf, k, k + |w|);
    SpanInBytes(u, t, k, |w|, text, origOf[start], origOf[end]);
  }

  // ---------------------------------------------------------------- the scan over the folded bytes

  /** Byte j is where the search ends that ends at rune k. */
  ghost predicate EndsTogether(j: nat, k: nat, bytes: nat, runes: nat, width: nat, len: nat, offsetOf: nat -> nat) {
    && (j <= bytes <==> k <= runes)
    && (k <= runes ==> j == offsetOf(k) && j + width == offsetOf(k + len))
  }

  /** Searching the bytes from the offset of a rune on is searching the runes from there on. */
  ghost predicate SearchesAt<T>(f: seq<T>, w: seq<T>, folded: Bytes, word: Bytes, offsetOf: nat -> nat, from: nat)
    requires from <= |f|
  {
    && offsetOf(from) <= |folded|
    && EndsTogether(IndexFrom(folded, word, offsetOf(from)), OccursFrom(f, w, from),
                    |folded|, |f|, |word|, |w|, offsetOf)
  }

  ghost predicate Searches<T>(f: seq<T>, w: seq<T>, folded: Bytes, word: Bytes, offsetOf: nat -> nat) {
    forall from: nat | from <= |f| :: SearchesAt(f, w, folded, word, offsetOf, from)
  }

  /** The match at rune k, taken back to the original text, yields these spans. */
  ghost predicate ReportsAt(u: Tables<Rune>, text: Bytes, origOf: seq<nat>, len: nat,
                            offsetOf: nat -> nat, at: nat -> seq<Span>, k: nat) {
    var start, end := offsetOf(k), offsetOf(k + len);
    && start <= end < |origOf| && origOf[start] <= origOf[end] <= |text|
    && SpanIfWord(u, text, origOf[start], origOf[end]) == at(k)
  }

  ghost predicate Reports<T(!new)>(u: Tables<Rune>, text: Bytes, origOf: seq<nat>, f: seq<T>, w: seq<T>,
                                   offsetOf: nat -> nat, at: nat -> seq<Span>) {
    forall k: nat | OccursAt(f, w, k) :: ReportsAt(u, text, origOf, |w|, offsetOf, at, k)
  }

  /** The scan has come to rune `from`, at byte off. */
  ghost predicate CameTo<T>(f: seq<T>, w: seq<T>, folded: Bytes, word: Bytes, offsetOf: nat -> nat,
                            at: nat -> seq<Span>, from: nat, off: nat, spans: seq<Span>, whole: seq<Span>) {
    && off == offsetOf(from) && OnItsWay(f, w, at, from, spans, whole)
    && SearchesAt(f, w, folded, word, offsetOf, from)
  }

  lemma ScanEnds<T>(f: seq<T>, w: seq<T>, folded: Bytes, word: Bytes, offsetOf: nat -> nat, at: nat -> seq<Span>,
                    from: nat, off: nat, spans: seq<Span>, whole: seq<Span>)
    requires CameTo(f, w, folded, word, offsetOf, at, from, off, spans, whole)
    requires off <= |folded| < IndexFrom(folded, word, off)
    ensures spans == whole
  {
    GatheringEnds(f, w, at, from, spans, whole);
  }

  lemma MatchIsHit(j: nat, k: nat, bytes: nat, runes: nat, width: nat, len: nat, offsetOf: nat -> nat,
                   next: nat, end: nat)
    requires EndsTogether(j, k, bytes, runes, width, len, offsetOf) && j <= bytes
    requires next == k + len && end == j + width
    ensures k <= runes && j == offsetOf(k) && end == offsetOf(next)
  {
  }

  lemma MatchReports(u: Tables<Rune>, text: Bytes, origOf: seq<nat>, len: nat,
                     offsetOf: nat -> nat, at: nat -> seq<Span>, k: nat, start: nat, next: nat, end: nat)
    requires ReportsAt(u, text, origOf, len, offsetOf, at, k)
    requires start == offsetOf(k) && next == k + len && end == offsetOf(next)
    ensures start <= end < |origOf| && origOf[start] <= origOf[end] <= |text|
    ensures SpanIfWord(u, text, origOf[start], origOf[end]) == at(k)
  {
  }

  /** One turn: the next match, taken back to the original text, and what it yields. */
  lemma ScanTurn<T(!new)>(u: Tables<Rune>, text: Bytes, origOf: seq<nat>, f: seq<T>, w: seq<T>,
                          folded: Bytes, word: Bytes, offsetOf: nat -> nat, at: nat -> seq<Span>,
                          from: nat, off: nat, spans: seq<Span>, whole: seq<Span>, start: nat, end: nat)
    returns (next: nat)
    requires Searches(f, w, folded, word, offsetOf) && Reports(u, text, origOf, f, w, offsetOf, at)
    requires CameTo(f, w, folded, word, offsetOf, at, from, off, spans, whole)
    requires off <= |folded| && start == IndexFrom(folded, word, off) <= |folded| && end == start + |word|
    ensures from < next <= |f| && start <= end < |origOf| && origOf[start] <= origOf[end] <= |text| && end <= |folded|
    ensures CameTo(f, w, folded, word, offsetOf, at, next, end,
                   spans + SpanIfWord(u, text, origOf[start], origOf[end]), whole)
  {
    var k := OccursFrom(f, w, from);
    next := k + |w|;
    MatchIsHit(start, k, |folded|, |f|, |word|, |w|, offsetOf, next, end);
    assert ReportsAt(u, text, origOf, |w|, offsetOf, at, k);
    MatchReports(u, text, origOf, |w|, offsetOf, at, k, start, next, end);
    GatheringHit(f, w, at, from, spans, whole, k, next, SpanIfWord(u, text, origOf[start], origOf[end]));
    assert SearchesAt(f, w, folded, word, offsetOf, next);
  }

  /** The loop of the scan: it gathers what the hits yield, in order. */
  method ScanAll<T(!new)>(u: Tables<Rune>, text: Bytes, folded: Bytes, origOf: seq<nat>, word: Bytes,
                          ghost f: seq<T>, ghost w: seq<T>, ghost offsetOf: nat -> nat, ghost at: nat -> seq<Span>)
    returns (spans: seq<Span>)
    requires w != [] && offsetOf(0) == 0 && Searches(f, w, folded, word, offsetOf)
    requires Reports(u, text, origOf, f, w, offsetOf, at)
    ensures spans == Gathered(at, Hits(f, w, 0))
  {
    spans := [];
    var off := 0;
    ghost var from, whole := 0, Gathered(at, Hits(f, w, 0));
    GatheringStarts(f, w, at);
    assert SearchesAt(f, w, folded, word, offsetOf, 0);
    while true
      invariant from <= |f| && off <= |folded|
      invariant CameTo(f, w, folded, word, offsetOf, at, from, off, spans, whole)
      decreases |f| - from
    {
      var start := IndexFrom(folded, word, off);
      if start > |folded| {
        ScanEnds(f, w, folded, word, offsetOf, at, from, off, spans, whole);
        return;
      }
      var end := start + |word|;
      from := ScanTurn(u, text, origOf, f, w, folded, word, offsetOf, at, from, off, spans, whole, start, end);
      spans := spans + SpanIfWord(u, text, origOf[start], origOf[end]);
      off := end;
    }
  }

  ghost predicate GivesOffset(f: seq<Rune>, offsetOf: nat -> nat, k: nat)
    requires k <= |f|
  {
    offsetOf(k) == Off(f, k)
  }

  ghost predicate GivesOffsets(f: seq<Rune>, offsetOf: nat -> nat) {
    forall k: nat | k <= |f| :: GivesOffset(f, offsetOf, k)
  }

  lemma OffsetsEnd(f: seq<Rune>, offsetOf: nat -> nat, j: nat, k: nat, bytes: nat, width: nat, len: nat)
    requires GivesOffsets(f, offsetOf)
    requires j <= bytes <==> k <= |f|
    requires k <= |f| ==> k + len <= |f| && j == Off(f, k) && j + width == Off(f, k + len)
    ensures EndsTogether(j, k, bytes, |f|, width, len, offsetOf)
  {
    if k <= |f| {
      assert GivesOffset(f, offsetOf, k) && GivesOffset(f, offsetOf, k + len);
    }
  }

  lemma RunesSearchAt(f: seq<Rune>, w: seq<Rune>, folded: Bytes, word: Bytes, offsetOf: nat -> nat, from: nat)
    requires w != [] && folded == Encode(f) && word == Encode(w) && from <= |f|
    requires GivesOffsets(f, offsetOf)
    ensures SearchesAt(f, w, folded, word, offsetOf, from)
  {
    IndexIsOccurs(f, w, from);
    assert GivesOffset(f, offsetOf, from);
    OffsetsEnd(f, offsetOf, IndexFrom(folded, word, offsetOf(from)), OccursFrom(f, w, from), |folded|, |word|, |w|);
  }

  lemma RunesSearch(f: seq<Rune>, w: seq<Rune>, folded: Bytes, word: Bytes, offsetOf: nat -> nat)
    requires w != [] && folded == Encode(f) && word == Encode(w)
    requires GivesOffsets(f, offsetOf)
    ensures Searches(f, w, folded, word, offsetOf)
  {
    forall from: nat | from <= |f|
      ensures SearchesAt(f, w, folded, word, offsetOf, from)
    {
      RunesSearchAt(f, w, folded, word, offsetOf, from);
    }
  }

  lemma RunesReport(u: Tables<Rune>, t: seq<Rune>, f: seq<Rune>, w: seq<Rune>, text: Bytes, origOf: seq<nat>,
                    offsetOf: nat -> nat)
    requires CarriesBack(t, f, origOf) && text == Encode(t)
    requires GivesOffsets(f, offsetOf)
    ensures Reports(u, text, origOf, f, w, offsetOf, SpansAt(u, t, |w|))
  {
    forall k: nat | OccursAt(f, w, k)
      ensures ReportsAt(u, text, origOf, |w|, offsetOf, SpansAt(u, t, |w|), k)
    {
      assert GivesOffset(f, offsetOf, k) && GivesOffset(f, offsetOf, k + |w|);
      HitInOriginal(u, t, f, w, k, text, origOf, Off(f, k), Off(f, k + |w|));
    }
  }

  /** The scan over the folded bytes reports exactly the spans of the rune scan. */
  method CollectWord(u: Tables<Rune>, text: Bytes, folded: Bytes, origOf: seq<nat>, word: Bytes)
    returns (spans: seq<Span>)
    requires Valid(text) && Valid(word) && word != []
    requires folded == Encode(Lowered(u, Runes(text))) && origOf == OrigOf(u, Runes(text), 0)
    ensures spans == Reported(u, Runes(text), Runes(word))
  {
    ghost var t, w := Runes(text), Runes(word);
    ghost var f := Lowered(u, t);
    ghost var offsetOf: nat -> nat := (k: nat) => if k <= |f| then Off(f, k) else 0;
    EncodeRunes(text);
    EncodeRunes(word);
    TableCarriesBack(u, t);
    RunesSearch(f, w, folded, word, offsetOf);
    RunesReport(u, t, f, w, text, origOf, offsetOf);
    spans := ScanAll(u, text, folded, origOf, word, f, w, offsetOf, SpansAt(u, t, |w|));
  }

  /** What is reported for a word; an empty one is never searched. */
  function ReportOf(u: Tables<Rune>, text: seq<Rune>): seq<Rune> -> seq<Span> {
    (w: seq<Rune>) => if w == [] then [] else Reported(u, text, w)
  }

  /** All words the matcher found, one after the other. */
  function ReportedAll(u: Tables<Rune>, text: seq<Rune>, words: seq<seq<Rune>>): seq<Span> {
    Gathered(ReportOf(u, text), words)
  }

  ghost predicate IsDictionary(dict: seq<Bytes>) {
    forall i | 0 <= i < |dict| :: Valid(dict[i]) && dict[i] != []
  }

  ghost function WordsOf(dict: seq<Bytes>, matched: seq<nat>): seq<seq<Rune>>
    requires IsDictionary(dict) && forall j | 0 <= j < |matched| :: matched[j] < |dict|
  {
    seq(|matched|, j requires 0 <= j < |matched| => Runes(dict[matched[j]]))
  }

  /** Collects the spans of the dictionary words that the matcher says occur, in its order. */
  method CollectCustom(u: Tables<Rune>, text: Bytes, dict: seq<Bytes>, matched: seq<nat>) returns (spans: seq<Span>)
    requires Valid(text) && IsDictionary(dict) && forall j | 0 <= j < |matched| :: matched[j] < |dict|
    ensures spans == ReportedAll(u, Runes(text), WordsOf(dict, matched))
  {
    var folded, origOf := FoldForMatch(u, text);
    ghost var words := WordsOf(dict, matched);
    spans := [];
    for j := 0 to |matched|
      invariant spans == ReportedAll(u, Runes(text), words[..j])
    {
      var word := dict[matched[j]];
      var found := CollectWord(u, text, folded, origOf, word);
      GatheredNext(ReportOf(u, Runes(text)), words, j);
      EncodeRunes(word);
      assert words[j] == Runes(word) != [];
      spans := spans + found;
    }
    assert words[..|matched|] == words;
  }

  // ---------------------------------------------------------------- what is reported is right

  ghost predicate CutsRunes(bytes: Bytes, s: Span) {
    && 0 <= s.start < s.end <= |bytes|
    && Valid(bytes[..s.start]) && Valid(bytes[..s.end]) && Valid(bytes[s.start..s.end])
  }

  lemma SliceCuts(text: seq<Rune>, k: nat, l: nat)
    requires k < l <= |text|
    ensures CutsRunes(Encode(text), SpanAt(text, k, l))
    ensures Encode(text)[Off(text, k)..Off(text, l)] == Encode(text[k..l])
  {
    EncodeSlice(text, k, l);
    EncodeSlice(text, l, l);
    OffMonotone(text, k, l);
    RunesEncode(text[..k]);
    RunesEncode(text[..l]);
    RunesEncode(text[k..l]);
  }

  /** The span is that of a hit at k which is a whole word. */
  ghost predicate Finds(u: Tables<Rune>, text: seq<Rune>, w: seq<Rune>, k: nat, s: Span) {
    WholeWord(u, text, w, k) && s == SpanAt(text, k, k + |w|)
  }

  lemma SpansAtFinds(u: Tables<Rune>, text: seq<Rune>, w: seq<Rune>, k: nat, s: Span)
    requires OccursAt(Lowered(u, text), w, k)
    ensures s in SpansAt(u, text, |w|)(k) <==> Finds(u, text, w, k, s)
  {
  }

  /** A span is reported exactly when it is that of a hit which is a whole word. */
  lemma ReportedFinds(u: Tables<Rune>, text: seq<Rune>, w: seq<Rune>, s: Span)
    requires w != []
    ensures s in Reported(u, text, w) <==> exists k :: k in Hits(Lowered(u, text), w, 0) && Finds(u, text, w, k, s)
  {
    var hits := Hits(Lowered(u, text), w, 0);
    InGathered(SpansAt(u, text, |w|), hits, s);
    HitsOccur(Lowered(u, text), w, 0);
    forall k | k in hits
      ensures s in SpansAt(u, text, |w|)(k) <==> Finds(u, text, w, k, s)
    {
      SpansAtFinds(u, text, w, k, s);
    }
  }

  /** The bytes are those of the runes from k on, each of which folds to the rune of the word. */
  ghost predicate Spelled(u: Tables<Rune>, text: seq<Rune>, w: seq<Rune>, k: nat, bytes: Bytes) {
    && k + |w| <= |text| && bytes == Encode(text[k..k + |w|])
    && forall i | 0 <= i < |w| :: u.lower(text[k + i]) == w[i]
  }

  /**
   Dictionary spans are right in the original text: every reported span lies between runes,
   is not empty, is a whole word, and its rune-by-rune lower case is the dictionary word,
   whatever folding does to the lengths of runes.
   */
  lemma ReportedSpansAreWords(u: Tables<Rune>, text: seq<Rune>, w: seq<Rune>, s: Span)
    requires w != [] && s in Reported(u, text, w)
    ensures CutsRunes(Encode(text), s) && Proper(s, |Encode(text)|)
    ensures exists k: nat :: Finds(u, text, w, k, s) && Spelled(u, text, w, k, Encode(text)[s.start..s.end])
  {
    var k := FoundBy(u, text, w, s);
    FoundCuts(u, text, w, k, s);
    FoundReads(u, text, w, k, s);
  }

  lemma FoundBy(u: Tables<Rune>, text: seq<Rune>, w: seq<Rune>, s: Span) returns (k: nat)
    requires w != [] && s in Reported(u, text, w)
    ensures Finds(u, text, w, k, s)
  {
    ReportedFinds(u, text, w, s);
    k :| k in Hits(Lowered(u, text), w, 0) && Finds(u, text, w, k, s);
  }

  lemma FoundSpells(u: Tables<Rune>, text: seq<Rune>, w: seq<Rune>, k: nat, bytes: Bytes)
    requires WholeWord(u, text, w, k) && bytes == Encode(text[k..k + |w|])
    ensures Spelled(u, text, w, k, bytes)
  {
    OccursMeans(u, text, w, k);
  }

  lemma CustomIsKind()
    ensures IsKind(CUSTOM)
  {
  }

  lemma SpanBytes(text: seq<Rune>, k: nat, l: nat, s: Span)
    requires k <= l <= |text| && s == SpanAt(text, k, l)
    ensures 0 <= s.start <= s.end <= |Encode(text)| && Encode(text)[s.start..s.end] == Encode(text[k..l])
  {
    EncodeSlice(text, k, l);
  }

  lemma FoundCuts(u: Tables<Rune>, text: seq<Rune>, w: seq<Rune>, k: nat, s: Span)
    requires w != [] && Finds(u, text, w, k, s)
    ensures CutsRunes(Encode(text), s) && IsKind(s.kind)
  {
    CustomIsKind();
    SliceCuts(text, k, k + |w|);
  }

  lemma FoundReads(u: Tables<Rune>, text: seq<Rune>, w: seq<Rune>, k: nat, s: Span)
    requires Finds(u, text, w, k, s)
    ensures 0 <= s.start <= s.end <= |Encode(text)| && Spelled(u, text, w, k, Encode(text)[s.start..s.end])
  {
    SpanBytes(text, k, k + |w|, s);
    FoundSpells(u, text, w, k, Encode(text)[s.start..s.end]);
  }

  /**
   With the class of every rune kept by folding, the report is complete for a word exactly
   when, wherever the word overlaps itself, the rune before the inner occurrence is a word rune.
   */
  lemma ReportComplete(u: Tables<Rune>, w0: seq<Rune>, w: seq<Rune>)
    requires KeepsClasses(u) && TwoWordRunes(u) && w0 != [] && w == Lowered(u, w0)
    ensures (forall text, k: nat | WholeWord(u, text, w, k) :: SpanAt(text, k, k + |w|) in Reported(u, text, w))
            <==> OverlapsInsideWords(u, w)
  {
    GreedyScanComplete(u, w0, w);
    forall text, k: nat | WholeWord(u, text, w, k)
      ensures SpanAt(text, k, k + |w|) in Reported(u, text, w) <==> k in Hits(Lowered(u, text), w, 0)
    {
      ReportedIffHit(u, text, w, k);
    }
  }

  lemma ReportedIffHit(u: Tables<Rune>, text: seq<Rune>, w: seq<Rune>, k: nat)
    requires w != [] && WholeWord(u, text, w, k)
    ensures SpanAt(text, k, k + |w|) in Reported(u, text, w) <==> k in Hits(Lowered(u, text), w, 0)
  {
    var s := SpanAt(text, k, k + |w|);
    ReportedFinds(u, text, w, s);
    assert Finds(u, text, w, k, s);
    if s in Reported(u, text, w) {
      var j :| j in Hits(Lowered(u, text), w, 0) && Finds(u, text, w, j, s);
      SameOffset(text, j, k);
    }
  }

  lemma SameOffset(text: seq<Rune>, j: nat, k: nat)
    requires j <= |text| && k <= |text| && Off(text, j) == Off(text, k)
    ensures j == k
  {
    if j <= k { OffMonotone(text, j, k); } else { OffMonotone(text, k, j); }
  }

  // ---------------------------------------------------------------- all words

  /** A span is reported exactly when some word reports it. */
  lemma ReportedAllHas(u: Tables<Rune>, text: seq<Rune>, words: seq<seq<Rune>>, s: Span)
    ensures s in ReportedAll(u, text, words) <==> exists w :: w in words && w != [] && s in Reported(u, text, w)
  {
    InGathered(ReportOf(u, text), words, s);
  }

  /** The words are reported one after the other. */
  lemma ReportedAllAppend(u: Tables<Rune>, text: seq<Rune>, a: seq<seq<Rune>>, b: seq<seq<Rune>>)
    ensures ReportedAll(u, text, a + b) == ReportedAll(u, text, a) + ReportedAll(u, text, b)
  {
    GatheredAppend(ReportOf(u, text), a, b);
  }

  /** Every whole-word occurrence of every one of the words is reported. */
  ghost predicate ReportsAll(u: Tables<Rune>, words: seq<seq<Rune>>) {
    forall w | w in words :: ReportsWord(u, words, w)
  }

  ghost predicate ReportsWord(u: Tables<Rune>, words: seq<seq<Rune>>, w: seq<Rune>) {
    forall text, k: nat | WholeWord(u, text, w, k) :: SpanAt(text, k, k + |w|) in ReportedAll(u, text, words)
  }

  lemma SameSpan(u: Tables<Rune>, text: seq<Rune>, w: seq<Rune>, k: nat, v: seq<Rune>, i: nat)
    requires WholeWord(u, text, w, k) && WholeWord(u, text, v, i)
    requires SpanAt(text, k, k + |w|) == SpanAt(text, i, i + |v|)
    ensures v == w
  {
    SameOffset(text, i, k);
    SameOffset(text, i + |v|, k + |w|);
  }

  /** A whole-word occurrence that some word reports is reported by the word itself. */
  lemma ReportedByItself(u: Tables<Rune>, text: seq<Rune>, words: seq<seq<Rune>>, w: seq<Rune>, k: nat)
    requires w != [] && WholeWord(u, text, w, k) && SpanAt(text, k, k + |w|) in ReportedAll(u, text, words)
    ensures SpanAt(text, k, k + |w|) in Reported(u, text, w)
  {
    var s := SpanAt(text, k, k + |w|);
    ReportedAllHas(u, text, words, s);
    var v :| v in words && v != [] && s in Reported(u, text, v);
    var i := FoundBy(u, text, v, s);
    SameSpan(u, text, w, k, v, i);
  }

  /** In a text, every whole-word occurrence of a word that overlaps itself inside words only is reported. */
  lemma WholeWordReported(u: Tables<Rune>, text: seq<Rune>, words: seq<seq<Rune>>, w: seq<Rune>, k: nat)
    requires KeepsClasses(u) && w in words && w != []
    requires OverlapsInsideWords(u, w) && WholeWord(u, text, w, k)
    ensures SpanAt(text, k, k + |w|) in ReportedAll(u, text, words)
  {
    HitsReach(u, text, w, k);
    ReportedIffHit(u, text, w, k);
    ReportedAllHas(u, text, words, SpanAt(text, k, k + |w|));
  }

  lemma WordOverlaps(u: Tables<Rune>, words: seq<seq<Rune>>, w0: seq<Rune>, w: seq<Rune>)
    requires KeepsClasses(u) && TwoWordRunes(u) && w0 != [] && w == Lowered(u, w0)
    requires ReportsWord(u, words, w)
    ensures OverlapsInsideWords(u, w)
  {
    forall text, k: nat | WholeWord(u, text, w, k)
      ensures SpanAt(text, k, k + |w|) in Reported(u, text, w)
    {
      ReportedByItself(u, text, words, w, k);
    }
    ReportComplete(u, w0, w);
  }

  lemma WordReported(u: Tables<Rune>, words: seq<seq<Rune>>, w: seq<Rune>)
    requires KeepsClasses(u) && w in words && w != [] && OverlapsInsideWords(u, w)
    ensures ReportsWord(u, words, w)
  {
    forall text, k: nat | WholeWord(u, text, w, k)
      ensures SpanAt(text, k, k + |w|) in ReportedAll(u, text, words)
    {
      WholeWordReported(u, text, words, w, k);
    }
  }

  /** The report of a whole dictionary is complete exactly when it is for each of its words. */
  lemma ReportAllComplete(u: Tables<Rune>, words: seq<seq<Rune>>)
    requires KeepsClasses(u) && TwoWordRunes(u)
    requires forall w | w in words :: w != [] && exists w0 :: w == Lowered(u, w0)
    ensures ReportsAll(u, words) <==> forall w | w in words :: OverlapsInsideWords(u, w)
  {
    forall w | w in words
      ensures ReportsWord(u, words, w) <==> OverlapsInsideWords(u, w)
    {
      var w0 :| w == Lowered(u, w0);
      if ReportsWord(u, words, w) { WordOverlaps(u, words, w0, w); }
      if OverlapsInsideWords(u, w) { WordReported(u, words, w); }
    }
  }
}
