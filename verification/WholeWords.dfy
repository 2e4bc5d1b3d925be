/**
 Whole-word search by runes: the greedy scan of a folded text for one folded word, and
 exactly when it finds every whole-word occurrence.
 */
module WholeWords {
  import opened ByteStrings

  /** The Unicode tables: lower case of a rune, and which runes belong to words. */
  datatype Tables<!T> = Tables(lower: T -> T, word: T -> bool)

  /** Every rune folded. */
  function Lowered<T>(u: Tables<T>, text: seq<T>): (f: seq<T>)
    ensures |f| == |text|
  {
    if text == [] then [] else [u.lower(text[0])] + Lowered(u, text[1..])
  }

  lemma {:induction false} LoweredAt<T>(u: Tables<T>, text: seq<T>, i: nat)
    requires i < |text|
    ensures Lowered(u, text)[i] == u.lower(text[i])
  {
    if i == 0 {
    } else {
      LoweredAt(u, text[1..], i - 1);
    }
  }

  predicate OccursAt<T(==)>(f: seq<T>, w: seq<T>, k: nat) { k + |w| <= |f| && f[k..k + |w|] == w }

  /** The first occurrence from a rune on, or the end when there is none. */
  function OccursFrom<T(==)>(f: seq<T>, w: seq<T>, from: nat): (k: nat)
    requires from <= |f|
    ensures from <= k
    ensures k <= |f| ==> OccursAt(f, w, k)
    decreases |f| - from
  {
    if OccursAt(f, w, from) then from
    else if from == |f| then |f| + 1
    else OccursFrom(f, w, from + 1)
  }

  lemma {:induction false} OccursFirst<T>(f: seq<T>, w: seq<T>, from: nat)
    requires from <= |f|
    ensures forall i | from <= i < OccursFrom(f, w, from) :: !OccursAt(f, w, i)
    decreases |f| - from
  {
    if OccursAt(f, w, from) || from == |f| {
    } else {
      OccursFirst(f, w, from + 1);
    }
  }

  /** The occurrences the scan stops at: each search starts where the last hit ended. */
  function Hits<T(==)>(f: seq<T>, w: seq<T>, from: nat): seq<nat>
    requires w != [] && from <= |f|
    decreases |f| - from
  {
    var k := OccursFrom(f, w, from);
    if k > |f| then [] else [k] + Hits(f, w, k + |w|)
  }

  lemma HitsStep<T>(f: seq<T>, w: seq<T>, from: nat)
    requires w != [] && from <= |f| && OccursFrom(f, w, from) <= |f|
    ensures var k := OccursFrom(f, w, from); k + |w| <= |f| && Hits(f, w, from) == [k] + Hits(f, w, k + |w|)
  {
  }

  lemma {:induction false} HitsOccur<T>(f: seq<T>, w: seq<T>, from: nat)
    requires w != [] && from <= |f|
    ensures forall i | 0 <= i < |Hits(f, w, from)| :: Hits(f, w, from)[i] >= from && OccursAt(f, w, Hits(f, w, from)[i])
    decreases |f| - from
  {
    var k := OccursFrom(f, w, from);
    if k > |f| {
    } else {
      HitsOccur(f, w, k + |w|);
    }
  }

  // ---------------------------------------------------------------- what a scan gathers

  /** What is gathered so far, followed by what the scan still gathers from a rune on. */
  ghost function Gathering<T, S>(f: seq<T>, w: seq<T>, at: nat -> seq<S>, from: nat, got: seq<S>): seq<S>
    requires w != [] && from <= |f|
  {
    got + Gathered(at, Hits(f, w, from))
  }

  /** The two together make up the whole. */
  ghost predicate MakesUp<T, S>(f: seq<T>, w: seq<T>, at: nat -> seq<S>, from: nat, got: seq<S>, whole: seq<S>)
    requires w != [] && from <= |f|
  {
    Gathering(f, w, at, from, got) == whole
  }

  /** The state of a scan that has come to a rune. */
  ghost predicate OnItsWay<T, S>(f: seq<T>, w: seq<T>, at: nat -> seq<S>, from: nat, got: seq<S>, whole: seq<S>) {
    w != [] && from <= |f| && MakesUp(f, w, at, from, got, whole)
  }

  lemma GatheringStarts<T, S>(f: seq<T>, w: seq<T>, at: nat -> seq<S>)
    requires w != []
    ensures OnItsWay(f, w, at, 0, [], Gathered(at, Hits(f, w, 0)))
  {
    var whole := Gathered(at, Hits(f, w, 0));
    assert [] + whole == whole;
  }

  lemma GatheringEnds<T, S>(f: seq<T>, w: seq<T>, at: nat -> seq<S>, from: nat, got: seq<S>, whole: seq<S>)
    requires OnItsWay(f, w, at, from, got, whole) && OccursFrom(f, w, from) > |f|
    ensures got == whole
  {
    assert Hits(f, w, from) == [];
    assert got + [] == got;
  }

  lemma GatheringHit<T, S>(f: seq<T>, w: seq<T>, at: nat -> seq<S>, from: nat, got: seq<S>, whole: seq<S>,
                           k: nat, next: nat, found: seq<S>)
    requires OnItsWay(f, w, at, from, got, whole) && OccursFrom(f, w, from) == k <= |f|
    requires next == k + |w| && found == at(k)
    ensures next <= |f| && OnItsWay(f, w, at, next, got + found, whole)
  {
    HitsStep(f, w, from);
    var more := Hits(f, w, k + |w|);
    assert ([k] + more)[1..] == more;
    Associate(got, at(k), Gathered(at, more));
  }

  /** No word rune right before or right after. */
  predicate Bounded<T>(u: Tables<T>, text: seq<T>, k: nat, l: nat)
    requires k <= l <= |text|
  {
    (k > 0 ==> !u.word(text[k - 1])) && (l < |text| ==> !u.word(text[l]))
  }

  /** The folded word w stands at rune k of the text, as a whole word. */
  ghost predicate WholeWord<T>(u: Tables<T>, text: seq<T>, w: seq<T>, k: nat) {
    k + |w| <= |text| && OccursAt(Lowered(u, text), w, k) && Bounded(u, text, k, k + |w|)
  }

  lemma OccursAtRunes<T>(f: seq<T>, w: seq<T>, k: nat)
    requires k + |w| <= |f|
    ensures OccursAt(f, w, k) <==> forall i | 0 <= i < |w| :: f[k + i] == w[i]
  {
    var g := f[k..k + |w|];
    assert |g| == |w| && forall i | 0 <= i < |w| :: g[i] == f[k + i];
    if forall i | 0 <= i < |w| :: f[k + i] == w[i] {
      assert g == w;
    }
  }

  lemma OccursMeans<T>(u: Tables<T>, text: seq<T>, w: seq<T>, k: nat)
    ensures OccursAt(Lowered(u, text), w, k)
            <==> k + |w| <= |text| && forall i | 0 <= i < |w| :: u.lower(text[k + i]) == w[i]
  {
    var f := Lowered(u, text);
    if k + |w| <= |text| {
      OccursAtRunes(f, w, k);
      forall j | k <= j < k + |w| ensures f[j] == u.lower(text[j]) {
        LoweredAt(u, text, j);
      }
    }
  }

  /** A whole word: its runes fold to the word, and no word rune stands right before or right after. */
  lemma WholeWordMeans<T>(u: Tables<T>, text: seq<T>, w: seq<T>, k: nat)
    ensures WholeWord(u, text, w, k)
            <==> && k + |w| <= |text| && (forall i | 0 <= i < |w| :: u.lower(text[k + i]) == w[i])
                 && (k == 0 || !u.word(text[k - 1]))
                 && (k + |w| == |text| || !u.word(text[k + |w|]))
  {
    OccursMeans(u, text, w, k);
  }

  // ---------------------------------------------------------------- completeness

  /** Every whole-word occurrence of w in every text is a hit. */
  ghost predicate MissesNothing<T(!new)>(u: Tables<T>, w: seq<T>)
    requires w != []
  {
    forall text, k: nat | WholeWord(u, text, w, k) :: k in Hits(Lowered(u, text), w, 0)
  }

  /** A proper suffix of w, from rune d on, is also a prefix of it. */
  ghost predicate Overlaps<T>(w: seq<T>, d: nat) { 0 < d < |w| && w[d..] == w[..|w| - d] }

  /** Folding keeps the class of every rune. */
  ghost predicate KeepsClasses<T(!new)>(u: Tables<T>) {
    forall r :: u.word(u.lower(r)) == u.word(r)
  }

  /** There are two word runes that folding keeps apart. */
  ghost predicate TwoWordRunes<T(!new)>(u: Tables<T>) {
    exists a, b :: u.word(a) && u.word(b) && u.lower(a) != u.lower(b)
  }

  /** Where w overlaps itself, the rune before the inner occurrence is a word rune. */
  ghost predicate OverlapsInsideWords<T>(u: Tables<T>, w: seq<T>) {
    forall d | Overlaps(w, d) :: u.word(w[d - 1])
  }

  lemma InnerOverlap<T>(f: seq<T>, w: seq<T>, h: nat, k: nat)
    requires h < k < h + |w| && OccursAt(f, w, h) && OccursAt(f, w, k)
    ensures Overlaps(w, k - h) && w[k - h - 1] == f[k - 1]
  {
    var d := k - h;
    assert forall i | 0 <= i < |w| :: w[i] == f[h..h + |w|][i] == f[h + i];
    assert forall i | 0 <= i < |w| :: w[i] == f[k..k + |w|][i] == f[k + i];
  }

  /** A whole-word occurrence cannot start inside an earlier hit. */
  lemma HitsApart<T(!new)>(u: Tables<T>, text: seq<T>, w: seq<T>, h: nat, k: nat)
    requires KeepsClasses(u) && OverlapsInsideWords(u, w)
    requires OccursAt(Lowered(u, text), w, h) && WholeWord(u, text, w, k)
    ensures !(h < k < h + |w|)
  {
    if h < k < h + |w| {
      InnerOverlap(Lowered(u, text), w, h, k);
      LoweredAt(u, text, k - 1);
    }
  }

  /** No occurrence of w has rune k inside. */
  ghost predicate StartsInNone<T>(f: seq<T>, w: seq<T>, k: nat) {
    forall h: nat | OccursAt(f, w, h) :: !(h < k < h + |w|)
  }

  lemma NextStops<T>(f: seq<T>, w: seq<T>, from: nat, k: nat)
    requires from <= k && OccursAt(f, w, k)
    requires StartsInNone(f, w, k)
    ensures var h := OccursFrom(f, w, from); h <= k <= |f| && (h < k ==> h + |w| <= k)
  {
    OccursFirst(f, w, from);
  }

  /** The scan stops at every occurrence that starts inside no other. */
  lemma {:induction false} ScanReaches<T>(f: seq<T>, w: seq<T>, from: nat, k: nat)
    requires w != [] && from <= k && OccursAt(f, w, k)
    requires StartsInNone(f, w, k)
    ensures k in Hits(f, w, from)
    decreases k - from
  {
    var h := OccursFrom(f, w, from);
    NextStops(f, w, from, k);
    HitsStep(f, w, from);
    if h == k {
      InFront(h, Hits(f, w, h + |w|), k);
    } else {
      ScanReaches(f, w, h + |w|, k);
      InFront(h, Hits(f, w, h + |w|), k);
    }
  }

  lemma InFront(h: nat, more: seq<nat>, k: nat)
    requires k == h || k in more
    ensures k in [h] + more
  {
  }

  lemma HitsReach<T(!new)>(u: Tables<T>, text: seq<T>, w: seq<T>, k: nat)
    requires KeepsClasses(u) && w != [] && OverlapsInsideWords(u, w) && WholeWord(u, text, w, k)
    ensures k in Hits(Lowered(u, text), w, 0)
  {
    var f := Lowered(u, text);
    forall h: nat | OccursAt(f, w, h) ensures !(h < k < h + |w|) {
      HitsApart(u, text, w, h, k);
    }
    ScanReaches(f, w, 0, k);
  }

  /** A text in which the greedy scan jumps over a whole-word occurrence. */
  lemma MissedOccurrence<T(!new)>(u: Tables<T>, w0: seq<T>, w: seq<T>, d: nat) returns (text: seq<T>)
    requires KeepsClasses(u) && TwoWordRunes(u) && w == Lowered(u, w0) && Overlaps(w, d) && !u.word(w[d - 1])
    ensures WholeWord(u, text, w, 1 + d) && Hits(Lowered(u, text), w, 0) == [1]
  {
    var a, b :| u.word(a) && u.word(b) && u.lower(a) != u.lower(b);
    var x := if u.lower(a) != w[0] then a else b;
    text := [x] + w0 + w0[|w| - d..];
    LoweredParts(u, x, w0, |w| - d);
    JumpsOver(Lowered(u, text), w, d);
    BoundedAfter(u, text, w0, d);
  }

  lemma LoweredParts<T>(u: Tables<T>, x: T, w0: seq<T>, i: nat)
    requires i <= |w0|
    ensures var f := Lowered(u, [x] + w0 + w0[i..]);
            f != [] && f[0] == u.lower(x) && f == [f[0]] + Lowered(u, w0) + Lowered(u, w0)[i..]
  {
    var t := [x] + w0 + w0[i..];
    var f, g := Lowered(u, t), Lowered(u, w0);
    forall j | 0 <= j < |t| ensures f[j] == ([u.lower(x)] + g + g[i..])[j] {
      LoweredAt(u, t, j);
      if 1 <= j <= |w0| { LoweredAt(u, w0, j - 1); }
      if j > |w0| { LoweredAt(u, w0, j - 1 - |w0| + i); }
    }
  }

  lemma BoundedAfter<T(!new)>(u: Tables<T>, text: seq<T>, w0: seq<T>, d: nat)
    requires KeepsClasses(u) && 0 < d < |w0| && |text| == 1 + d + |w0| && text[1..1 + |w0|] == w0
    requires !u.word(Lowered(u, w0)[d - 1])
    ensures Bounded(u, text, 1 + d, 1 + d + |w0|)
  {
    assert text[d] == text[1..1 + |w0|][d - 1];
    LoweredAt(u, w0, d - 1);
    assert u.word(u.lower(text[d])) == u.word(text[d]);
  }

  /** The only hit in such a text is the first occurrence. */
  lemma JumpsOver<T>(f: seq<T>, w: seq<T>, d: nat)
    requires Overlaps(w, d) && f != [] && f[0] != w[0] && f == [f[0]] + w + w[|w| - d..]
    ensures OccursAt(f, w, 1 + d) && Hits(f, w, 0) == [1]
  {
    assert f[1..1 + |w|] == w;
    assert f[1 + d..1 + d + |w|] == w[d..] + w[|w| - d..];
    assert w == w[..|w| - d] + w[|w| - d..];
    assert !OccursAt(f, w, 0) by {
      assert f[0..|w|][0] == f[0];
    }
    assert OccursFrom(f, w, 0) == 1;
    assert OccursFrom(f, w, 1 + |w|) > |f|;
    assert Hits(f, w, 1 + |w|) == [];
  }

  /**
   Exactly when the greedy scan is complete for a word: it stops at every whole-word
   occurrence in every text if and only if, wherever the word overlaps itself, the rune
   before the inner occurrence is a word rune.
   */
  lemma GreedyScanComplete<T(!new)>(u: Tables<T>, w0: seq<T>, w: seq<T>)
    requires KeepsClasses(u) && TwoWordRunes(u) && w0 != [] && w == Lowered(u, w0)
    ensures MissesNothing(u, w) <==> OverlapsInsideWords(u, w)
  {
    if OverlapsInsideWords(u, w) {
      forall text, k: nat | WholeWord(u, text, w, k)
        ensures k in Hits(Lowered(u, text), w, 0)
      {
        HitsReach(u, text, w, k);
      }
    } else {
      var d :| Overlaps(w, d) && !u.word(w[d - 1]);
      var text := MissedOccurrence(u, w0, w, d);
    }
  }

  /** In particular it is complete for words made only of word runes. */
  lemma CompleteForPlainWords<T(!new)>(u: Tables<T>, w0: seq<T>, w: seq<T>)
    requires KeepsClasses(u) && w0 != [] && w == Lowered(u, w0)
    requires forall i | 0 <= i < |w| :: u.word(w[i])
    ensures MissesNothing(u, w)
  {
    forall text, k: nat | WholeWord(u, text, w, k)
      ensures k in Hits(Lowered(u, text), w, 0)
    {
      HitsReach(u, text, w, k);
    }
  }
}
