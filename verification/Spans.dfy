/**
 Detected spans: the leftmost-longest order, the sweep that keeps disjoint spans, the
 overlap index, and the merge of the trusted spans with the model's guesses.
 */
module Spans {
  import opened ByteStrings
  import opened TokenGrammar

  /** A half-open byte range holding one value. */
  datatype Span = Span(start: int, end: int, kind: Bytes)

  /** The kind of a value masked because of its key. */
  const PASSWORD: Bytes := [0x50, 0x41, 0x53, 0x53, 0x57, 0x4F, 0x52, 0x44]

  lemma PasswordIsKind()
    ensures IsKind(PASSWORD)
  {
  }

  predicate Proper(s: Span, len: int) { 0 <= s.start < s.end <= len && IsKind(s.kind) }

  ghost predicate AllProper(spans: seq<Span>, len: int) {
    forall i | 0 <= i < |spans| :: Proper(spans[i], len)
  }

  // ---------------------------------------------------------------- order

  /** Leftmost first, and the longer of two that start together. */
  predicate Less(a: Span, b: Span) {
    if a.start != b.start then a.start < b.start else a.end > b.end
  }

  ghost predicate Ordered(spans: seq<Span>) {
    forall i, j | 0 <= i < j < |spans| :: !Less(spans[j], spans[i])
  }

  function Insert(s: Span, spans: seq<Span>): seq<Span> {
    if spans == [] || !Less(spans[0], s) then [s] + spans else [spans[0]] + Insert(s, spans[1..])
  }

  function StableSort(spans: seq<Span>): seq<Span> {
    if spans == [] then [] else Insert(spans[0], StableSort(spans[1..]))
  }

  /** The spans over one range, in their order in the list. */
  function At(spans: seq<Span>, start: int, end: int): seq<Span> {
    if spans == [] then []
    else if spans[0].start == start && spans[0].end == end then [spans[0]] + At(spans[1..], start, end)
    else At(spans[1..], start, end)
  }

  lemma {:induction false} InsertOrdered(s: Span, spans: seq<Span>)
    requires Ordered(spans)
    ensures Ordered(Insert(s, spans))
    ensures forall x :: x in Insert(s, spans) <==> x == s || x in spans
  {
    if spans == [] || !Less(spans[0], s) {
    } else {
      InsertOrdered(s, spans[1..]);
      var t := Insert(s, spans[1..]);
      assert forall x :: x in spans <==> x == spans[0] || x in spans[1..];
      forall j | 0 <= j < |t|
        ensures !Less(t[j], spans[0])
      {
        assert t[j] in t;
      }
      assert forall j | 0 <= j < |t| :: ([spans[0]] + t)[j + 1] == t[j];
    }
  }

  lemma {:induction false} InsertAt(s: Span, spans: seq<Span>, start: int, end: int)
    ensures At(Insert(s, spans), start, end) == At([s] + spans, start, end)
  {
    assert ([s] + spans)[1..] == spans;
    if spans == [] || !Less(spans[0], s) {
    } else {
      InsertAt(s, spans[1..], start, end);
      var t := Insert(s, spans[1..]);
      assert ([spans[0]] + t)[1..] == t;
      assert ([s] + spans[1..])[1..] == spans[1..];
    }
  }

  /** The sort orders the list, keeps its elements, and keeps spans over the same range in place. */
  lemma {:induction false} StableSortSorts(spans: seq<Span>)
    ensures Ordered(StableSort(spans))
    ensures forall x :: x in StableSort(spans) <==> x in spans
    ensures forall start, end :: At(StableSort(spans), start, end) == At(spans, start, end)
  {
    if spans == [] {
    } else {
      StableSortSorts(spans[1..]);
      var t := StableSort(spans[1..]);
      InsertOrdered(spans[0], t);
      assert spans == [spans[0]] + spans[1..];
      forall start, end
        ensures At(StableSort(spans), start, end) == At(spans, start, end)
      {
        InsertAt(spans[0], t, start, end);
        assert ([spans[0]] + t)[1..] == t;
      }
    }
  }

  lemma {:induction false} AtMember(spans: seq<Span>, s: Span)
    ensures s in spans <==> s in At(spans, s.start, s.end)
  {
    if spans == [] {
    } else {
      AtMember(spans[1..], s);
      assert s in spans <==> s == spans[0] || s in spans[1..];
    }
  }

  lemma OrderedTail(spans: seq<Span>)
    requires Ordered(spans) && spans != []
    ensures Ordered(spans[1..])
    ensures forall x | x in spans[1..] :: !Less(x, spans[0])
  {
  }

  /** Any stable sort gives this list: order and stability leave no choice. */
  lemma {:induction false} StableSortUnique(a: seq<Span>, b: seq<Span>)
    requires Ordered(a) && Ordered(b)
    requires forall start, end :: At(a, start, end) == At(b, start, end)
    ensures a == b
  {
    if a == [] || b == [] {
      if a != [] { AtMember(a, a[0]); AtMember(b, a[0]); }
      if b != [] { AtMember(a, b[0]); AtMember(b, b[0]); }
    } else {
      AtMember(a, a[0]);
      AtMember(b, a[0]);
      AtMember(a, b[0]);
      AtMember(b, b[0]);
      OrderedTail(a);
      OrderedTail(b);
      assert forall x | x in a :: x == a[0] || x in a[1..];
      assert forall x | x in b :: x == b[0] || x in b[1..];
      assert At(a, a[0].start, a[0].end)[0] == a[0];
      assert At(b, b[0].start, b[0].end)[0] == b[0];
      assert a[0] == b[0];
      forall start, end
        ensures At(a[1..], start, end) == At(b[1..], start, end)
      {
        assert At(a, start, end) == At(b, start, end);
        if a[0].start == start && a[0].end == end {
          assert At(a, start, end)[1..] == At(a[1..], start, end);
          assert At(b, start, end)[1..] == At(b[1..], start, end);
        }
      }
      StableSortUnique(a[1..], b[1..]);
      assert a == [a[0]] + a[1..] && b == [b[0]] + b[1..];
    }
  }

  // ---------------------------------------------------------------- the sweep

  /** The spans that start at or after the end of the last one kept. */
  function Sweep(spans: seq<Span>, last: int): seq<Span> {
    if spans == [] then []
    else if spans[0].start < last then Sweep(spans[1..], last)
    else [spans[0]] + Sweep(spans[1..], spans[0].end)
  }

  ghost predicate Disjoint(spans: seq<Span>, last: int) {
    spans == [] || (last <= spans[0].start && Disjoint(spans[1..], spans[0].end))
  }

  lemma {:induction false} SweepDisjoint(spans: seq<Span>, last: int)
    ensures Disjoint(Sweep(spans, last), last)
    ensures forall x | x in Sweep(spans, last) :: x in spans
  {
    if spans == [] {
    } else {
      assert forall x | x in spans[1..] :: x in spans;
      if spans[0].start < last {
        SweepDisjoint(spans[1..], last);
      } else {
        SweepDisjoint(spans[1..], spans[0].end);
        var t := Sweep(spans[1..], spans[0].end);
        assert ([spans[0]] + t)[1..] == t;
      }
    }
  }

  /** Disjointness in terms of positions: an earlier span ends before a later one starts. */
  lemma {:induction false} DisjointPairs(spans: seq<Span>, last: int, i: int, j: int)
    requires Disjoint(spans, last) && 0 <= i <= j < |spans|
    requires forall x | x in spans :: x.start <= x.end
    ensures last <= spans[i].start
    ensures i < j ==> spans[i].end <= spans[j].start
  {
    var t := spans[1..];
    assert forall x | x in t :: x in spans;
    if i > 0 {
      DisjointPairs(t, spans[0].end, i - 1, j - 1);
    } else if j > 0 {
      DisjointPairs(t, spans[0].end, j - 1, j - 1);
    }
  }

  /** The kept span a dropped one starts inside of, which comes no later in the order. */
  lemma {:induction false} DroppedStartsInside(spans: seq<Span>, last: int, s: Span)
    requires Ordered(spans) && s in spans && s !in Sweep(spans, last) && s.start >= last
    ensures exists k :: k in Sweep(spans, last) && k.start <= s.start < k.end && !Less(s, k)
  {
    var x, t := spans[0], spans[1..];
    OrderedTail(spans);
    if x.start < last {
      assert s in t;
      DroppedStartsInside(t, last, s);
    } else {
      assert x in Sweep(spans, last);
      assert forall y | y in Sweep(t, x.end) :: y in Sweep(spans, last);
      assert s != x && s in t;
      if s.start >= x.end {
        DroppedStartsInside(t, x.end, s);
      }
    }
  }

  /** The spans that end up masked. */
  function Chosen(spans: seq<Span>): seq<Span> { Sweep(StableSort(spans), 0) }

  ghost predicate Masked(kept: seq<Span>, p: int) {
    exists k :: k in kept && k.start <= p < k.end
  }

  ghost predicate NestedOrDisjoint(a: Span, b: Span) {
    || a.end <= b.start || b.end <= a.start
    || (a.start <= b.start && b.end <= a.end) || (b.start <= a.start && a.end <= b.end)
  }

  ghost predicate Covered(spans: seq<Span>) {
    forall s, p | s in spans && s.start <= p < s.end :: Masked(Chosen(spans), p)
  }

  /** What the sweep promises for every list of proper spans. */
  lemma SweepGuarantee(spans: seq<Span>, len: int)
    requires AllProper(spans, len)
    ensures Disjoint(Chosen(spans), 0)
    ensures forall k | k in Chosen(spans) :: k in spans
    ensures forall s | s in spans && s !in Chosen(spans) ::
              exists k :: k in Chosen(spans) && k.start <= s.start < k.end && !Less(s, k)
  {
    StableSortSorts(spans);
    SweepDisjoint(StableSort(spans), 0);
    forall s | s in spans && s !in Chosen(spans)
      ensures exists k :: k in Chosen(spans) && k.start <= s.start < k.end && !Less(s, k)
    {
      DroppedStartsInside(StableSort(spans), 0, s);
    }
  }

  /** When the spans are pairwise nested or disjoint, every byte of every span is masked. */
  lemma NestedSpansCovered(spans: seq<Span>, len: int)
    requires AllProper(spans, len)
    requires forall a, b | a in spans && b in spans :: NestedOrDisjoint(a, b)
    ensures Covered(spans)
  {
    SweepGuarantee(spans, len);
    forall s, p | s in spans && s.start <= p < s.end
      ensures Masked(Chosen(spans), p)
    {
      if s !in Chosen(spans) {
        var k :| k in Chosen(spans) && k.start <= s.start < k.end && !Less(s, k);
        assert NestedOrDisjoint(k, s);
        assert k.start <= p < k.end;
      }
    }
  }

  /**
   For two spans the condition is exact: both are fully masked if and only if they do not
   overlap partially, because the later of two partially overlapping spans is dropped whole.
   */
  lemma PairCoveredIffNestedOrDisjoint(a: Span, b: Span, len: int)
    requires Proper(a, len) && Proper(b, len)
    ensures Covered([a, b]) <==> NestedOrDisjoint(a, b)
  {
    var spans := [a, b];
    assert spans[0] == a && spans[1] == b;
    if NestedOrDisjoint(a, b) {
      NestedSpansCovered(spans, len);
    } else {
      var x, y := if a.start < b.start then a else b, if a.start < b.start then b else a;
      assert [a, b][1..] == [b] && [b][1..] == [];
      assert StableSort([b]) == [b];
      assert Insert(a, []) == [a];
      assert Insert(a, [b]) == [x, y];
      assert [x, y][1..] == [y] && [y][1..] == [];
      assert Sweep([y], x.end) == [];
      assert Chosen(spans) == [x];
      assert y in spans && !Masked([x], y.end - 1);
    }
  }

  // ---------------------------------------------------------------- the overlap index

  predicate Overlap(s: Span, g: Span) { s.start < g.end && s.end > g.start }

  ghost predicate OverlapsAny(sure: seq<Span>, g: Span) {
    exists s :: s in sure && Overlap(s, g)
  }

  datatype OverlapIndex = OverlapIndex(sure: seq<Span>, maxEnd: seq<int>)

  ghost predicate IsMax(m: int, spans: seq<Span>) {
    (forall s | s in spans :: s.end <= m) && exists s :: s in spans && s.end == m
  }

  /** The index holds the trusted spans by start, in whatever order among equals, and their prefix maxima. */
  ghost predicate Indexes(o: OverlapIndex, sure: seq<Span>) {
    && (forall x :: x in o.sure <==> x in sure)
    && (forall i, j | 0 <= i < j < |o.sure| :: o.sure[i].start <= o.sure[j].start)
    && |o.maxEnd| == |o.sure|
    && forall i | 0 <= i < |o.maxEnd| :: IsMax(o.maxEnd[i], o.sure[..i + 1])
  }

  lemma MaxGrows(m: int, spans: seq<Span>, s: Span)
    requires IsMax(m, spans)
    ensures IsMax(if m > s.end then m else s.end, spans + [s])
  {
    var x :| x in spans && x.end == m;
    assert x in spans + [s] && s in spans + [s];
  }

  method NewOverlapIndex(sure: seq<Span>) returns (o: OverlapIndex)
    ensures Indexes(o, sure)
  {
    var idx := StableSort(sure);
    StableSortSorts(sure);
    var maxEnd: seq<int> := [];
    for i := 0 to |idx|
      invariant |maxEnd| == i
      invariant forall j | 0 <= j < i :: IsMax(maxEnd[j], idx[..j + 1])
    {
      var m := idx[i].end;
      if i > 0 && maxEnd[i - 1] > m {
        m := maxEnd[i - 1];
      }
      maxEnd := maxEnd + [m];
      assert idx[..i + 1] == idx[..i] + [idx[i]];
      if i > 0 {
        MaxGrows(maxEnd[i - 1], idx[..i], idx[i]);
      }
    }
    return OverlapIndex(idx, maxEnd);
  }

  /** Binary search and prefix maxima answer exactly whether the guess overlaps a trusted span. */
  method Overlaps(o: OverlapIndex, g: Span, ghost sure: seq<Span>) returns (r: bool)
    requires Indexes(o, sure)
    ensures r <==> OverlapsAny(sure, g)
  {
    var lo, hi := 0, |o.sure|;
    while lo < hi
      invariant 0 <= lo <= hi <= |o.sure|
      invariant forall k | 0 <= k < lo :: o.sure[k].start < g.end
      invariant forall k | hi <= k < |o.sure| :: o.sure[k].start >= g.end
    {
      var mid := (lo + hi) / 2;
      if o.sure[mid].start >= g.end { hi := mid; } else { lo := mid + 1; }
    }
    var i := lo - 1;
    if i < 0 {
      return false;
    }
    assert IsMax(o.maxEnd[i], o.sure[..i + 1]);
    assert forall s | s in o.sure && s.start < g.end :: s in o.sure[..i + 1];
    r := o.maxEnd[i] > g.start;
    if r {
      var s :| s in o.sure[..i + 1] && s.end == o.maxEnd[i];
      assert s in sure && Overlap(s, g);
    }
  }

  // ---------------------------------------------------------------- two tiers

  /** The guesses that overlap no trusted span. */
  ghost function Surviving(sure: seq<Span>, guess: seq<Span>): seq<Span> {
    if guess == [] then []
    else if OverlapsAny(sure, guess[0]) then Surviving(sure, guess[1..])
    else [guess[0]] + Surviving(sure, guess[1..])
  }

  ghost function Resolved(sure: seq<Span>, guess: seq<Span>): seq<Span> {
    sure + Surviving(sure, guess)
  }

  method ResolveConflicts(sure: seq<Span>, guess: seq<Span>) returns (merged: seq<Span>)
    ensures merged == Resolved(sure, guess)
  {
    if |guess| == 0 {
      return sure;
    }
    var index := NewOverlapIndex(sure);
    merged := sure;
    for i := 0 to |guess|
      invariant merged + Surviving(sure, guess[i..]) == Resolved(sure, guess)
    {
      var hit := Overlaps(index, guess[i], sure);
      assert guess[i..][0] == guess[i] && guess[i..][1..] == guess[i + 1..];
      if !hit {
        merged := merged + [guess[i]];
      }
    }
  }

  lemma {:induction false} SurvivingFree(sure: seq<Span>, guess: seq<Span>)
    ensures forall g | g in Surviving(sure, guess) :: g in guess && !OverlapsAny(sure, g)
  {
    if guess == [] {
    } else {
      SurvivingFree(sure, guess[1..]);
    }
  }

  /** The two ranges share a byte. */
  ghost predicate ShareByte(a: Span, b: Span) {
    exists i :: InBoth(a, b, i)
  }

  predicate InBoth(a: Span, b: Span, i: int) { a.start <= i < a.end && b.start <= i < b.end }

  /** The comparison of ends that the code makes says whether two spans share a byte. */
  lemma OverlapSharesByte(a: Span, b: Span)
    requires a.start < a.end && b.start < b.end
    ensures Overlap(a, b) <==> ShareByte(a, b)
  {
    if Overlap(a, b) {
      assert InBoth(a, b, if a.start < b.start then b.start else a.start);
    }
  }

  lemma {:induction false} SurvivingAt(sure: seq<Span>, guess: seq<Span>, g: Span)
    ensures At(Surviving(sure, guess), g.start, g.end)
         == if OverlapsAny(sure, g) then [] else At(guess, g.start, g.end)
  {
    if guess == [] {
    } else {
      SurvivingAt(sure, guess[1..], g);
      var x, rest := guess[0], Surviving(sure, guess[1..]);
      assert x.start == g.start && x.end == g.end ==> (OverlapsAny(sure, x) <==> OverlapsAny(sure, g)) by {
        assert forall s | s in sure && x.start == g.start && x.end == g.end :: Overlap(s, x) <==> Overlap(s, g);
      }
      if !OverlapsAny(sure, x) {
        assert ([x] + rest)[1..] == rest;
      }
    }
  }

  lemma {:induction false} AtAppend(a: seq<Span>, b: seq<Span>, start: int, end: int)
    ensures At(a + b, start, end) == At(a, start, end) + At(b, start, end)
  {
    if a == [] {
      assert a + b == b;
    } else {
      assert (a + b)[0] == a[0] && (a + b)[1..] == a[1..] + b;
      AtAppend(a[1..], b, start, end);
    }
  }

  /**
   The merge is exact: over each range it holds the trusted spans in their order and then,
   unless the range overlaps a trusted span, the guesses in theirs. Nothing else is dropped.
   */
  lemma ResolvedAt(sure: seq<Span>, guess: seq<Span>, g: Span)
    ensures At(Resolved(sure, guess), g.start, g.end)
         == At(sure, g.start, g.end) + if OverlapsAny(sure, g) then [] else At(guess, g.start, g.end)
  {
    AtAppend(sure, Surviving(sure, guess), g.start, g.end);
    SurvivingAt(sure, guess, g);
  }

  /** A span is merged exactly when it is trusted, or a guess clear of all trusted ones. */
  lemma ResolvedHas(sure: seq<Span>, guess: seq<Span>, s: Span)
    ensures s in Resolved(sure, guess) <==> s in sure || (s in guess && !OverlapsAny(sure, s))
  {
    ResolvedAt(sure, guess, s);
    AtMember(Resolved(sure, guess), s);
    AtMember(sure, s);
    AtMember(guess, s);
  }

  /** The spans of a list that are also in sure. */
  function Among(spans: seq<Span>, sure: seq<Span>): seq<Span> {
    if spans == [] then []
    else if spans[0] in sure then [spans[0]] + Among(spans[1..], sure)
    else Among(spans[1..], sure)
  }

  lemma {:induction false} AmongMembers(spans: seq<Span>, sure: seq<Span>)
    ensures forall x | x in Among(spans, sure) :: x in spans && x in sure
  {
    if spans == [] {
    } else {
      AmongMembers(spans[1..], sure);
    }
  }

  lemma {:induction false} AmongAppend(a: seq<Span>, b: seq<Span>, sure: seq<Span>)
    ensures Among(a + b, sure) == Among(a, sure) + Among(b, sure)
  {
    if a == [] {
      assert a + b == b;
    } else {
      assert (a + b)[0] == a[0] && (a + b)[1..] == a[1..] + b;
      AmongAppend(a[1..], b, sure);
    }
  }

  lemma {:induction false} AmongAll(spans: seq<Span>, sure: seq<Span>)
    requires forall x | x in spans :: x in sure
    ensures Among(spans, sure) == spans
  {
    if spans == [] {
    } else {
      AmongAll(spans[1..], sure);
      assert spans == [spans[0]] + spans[1..];
    }
  }

  lemma {:induction false} AmongNone(spans: seq<Span>, sure: seq<Span>)
    requires forall x | x in spans :: x !in sure
    ensures Among(spans, sure) == []
  {
    if spans == [] {
    } else {
      AmongNone(spans[1..], sure);
    }
  }

  lemma {:induction false} InsertAmong(s: Span, spans: seq<Span>, sure: seq<Span>)
    requires Ordered(spans)
    ensures Among(Insert(s, spans), sure)
         == if s in sure then Insert(s, Among(spans, sure)) else Among(spans, sure)
  {
    if spans == [] {
      assert Insert(s, spans) == [s] && [s][1..] == [];
    } else {
      OrderedTail(spans);
      AmongMembers(spans, sure);
      if Less(spans[0], s) {
        InsertAmong(s, spans[1..], sure);
        var t := Insert(s, spans[1..]);
        assert ([spans[0]] + t)[1..] == t;
        if spans[0] in sure {
          var a := Among(spans, sure);
          assert a[0] == spans[0] && a[1..] == Among(spans[1..], sure);
        }
      } else {
        assert ([s] + spans)[1..] == spans;
        var a := Among(spans, sure);
        assert a != [] ==> a[0] in spans;
        assert forall x | x in spans :: x == spans[0] || x in spans[1..];
      }
    }
  }

  lemma {:induction false} SortAmong(spans: seq<Span>, sure: seq<Span>)
    ensures Among(StableSort(spans), sure) == StableSort(Among(spans, sure))
  {
    if spans == [] {
    } else {
      SortAmong(spans[1..], sure);
      StableSortSorts(spans[1..]);
      InsertAmong(spans[0], StableSort(spans[1..]), sure);
      if spans[0] in sure {
        var a := Among(spans, sure);
        assert a[0] == spans[0] && a[1..] == Among(spans[1..], sure);
      }
    }
  }

  /** Sweeping spans that are trusted or clear of every trusted one keeps the trusted ones it would keep alone. */
  lemma {:induction false} SweepAmong(spans: seq<Span>, sure: seq<Span>, last: int, alone: int)
    requires Ordered(spans)
    requires forall x | x in spans :: x.start < x.end && (x in sure || !OverlapsAny(sure, x))
    requires forall x | x in spans && x in sure :: x.start < last <==> x.start < alone
    ensures Among(Sweep(spans, last), sure) == Sweep(Among(spans, sure), alone)
  {
    if spans == [] {
    } else {
      var x, t := spans[0], spans[1..];
      OrderedTail(spans);
      assert forall y | y in t :: y in spans;
      if x in sure {
        var a := Among(spans, sure);
        assert a[0] == x && a[1..] == Among(t, sure);
      }
      if x.start < last {
        SweepAmong(t, sure, last, alone);
      } else {
        var kept := Sweep(t, x.end);
        assert ([x] + kept)[1..] == kept;
        if x in sure {
          SweepAmong(t, sure, x.end, x.end);
        } else {
          forall y | y in t && y in sure
            ensures y.start < x.end <==> y.start < alone
          {
            assert !Less(y, x) && !Overlap(y, x);
          }
          SweepAmong(t, sure, x.end, alone);
        }
      }
    }
  }

  /**
   The model tier cannot disturb the deterministic one: the trusted spans kept with the
   guesses merged in are exactly those kept without any guess, and no kept guess overlaps
   any trusted span.
   */
  lemma GuessesDisturbNothing(sure: seq<Span>, guess: seq<Span>, len: int)
    requires AllProper(sure, len) && AllProper(guess, len)
    ensures Among(Chosen(Resolved(sure, guess)), sure) == Chosen(sure)
    ensures forall k | k in Chosen(Resolved(sure, guess)) && k !in sure :: k in guess && !OverlapsAny(sure, k)
  {
    var merged, free := Resolved(sure, guess), Surviving(sure, guess);
    SurvivingFree(sure, guess);
    StableSortSorts(merged);
    SweepDisjoint(StableSort(merged), 0);
    forall g | g in free
      ensures g !in sure
    {
      assert Overlap(g, g);
    }
    AmongAppend(sure, free, sure);
    AmongAll(sure, sure);
    AmongNone(free, sure);
    assert Among(merged, sure) == sure;
    SortAmong(merged, sure);
    SweepAmong(StableSort(merged), sure, 0, 0);
  }

  lemma ResolvedProper(sure: seq<Span>, guess: seq<Span>, len: int)
    requires AllProper(sure, len) && AllProper(guess, len)
    ensures AllProper(Resolved(sure, guess), len)
  {
    SurvivingFree(sure, guess);
    forall i | 0 <= i < |Resolved(sure, guess)|
      ensures Proper(Resolved(sure, guess)[i], len)
    {
      assert Resolved(sure, guess)[i] in sure || Resolved(sure, guess)[i] in Surviving(sure, guess);
    }
  }
}
