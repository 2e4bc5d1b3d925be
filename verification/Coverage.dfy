/**
 What masking hides: the bytes of a text that lie inside a masked value, the tokens of a
 whole document, and the values under credential keys. Stated of the detectors and of the
 masked result, without the functions that compute it.
 */
module Coverage {
  import opened ByteStrings
  import opened TokenGrammar
  import opened Spans
  import opened Sessions
  import opened Masking
  import opened KeyOrder
  import opened JsonTree
  import opened JsonMask
  import opened RoundTrip

  // ---------------------------------------------------------------- the hidden bytes of a text

  datatype Range = Range(start: int, end: int)

  /** Where in the original text the masked values of a cut lie. */
  function RangesIn(p: Marked, at: int): seq<Range> {
    match p
    case Tail(_) => []
    case Cut(g, v, _, rest) =>
      var start := at + |g|;
      [Range(start, start + |v|)] + RangesIn(rest, start + |v|)
  }

  function RangesOf(spans: seq<Span>): seq<Range> {
    seq(|spans|, i requires 0 <= i < |spans| => Range(spans[i].start, spans[i].end))
  }

  /** Byte i of the original text lies in a masked value. */
  ghost predicate Hidden(p: Marked, i: int) {
    exists r :: r in RangesIn(p, 0) && r.start <= i < r.end
  }

  /** A cut masks exactly the spans it is given, each one whole. */
  lemma {:induction false} MarkRanges(text: Bytes, kept: seq<Span>, last: int, st: SessionState)
    requires 0 <= last <= |text| && AllProper(kept, |text|) && Disjoint(kept, last)
    ensures RangesIn(Mark(text, kept, last, st).0, last) == RangesOf(kept)
  {
    if kept == [] {
    } else {
      var k, tail := kept[0], kept[1..];
      assert Proper(k, |text|);
      var st1 := Allot(st, k.kind, text[k.start..k.end]).0;
      MarkRanges(text, tail, k.end, st1);
      assert RangesOf(kept) == [Range(k.start, k.end)] + RangesOf(tail);
    }
  }

  lemma MarkTextRanges(det: Detectors, text: Bytes, st: SessionState)
    requires InRange(det)
    ensures RangesIn(MarkText(det, text, st).0, 0) == RangesOf(Kept(det, text))
  {
    KeptFits(det, text);
    MarkRanges(text, Kept(det, text), 0, st);
  }

  lemma HiddenIsMasked(det: Detectors, text: Bytes, p: Marked, i: int)
    requires RangesIn(p, 0) == RangesOf(Kept(det, text))
    ensures Hidden(p, i) <==> Masked(Kept(det, text), i)
  {
    var kept := Kept(det, text);
    if Masked(kept, i) {
      var k :| k in kept && k.start <= i < k.end;
      var j :| 0 <= j < |kept| && kept[j] == k;
      assert RangesOf(kept)[j] in RangesIn(p, 0);
    }
    if Hidden(p, i) {
      var r :| r in RangesIn(p, 0) && r.start <= i < r.end;
      var j :| 0 <= j < |kept| && RangesOf(kept)[j] == r;
      assert kept[j] in kept;
    }
  }

  // ---------------------------------------------------------------- what the detectors are owed

  /** A trusted span, or a guess that shares no byte with any trusted span. */
  ghost predicate Detected(det: Detectors, text: Bytes, s: Span) {
    s in det.sure(text) || (s in det.guess(text) && forall t | t in det.sure(text) :: !ShareByte(t, s))
  }

  lemma DetectedIsMerged(det: Detectors, text: Bytes, s: Span)
    requires InRange(det)
    ensures Detected(det, text, s) <==> s in Resolved(det.sure(text), det.guess(text))
  {
    ResolvedHas(det.sure(text), det.guess(text), s);
    if s in det.guess(text) {
      forall t | t in det.sure(text)
        ensures Overlap(t, s) <==> ShareByte(t, s)
      {
        assert Proper(t, |text|) && Proper(s, |text|);
        OverlapSharesByte(t, s);
      }
    }
  }

  /** A cut of the text at the spans that the two tiers leave. */
  ghost predicate CutOf(det: Detectors, text: Bytes, p: Marked) {
    Original(p) == text && RangesIn(p, 0) == RangesOf(Kept(det, text))
  }

  lemma MarkTextCuts(det: Detectors, text: Bytes, st: SessionState)
    requires InRange(det)
    ensures CutOf(det, text, MarkText(det, text, st).0)
  {
    MarkTextRanges(det, text, st);
    MarkCuts(text, Kept(det, text), 0, st);
    assert text[0..] == text;
  }

  /** Every detected span has its first byte masked, whatever it overlaps. */
  lemma DetectedStartsHidden(det: Detectors, text: Bytes, p: Marked, s: Span)
    requires InRange(det) && CutOf(det, text, p) && Detected(det, text, s)
    ensures Hidden(p, s.start)
  {
    var merged := Resolved(det.sure(text), det.guess(text));
    ResolvedProper(det.sure(text), det.guess(text), |text|);
    DetectedIsMerged(det, text, s);
    assert Proper(s, |text|);
    SweepGuarantee(merged, |text|);
    HiddenIsMasked(det, text, p, s.start);
    if s in Chosen(merged) {
      assert Masked(Kept(det, text), s.start);
    }
  }

  /** When no two detected spans overlap in part, all bytes of all of them are masked. */
  lemma DetectedHidden(det: Detectors, text: Bytes, p: Marked, s: Span, i: int)
    requires InRange(det) && CutOf(det, text, p) && Detected(det, text, s) && s.start <= i < s.end
    requires forall a, b | Detected(det, text, a) && Detected(det, text, b) :: NestedOrDisjoint(a, b)
    ensures Hidden(p, i)
  {
    var merged := Resolved(det.sure(text), det.guess(text));
    ResolvedProper(det.sure(text), det.guess(text), |text|);
    DetectedIsMerged(det, text, s);
    forall a, b | a in merged && b in merged
      ensures NestedOrDisjoint(a, b)
    {
      DetectedIsMerged(det, text, a);
      DetectedIsMerged(det, text, b);
    }
    NestedSpansCovered(merged, |text|);
    HiddenIsMasked(det, text, p, i);
  }

  /** Nothing else is masked: each masked range is that of a detected span. */
  lemma HiddenIsDetected(det: Detectors, text: Bytes, p: Marked, r: Range)
    requires InRange(det) && CutOf(det, text, p) && r in RangesIn(p, 0)
    ensures exists s :: Detected(det, text, s) && r == Range(s.start, s.end)
  {
    var kept := Kept(det, text);
    var j :| 0 <= j < |kept| && RangesOf(kept)[j] == r;
    ResolvedProper(det.sure(text), det.guess(text), |text|);
    SweepGuarantee(Resolved(det.sure(text), det.guess(text)), |text|);
    assert kept[j] in kept;
    DetectedIsMerged(det, text, kept[j]);
  }

  // ---------------------------------------------------------------- masked documents

  /** The token stands for the value. */
  ghost predicate StandsFor(m: map<Bytes, Bytes>, t: Bytes, value: Bytes) {
    IsToken(t) && t in m && m[t] == value
  }

  /** The text with each span that the two tiers leave replaced by a token that stands for its bytes. */
  ghost predicate TextMasked(det: Detectors, m: map<Bytes, Bytes>, text: Bytes, masked: Bytes) {
    exists p :: CutOf(det, text, p) && Known(m, p) && MaskedText(p) == masked
  }

  /** A non-empty string under a credential key. */
  predicate Credential(det: Detectors, k: Bytes, v: Json) { det.secretKey(k) && v.Str? && |v.s| > 0 }

  /**
   The masked tree: every string is masked as a text, except that a non-empty string under a
   credential key becomes a token as a whole; keys and everything else stay.
   */
  ghost predicate TreeMasked(det: Detectors, m: map<Bytes, Bytes>, v: Json, w: Json)
    decreases v
  {
    match v
    case Str(s) => w.Str? && TextMasked(det, m, s, w.s)
    case Arr(xs) => w.Arr? && |w.items| == |xs| && forall i | 0 <= i < |xs| :: TreeMasked(det, m, xs[i], w.items[i])
    case Obj(o) =>
      && w.Obj? && w.members.Keys == o.Keys
      && forall k | k in o ::
           if Credential(det, k, o[k]) then w.members[k].Str? && StandsFor(m, w.members[k].s, o[k].s)
           else TreeMasked(det, m, o[k], w.members[k])
    case _ => w == v
  }

  ghost predicate ChildMasked(det: Detectors, m: map<Bytes, Bytes>, secret: bool, v: Json, w: Json) {
    if secret && v.Str? && |v.s| > 0 then w.Str? && StandsFor(m, w.s, v.s) else TreeMasked(det, m, v, w)
  }

  lemma StringMasks(det: Detectors, m: map<Bytes, Bytes>, s: Bytes, st: SessionState)
    requires InRange(det) && Consistent(st) && Binds(m, MarkText(det, s, st).1)
    ensures TextMasked(det, m, s, MaskedText(MarkText(det, s, st).0))
  {
    var (p, st1) := MarkText(det, s, st);
    MarkTextCuts(det, s, st);
    MarkTextKeeps(det, s, st);
    KnownLater(st1.mapping, m, p);
  }

  /** The walk masks the tree: everything a detector or a credential key claims, at every depth. */
  lemma {:induction false} WalkMasks(det: Detectors, m: map<Bytes, Bytes>, v: Json, st: SessionState)
    requires InRange(det) && Consistent(st) && Binds(m, Walk(det, v, st).1)
    ensures TreeMasked(det, m, v, Walk(det, v, st).0)
    decreases v, 1
  {
    match v
    case Str(s) => StringMasks(det, m, s, st);
    case Arr(items) =>
      ListMasks(det, m, HidesNone(|items|), items, st, v);
      assert forall i | 0 <= i < |items| :: !HidesNone(|items|)[i];
    case Obj(o) =>
      var ks := Sorted(o.Keys);
      MembersUnder(o, ks, v);
      ListMasks(det, m, Hides(det, ks), Values(o, ks), st, v);
      ZippedMasked(det, m, o, WalkList(det, Hides(det, ks), Values(o, ks), st, v).0);
    case _ =>
  }

  lemma ZippedMasked(det: Detectors, m: map<Bytes, Bytes>, o: map<Bytes, Json>, ws: seq<Json>)
    requires |ws| == |Sorted(o.Keys)|
    requires var ks := Sorted(o.Keys);
             forall i | 0 <= i < |ws| :: ChildMasked(det, m, Hides(det, ks)[i], Values(o, ks)[i], ws[i])
    ensures TreeMasked(det, m, Obj(o), Obj(Zip(Sorted(o.Keys), ws)))
  {
    var ks := Sorted(o.Keys);
    var z := Zip(ks, ws);
    forall k | k in o
      ensures k in z && ChildMasked(det, m, det.secretKey(k), o[k], z[k])
    {
      var i := MemberOf(ks, k);
      ZipAt(ks, ws, i);
      assert Values(o, ks)[i] == o[k] && Hides(det, ks)[i] == det.secretKey(k);
    }
    assert z.Keys == o.Keys by { ZipKeys(ks, ws); }
  }

  lemma {:induction false} ChildMasks(det: Detectors, m: map<Bytes, Bytes>, secret: bool, v: Json, st: SessionState)
    requires InRange(det) && Consistent(st) && Binds(m, WalkChild(det, secret, v, st).1)
    ensures ChildMasked(det, m, secret, v, WalkChild(det, secret, v, st).0)
    decreases v, 2
  {
    if secret && v.Str? && |v.s| > 0 {
      PasswordIsKind();
      TokenForKeeps(st, PASSWORD, v.s);
    } else {
      WalkMasks(det, m, v, st);
    }
  }

  lemma {:induction false} ListMasks(det: Detectors, m: map<Bytes, Bytes>, secret: seq<bool>, vs: seq<Json>,
                                     st: SessionState, parent: Json)
    requires InRange(det) && Consistent(st) && |secret| == |vs| && Under(vs, parent)
    requires Binds(m, WalkList(det, secret, vs, st, parent).1)
    ensures var ws := WalkList(det, secret, vs, st, parent).0;
            forall i | 0 <= i < |vs| :: ChildMasked(det, m, secret[i], vs[i], ws[i])
    decreases parent, 0, |vs|
  {
    if vs == [] {
    } else {
      var st1 := WalkChild(det, secret[0], vs[0], st).1;
      assert Consistent(st1) by { ChildGrows(det, secret[0], vs[0], st); }
      ListWalkStep(det, secret, vs, st, parent);
      ListBinds(m, det, secret[1..], vs[1..], st1, parent);
      ChildMasks(det, m, secret[0], vs[0], st);
      ListMasks(det, m, secret[1..], vs[1..], st1, parent);
    }
  }

  /** The case of one member: a credential becomes the first token of its kind, whatever the detectors find in it. */
  lemma CredentialReplaced(det: Detectors, k: Bytes, x: Bytes)
    requires det.secretKey(k) && x != []
    ensures Walk(det, Obj(map[k := Str(x)]), FRESH).0 == Obj(map[k := Str(PrintToken(PASSWORD, 1))])
  {
    var o := map[k := Str(x)];
    assert o.Keys == {k};
    AscendingUnique([k], Sorted({k}));
    MembersUnder(o, [k], Obj(o));
    assert Values(o, [k]) == [Str(x)] && Hides(det, [k]) == [true] && [Str(x)][1..] == [] && [k][1..] == [];
    var (st1, t) := Allot(FRESH, PASSWORD, x);
    assert t == PrintToken(PASSWORD, 1);
    assert WalkChild(det, true, Str(x), FRESH) == (Str(t), st1);
    assert WalkList(det, [true][1..], [], st1, Obj(o)) == ([], st1);
    assert WalkList(det, [true], [Str(x)], FRESH, Obj(o)).0 == [Str(t)] + [];
    assert Zip([k], [Str(t)]) == map[k := Str(t)] + Zip([], []);
  }

  // ---------------------------------------------------------------- which tokens

  /** The requests for tokens that masking a text makes, in order. */
  function CallsOf(text: Bytes, kept: seq<Span>): seq<Call>
    requires AllProper(kept, |text|)
  {
    seq(|kept|, i requires 0 <= i < |kept| => Call(kept[i].kind, text[kept[i].start..kept[i].end]))
  }

  lemma {:induction false} MarkCalls(text: Bytes, kept: seq<Span>, last: int, st: SessionState)
    requires 0 <= last <= |text| && AllProper(kept, |text|) && Disjoint(kept, last)
    ensures Mark(text, kept, last, st).1 == RunCalls(st, CallsOf(text, kept))
  {
    if kept == [] {
    } else {
      var k, tail := kept[0], kept[1..];
      assert Proper(k, |text|);
      MarkCalls(text, tail, k.end, Allot(st, k.kind, text[k.start..k.end]).0);
      assert CallsOf(text, kept)[1..] == CallsOf(text, tail);
    }
  }

  ghost function TextCalls(det: Detectors, text: Bytes): seq<Call>
    requires InRange(det)
  {
    KeptFits(det, text);
    CallsOf(text, Kept(det, text))
  }

  /** The requests that masking a tree makes: in document order, with members in ascending order of their keys. */
  ghost function TreeCalls(det: Detectors, v: Json): seq<Call>
    requires InRange(det)
    decreases v, 1
  {
    match v
    case Str(s) => TextCalls(det, s)
    case Arr(items) => ListCalls(det, HidesNone(|items|), items, v)
    case Obj(o) =>
      var ks := Sorted(o.Keys);
      MembersUnder(o, ks, v);
      ListCalls(det, Hides(det, ks), Values(o, ks), v)
    case _ => []
  }

  ghost function ListCalls(det: Detectors, secret: seq<bool>, vs: seq<Json>, parent: Json): seq<Call>
    requires InRange(det) && |secret| == |vs| && Under(vs, parent)
    decreases parent, 0, |vs|
  {
    if vs == [] then []
    else
      (if secret[0] && vs[0].Str? && |vs[0].s| > 0 then [Call(PASSWORD, vs[0].s)] else TreeCalls(det, vs[0]))
      + ListCalls(det, secret[1..], vs[1..], parent)
  }

  lemma {:induction false} WalkCalls(det: Detectors, v: Json, st: SessionState)
    requires InRange(det)
    ensures Walk(det, v, st).1 == RunCalls(st, TreeCalls(det, v))
    decreases v, 1
  {
    match v
    case Str(s) =>
      KeptFits(det, s);
      MarkCalls(s, Kept(det, s), 0, st);
    case Arr(items) => ListRuns(det, HidesNone(|items|), items, st, v);
    case Obj(o) =>
      var ks := Sorted(o.Keys);
      MembersUnder(o, ks, v);
      ListRuns(det, Hides(det, ks), Values(o, ks), st, v);
    case _ =>
  }

  lemma {:induction false} ChildRuns(det: Detectors, secret: bool, v: Json, st: SessionState)
    requires InRange(det)
    ensures WalkChild(det, secret, v, st).1
         == RunCalls(st, if secret && v.Str? && |v.s| > 0 then [Call(PASSWORD, v.s)] else TreeCalls(det, v))
    decreases v, 2
  {
    if secret && v.Str? && |v.s| > 0 {
      var one := [Call(PASSWORD, v.s)];
      assert one[1..] == [];
      assert RunCalls(st, one) == RunCalls(Allot(st, PASSWORD, v.s).0, []);
    } else {
      WalkCalls(det, v, st);
    }
  }

  lemma {:induction false} ListRuns(det: Detectors, secret: seq<bool>, vs: seq<Json>, st: SessionState, parent: Json)
    requires InRange(det) && |secret| == |vs| && Under(vs, parent)
    ensures WalkList(det, secret, vs, st, parent).1 == RunCalls(st, ListCalls(det, secret, vs, parent))
    decreases parent, 0, |vs|
  {
    if vs == [] {
    } else {
      var st1 := WalkChild(det, secret[0], vs[0], st).1;
      ListWalkStep(det, secret, vs, st, parent);
      ChildRuns(det, secret[0], vs[0], st);
      ListRuns(det, secret[1..], vs[1..], st1, parent);
      var one := if secret[0] && vs[0].Str? && |vs[0].s| > 0 then [Call(PASSWORD, vs[0].s)] else TreeCalls(det, vs[0]);
      RunAppend(st, one, ListCalls(det, secret[1..], vs[1..], parent));
    }
  }

  /**
   Which token a new value gets in a document: one of the kind it is first found with, in document
   order, numbered by how many new values were first found with that kind before it.
   */
  lemma TokensOfDocument(det: Detectors, v: Json, st: SessionState, i: nat, t: Bytes)
    requires InRange(det) && Consistent(st) && i < |TreeCalls(det, v)| && Names(st, TreeCalls(det, v), i)
    requires StandsFor(Walk(det, v, st).1.mapping, t, TreeCalls(det, v)[i].value)
    ensures NumberedByCall(st, TreeCalls(det, v), i, t)
  {
    WalkRuns(det, v, st);
    TokenNamed(st, TreeCalls(det, v), Walk(det, v, st).1, i, t);
  }

  lemma WalkRuns(det: Detectors, v: Json, st: SessionState)
    requires InRange(det) && Consistent(st)
    ensures var last := Walk(det, v, st).1;
            last == RunCalls(st, TreeCalls(det, v)) && Inverses(last.mapping, last.tokenOf)
  {
    WalkGrows(det, v, st);
    WalkCalls(det, v, st);
  }
}
