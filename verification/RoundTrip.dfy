/**
 The round trip of a JSON document: what masking keeps of the tree and of the session, and
 exactly when the restored document decodes to the original one.
 */
module RoundTrip {
  import opened ByteStrings
  import opened Utf8
  import opened TokenGrammar
  import opened Rewriting
  import opened Spans
  import opened Sessions
  import opened Masking
  import opened KeyOrder
  import opened JsonTree
  import opened JsonSplice
  import opened JsonRestore
  import opened JsonMask

  // ---------------------------------------------------------------- the session over a walk

  /** The bytes of all strings of a tree: at most this many values can be masked in it. */
  ghost function Weight(v: Json): nat
    decreases v, 1
  {
    match v
    case Str(s) => |s|
    case Arr(items) => WeightList(items, v)
    case Obj(o) =>
      MembersUnder(o, Sorted(o.Keys), v);
      WeightList(Values(o, Sorted(o.Keys)), v)
    case _ => 0
  }

  ghost function WeightList(vs: seq<Json>, parent: Json): nat
    requires Under(vs, parent)
    decreases parent, 0, |vs|
  {
    if vs == [] then 0 else Weight(vs[0]) + WeightList(vs[1..], parent)
  }

  /** From st to st1 the session kept its invariant and its bindings, and gained at most n values. */
  ghost predicate Grown(det: Detectors, st: SessionState, st1: SessionState, n: nat) {
    && Consistent(st1) && Extends(st, st1) && |st1.mapping| <= |st.mapping| + n
    && (ShortKinds(det) && LettersAtMost(st, 53) ==> LettersAtMost(st1, 53))
  }

  lemma GrownTwice(det: Detectors, a: SessionState, b: SessionState, c: SessionState, i: nat, j: nat, n: nat)
    requires Grown(det, a, b, i) && Grown(det, b, c, j) && n == i + j
    ensures Grown(det, a, c, n)
  {
    ExtendsTransitive(a, b, c);
  }

  /** The walk keeps the session invariant over the whole tree, and never rebinds a value. */
  lemma {:induction false} WalkGrows(det: Detectors, v: Json, st: SessionState)
    requires InRange(det) && Consistent(st)
    ensures Grown(det, st, Walk(det, v, st).1, Weight(v))
    decreases v, 1
  {
    match v
    case Str(s) => MarkTextKeeps(det, s, st);
    case Arr(items) => ListGrows(det, HidesNone(|items|), items, st, v);
    case Obj(o) =>
      var ks := Sorted(o.Keys);
      MembersUnder(o, ks, v);
      ListGrows(det, Hides(det, ks), Values(o, ks), st, v);
    case _ =>
  }

  lemma {:induction false} ChildGrows(det: Detectors, secret: bool, v: Json, st: SessionState)
    requires InRange(det) && Consistent(st)
    ensures Grown(det, st, WalkChild(det, secret, v, st).1, Weight(v))
    decreases v, 2
  {
    if MaskedWhole(secret, v) {
      TokenForKeeps(st, PASSWORD, v.s);
    } else {
      WalkGrows(det, v, st);
    }
  }

  lemma ListWalkStep(det: Detectors, secret: seq<bool>, vs: seq<Json>, st: SessionState, parent: Json)
    requires vs != [] && |secret| == |vs| && Under(vs, parent)
    ensures var st1 := WalkChild(det, secret[0], vs[0], st).1;
            WalkList(det, secret, vs, st, parent).1 == WalkList(det, secret[1..], vs[1..], st1, parent).1
    ensures WeightList(vs, parent) == Weight(vs[0]) + WeightList(vs[1..], parent)
  {
  }

  lemma {:induction false} ListGrows(det: Detectors, secret: seq<bool>, vs: seq<Json>, st: SessionState, parent: Json)
    requires InRange(det) && Consistent(st) && |secret| == |vs| && Under(vs, parent)
    ensures Grown(det, st, WalkList(det, secret, vs, st, parent).1, WeightList(vs, parent))
    decreases parent, 0, |vs|
  {
    if vs == [] {
    } else {
      var st1 := WalkChild(det, secret[0], vs[0], st).1;
      ChildGrows(det, secret[0], vs[0], st);
      ListGrows(det, secret[1..], vs[1..], st1, parent);
      ListWalkStep(det, secret, vs, st, parent);
      GrownTwice(det, st, st1, WalkList(det, secret, vs, st, parent).1,
                 Weight(vs[0]), WeightList(vs[1..], parent), WeightList(vs, parent));
    }
  }

  // ---------------------------------------------------------------- the skeleton

  /** The trees differ in string leaves only. */
  ghost predicate SameSkeleton(a: Json, b: Json)
    decreases a
  {
    match a
    case Str(_) => b.Str?
    case Arr(xs) => b.Arr? && |xs| == |b.items| && forall i | 0 <= i < |xs| :: SameSkeleton(xs[i], b.items[i])
    case Obj(o) => b.Obj? && o.Keys == b.members.Keys && forall k | k in o :: SameSkeleton(o[k], b.members[k])
    case _ => a == b
  }

  lemma MemberOf(ks: seq<Bytes>, k: Bytes) returns (i: nat)
    requires k in ks
    ensures i < |ks| && ks[i] == k
  {
    i :| i < |ks| && ks[i] == k;
  }

  lemma ZippedSkeleton(o: map<Bytes, Json>, ws: seq<Json>)
    requires |ws| == |Sorted(o.Keys)|
    requires forall i | 0 <= i < |ws| :: SameSkeleton(Values(o, Sorted(o.Keys))[i], ws[i])
    ensures SameSkeleton(Obj(o), Obj(Zip(Sorted(o.Keys), ws)))
  {
    var ks := Sorted(o.Keys);
    var z := Zip(ks, ws);
    forall k | k in o
      ensures k in z && SameSkeleton(o[k], z[k])
    {
      var i := MemberOf(ks, k);
      ZipAt(ks, ws, i);
      assert Values(o, ks)[i] == o[k];
    }
    assert z.Keys == o.Keys by { ZipKeys(ks, ws); }
  }

  lemma {:induction false} WalkKeepsSkeleton(det: Detectors, v: Json, st: SessionState)
    ensures SameSkeleton(v, Walk(det, v, st).0)
    decreases v, 1
  {
    match v
    case Arr(items) => ListKeepsSkeleton(det, HidesNone(|items|), items, st, v);
    case Obj(o) =>
      var ks := Sorted(o.Keys);
      MembersUnder(o, ks, v);
      ListKeepsSkeleton(det, Hides(det, ks), Values(o, ks), st, v);
      ZippedSkeleton(o, WalkList(det, Hides(det, ks), Values(o, ks), st, v).0);
    case _ =>
  }

  lemma {:induction false} ListKeepsSkeleton(det: Detectors, secret: seq<bool>, vs: seq<Json>, st: SessionState,
                                             parent: Json)
    requires |secret| == |vs| && Under(vs, parent)
    ensures var ws := WalkList(det, secret, vs, st, parent).0;
            forall i | 0 <= i < |vs| :: SameSkeleton(vs[i], ws[i])
    decreases parent, 0, |vs|
  {
    if vs == [] {
    } else {
      if !MaskedWhole(secret[0], vs[0]) { WalkKeepsSkeleton(det, vs[0], st); }
      var (x, st1) := WalkChild(det, secret[0], vs[0], st);
      ListKeepsSkeleton(det, secret[1..], vs[1..], st1, parent);
    }
  }

  // ---------------------------------------------------------------- valid UTF-8 stays valid

  lemma ValidSlice(text: Bytes, a: int, b: int)
    requires 0 <= a <= b <= |text| && Valid(text[..a]) && Valid(text[..b])
    ensures Valid(text[a..b])
  {
    assert text[..b] == text[..a] + text[a..b];
    ValidRest(text[..a], text[a..b]);
  }

  lemma AllotValid(st: SessionState, kind: Bytes, value: Bytes)
    requires Consistent(st) && IsKind(kind) && ValidValues(st.mapping) && Valid(value)
    ensures var (st1, t) := Allot(st, kind, value); Consistent(st1) && ValidValues(st1.mapping) && Valid(t)
  {
    TokenForKeeps(st, kind, value);
    TokenIsTokenBytes(Allot(st, kind, value).1);
    TokenBytesUnescaped(Allot(st, kind, value).1);
  }

  /** What marking does with the first span it masks. */
  lemma MarkStep(text: Bytes, kept: seq<Span>, last: int, st: SessionState)
    requires 0 <= last <= |text| && kept != [] && last <= kept[0].start <= kept[0].end <= |text|
    ensures var k := kept[0];
            var (st1, t) := Allot(st, k.kind, text[k.start..k.end]);
            var (rest, st2) := Mark(text, kept[1..], k.end, st1);
            var (p, out) := Mark(text, kept, last, st);
            MaskedText(p) == text[last..k.start] + t + MaskedText(rest) && out == st2
  {
  }

  lemma FirstCut(text: Bytes, kept: seq<Span>, last: int)
    requires 0 <= last <= |text| && Valid(text) && Valid(text[..last]) && CutsAtRunes(text, kept)
    requires AllProper(kept, |text|) && kept != [] && last <= kept[0].start
    ensures var k := kept[0];
            && Proper(k, |text|) && Valid(text[..k.end])
            && Valid(text[last..k.start]) && Valid(text[k.start..k.end])
    ensures AllProper(kept[1..], |text|) && CutsAtRunes(text, kept[1..])
  {
    var k := kept[0];
    assert k in kept && Proper(k, |text|);
    ValidSlice(text, last, k.start);
    ValidSlice(text, k.start, k.end);
    assert forall x | x in kept[1..] :: x in kept;
  }

  lemma {:induction false} MarkValid(text: Bytes, kept: seq<Span>, last: int, st: SessionState)
    requires 0 <= last <= |text| && Valid(text) && Valid(text[..last]) && CutsAtRunes(text, kept)
    requires AllProper(kept, |text|) && Consistent(st) && ValidValues(st.mapping)
    ensures Valid(MaskedText(Mark(text, kept, last, st).0)) && ValidValues(Mark(text, kept, last, st).1.mapping)
  {
    if kept == [] || !(last <= kept[0].start <= kept[0].end <= |text|) {
      assert text[..|text|] == text;
      ValidSlice(text, last, |text|);
    } else {
      var k, tail := kept[0], kept[1..];
      FirstCut(text, kept, last);
      AllotValid(st, k.kind, text[k.start..k.end]);
      var (st1, t) := Allot(st, k.kind, text[k.start..k.end]);
      MarkValid(text, tail, k.end, st1);
      MarkStep(text, kept, last, st);
      ValidAppend(text[last..k.start], t);
      ValidAppend(text[last..k.start] + t, MaskedText(Mark(text, tail, k.end, st1).0));
    }
  }

  lemma MarkTextValid(det: Detectors, text: Bytes, st: SessionState)
    requires InRange(det) && OnRunes(det) && Valid(text) && Consistent(st) && ValidValues(st.mapping)
    ensures Valid(MaskedText(MarkText(det, text, st).0)) && ValidValues(MarkText(det, text, st).1.mapping)
  {
    KeptFits(det, text);
    assert CutsAtRunes(text, det.sure(text)) && CutsAtRunes(text, det.guess(text));
    assert text[..0] == [];
    MarkValid(text, Kept(det, text), 0, st);
  }

  lemma {:induction false} WalkValid(det: Detectors, v: Json, st: SessionState)
    requires InRange(det) && OnRunes(det) && WellFormed(v) && Consistent(st) && ValidValues(st.mapping)
    ensures WellFormed(Walk(det, v, st).0) && ValidValues(Walk(det, v, st).1.mapping)
    decreases v, 1
  {
    match v
    case Str(s) => MarkTextValid(det, s, st);
    case Arr(items) => ListValid(det, HidesNone(|items|), items, st, v);
    case Obj(o) =>
      var ks := Sorted(o.Keys);
      ObjectParts(o, v);
      var ws := WalkList(det, Hides(det, ks), Values(o, ks), st, v).0;
      ListValid(det, Hides(det, ks), Values(o, ks), st, v);
      ZippedWellFormed(ks, ws);
    case _ =>
  }

  lemma ZippedWellFormed(ks: seq<Bytes>, ws: seq<Json>)
    requires |ks| == |ws| && Ascending(ks) && AllWellFormed(ws) && forall i | 0 <= i < |ks| :: Valid(ks[i])
    ensures WellFormed(Obj(Zip(ks, ws)))
  {
    ZipKeys(ks, ws);
    forall k | k in Zip(ks, ws)
      ensures Valid(k) && WellFormed(Zip(ks, ws)[k])
    {
      var i :| 0 <= i < |ks| && ks[i] == k;
      ZipAt(ks, ws, i);
    }
  }

  lemma {:induction false} ChildValid(det: Detectors, secret: bool, v: Json, st: SessionState)
    requires InRange(det) && OnRunes(det) && WellFormed(v) && Consistent(st) && ValidValues(st.mapping)
    ensures WellFormed(WalkChild(det, secret, v, st).0) && ValidValues(WalkChild(det, secret, v, st).1.mapping)
    decreases v, 2
  {
    if MaskedWhole(secret, v) {
      WholeValid(det, secret, v, st);
    } else {
      assert WalkChild(det, secret, v, st) == Walk(det, v, st);
      WalkValid(det, v, st);
    }
  }

  lemma WholeValid(det: Detectors, secret: bool, v: Json, st: SessionState)
    requires MaskedWhole(secret, v) && WellFormed(v) && Consistent(st) && ValidValues(st.mapping)
    ensures WellFormed(WalkChild(det, secret, v, st).0) && ValidValues(WalkChild(det, secret, v, st).1.mapping)
  {
    AllotValid(st, PASSWORD, v.s);
  }

  lemma WellFormedStep(x: Json, xs: seq<Json>)
    requires WellFormed(x) && AllWellFormed(xs)
    ensures AllWellFormed([x] + xs)
  {
  }

  lemma {:induction false} ListValid(det: Detectors, secret: seq<bool>, vs: seq<Json>, st: SessionState, parent: Json)
    requires InRange(det) && OnRunes(det) && Consistent(st) && ValidValues(st.mapping)
    requires |secret| == |vs| && Under(vs, parent) && AllWellFormed(vs)
    ensures AllWellFormed(WalkList(det, secret, vs, st, parent).0)
    ensures ValidValues(WalkList(det, secret, vs, st, parent).1.mapping)
    decreases parent, 0, |vs|
  {
    if vs == [] {
    } else {
      var (x, st1) := WalkChild(det, secret[0], vs[0], st);
      var (xs, st2) := WalkList(det, secret[1..], vs[1..], st1, parent);
      assert WalkList(det, secret, vs, st, parent) == ([x] + xs, st2);
      ChildValid(det, secret[0], vs[0], st);
      assert Consistent(st1) by { ChildGrows(det, secret[0], vs[0], st); }
      ListValid(det, secret[1..], vs[1..], st1, parent);
      WellFormedStep(x, xs);
    }
  }

  // ---------------------------------------------------------------- when a tree comes back

  ghost predicate KeysClean(m: Substitution, v: Json)
    decreases v
  {
    match v
    case Arr(items) => forall i | 0 <= i < |items| :: KeysClean(m, items[i])
    case Obj(o) => forall k | k in o :: NoHit(m, k) && KeysClean(m, o[k])
    case _ => true
  }

  /** No unmasked stretch of a string holds a known token, and every token used is short enough. */
  ghost predicate CleanTree(m: Substitution, det: Detectors, v: Json, st: SessionState)
    decreases v, 1
  {
    match v
    case Str(s) => Clean(m, MarkText(det, s, st).0)
    case Arr(items) => CleanList(m, det, HidesNone(|items|), items, st, v)
    case Obj(o) =>
      var ks := Sorted(o.Keys);
      MembersUnder(o, ks, v);
      CleanList(m, det, Hides(det, ks), Values(o, ks), st, v)
    case _ => true
  }

  ghost predicate CleanChild(m: Substitution, det: Detectors, secret: bool, v: Json, st: SessionState)
    decreases v, 2
  {
    if MaskedWhole(secret, v) then |Allot(st, PASSWORD, v.s).1| <= MAX_TOKEN_LEN
    else CleanTree(m, det, v, st)
  }

  ghost predicate CleanList(m: Substitution, det: Detectors, secret: seq<bool>, vs: seq<Json>, st: SessionState,
                            parent: Json)
    requires |secret| == |vs| && Under(vs, parent)
    decreases parent, 0, |vs|
  {
    vs == [] ||
    (&& CleanChild(m, det, secret[0], vs[0], st)
     && CleanList(m, det, secret[1..], vs[1..], WalkChild(det, secret[0], vs[0], st).1, parent))
  }

  ghost predicate Binds(m: Substitution, st: SessionState) {
    forall t | t in st.mapping :: t in m && m[t] == st.mapping[t]
  }

  /** A text leaf: restored when clean, and otherwise only if some value starts with `[`. */
  lemma LeafRestores(m: Substitution, p: Marked)
    requires Known(m, p)
    ensures Clean(m, p) ==> Rewrite(m, MaskedText(p)) == Original(p)
    ensures Blunt(m) ==> (Rewrite(m, MaskedText(p)) == Original(p) <==> Clean(m, p))
  {
    if Clean(m, p) {
      CleanExpands(m, m, p);
      ExpandValues(m, p);
    }
    if Blunt(m) { RestoredIffClean(m, p); }
  }

  lemma StringRestores(m: Substitution, det: Detectors, s: Bytes, st: SessionState)
    requires InRange(det) && Consistent(st) && Binds(m, MarkText(det, s, st).1)
    ensures var (p, _) := MarkText(det, s, st);
            && (Clean(m, p) ==> Rewrite(m, MaskedText(p)) == s)
            && (Blunt(m) ==> (Rewrite(m, MaskedText(p)) == s <==> Clean(m, p)))
  {
    MarkTextKeeps(det, s, st);
    var (p, st1) := MarkText(det, s, st);
    KnownLater(st1.mapping, m, p);
    LeafRestores(m, p);
  }

  /** A value masked whole is one token. */
  lemma WholeRestores(m: Substitution, t: Bytes, v: Bytes)
    requires IsToken(t) && t in m && m[t] == v && v != []
    ensures |t| <= MAX_TOKEN_LEN ==> Rewrite(m, t) == v
    ensures Blunt(m) ==> (Rewrite(m, t) == v <==> |t| <= MAX_TOKEN_LEN)
  {
    assert t + [] == t;
    if |t| <= MAX_TOKEN_LEN {
      RewriteToken(m, t, []);
      assert v + [] == v;
    } else {
      LongTokenPasses(m, t, []);
    }
  }

  lemma {:induction false} SubstitutedAt(m: Substitution, vs: seq<Json>, parent: Json)
    requires Under(vs, parent)
    ensures forall i | 0 <= i < |vs| :: SubstitutedList(m, vs, parent)[i] == Substituted(m, vs[i])
  {
    if vs == [] {
    } else {
      SubstitutedAt(m, vs[1..], parent);
    }
  }

  lemma CleanKeysStay(m: Substitution, ks: seq<Bytes>)
    requires forall i | 0 <= i < |ks| :: NoHit(m, ks[i])
    ensures RewrittenKeys(m, ks) == ks
  {
    forall i | 0 <= i < |ks|
      ensures Rewrite(m, ks[i]) == ks[i]
    {
      RewriteNoHit(m, ks[i]);
    }
  }

  lemma ZipInjective(ks: seq<Bytes>, a: seq<Json>, b: seq<Json>)
    requires |a| == |b| == |ks| && Ascending(ks)
    ensures Zip(ks, a) == Zip(ks, b) <==> a == b
  {
    ZipSorted(ks, a);
    ZipSorted(ks, b);
  }

  lemma SubstitutedObject(m: Substitution, ks: seq<Bytes>, ws: seq<Json>)
    requires |ws| == |ks| && Ascending(ks) && forall i | 0 <= i < |ks| :: NoHit(m, ks[i])
    ensures Under(ws, Obj(Zip(ks, ws)))
    ensures Substituted(m, Obj(Zip(ks, ws))) == Obj(Zip(ks, SubstitutedList(m, ws, Obj(Zip(ks, ws)))))
  {
    ZipSorted(ks, ws);
    MembersUnder(Zip(ks, ws), ks, Obj(Zip(ks, ws)));
    CleanKeysStay(m, ks);
  }

  ghost predicate AllRestored(m: Substitution, ws: seq<Json>, vs: seq<Json>)
    requires |ws| == |vs|
  {
    forall i | 0 <= i < |ws| :: Substituted(m, ws[i]) == vs[i]
  }

  lemma AllRestoredList(m: Substitution, ws: seq<Json>, vs: seq<Json>, parent: Json)
    requires |ws| == |vs| && Under(ws, parent)
    ensures AllRestored(m, ws, vs) <==> SubstitutedList(m, ws, parent) == vs
  {
    SubstitutedAt(m, ws, parent);
  }

  lemma ArrayRestores(m: Substitution, items: seq<Json>, ws: seq<Json>)
    requires |ws| == |items|
    ensures Substituted(m, Arr(ws)) == Arr(items) <==> AllRestored(m, ws, items)
  {
    AllRestoredList(m, ws, items, Arr(ws));
  }

  lemma ObjectRestores(m: Substitution, o: map<Bytes, Json>, ws: seq<Json>)
    requires |ws| == |Sorted(o.Keys)| && forall k | k in o :: NoHit(m, k)
    ensures Substituted(m, Obj(Zip(Sorted(o.Keys), ws))) == Obj(o) <==> AllRestored(m, ws, Values(o, Sorted(o.Keys)))
  {
    var ks := Sorted(o.Keys);
    assert forall i | 0 <= i < |ks| :: ks[i] in o;
    SubstitutedObject(m, ks, ws);
    var parent := Obj(Zip(ks, ws));
    AllRestoredList(m, ws, Values(o, ks), parent);
    ZipWhole(o);
    ZipInjective(ks, SubstitutedList(m, ws, parent), Values(o, ks));
  }

  /** Given clean, x is y; unless some value starts with `[`, only then. */
  ghost predicate Exactly(m: Substitution, equal: bool, clean: bool) {
    (clean ==> equal) && (Blunt(m) ==> (equal <==> clean))
  }

  /** Putting the values back into the masked tree gives the original when it is clean, and only then. */
  lemma {:induction false} WalkRestores(m: Substitution, det: Detectors, v: Json, st: SessionState)
    requires InRange(det) && Consistent(st) && Binds(m, Walk(det, v, st).1) && KeysClean(m, v)
    ensures Exactly(m, Substituted(m, Walk(det, v, st).0) == v, CleanTree(m, det, v, st))
    decreases v, 2
  {
    match v
    case Str(s) => StringRestores(m, det, s, st);
    case Arr(items) => WalkRestoresArray(m, det, items, v, st);
    case Obj(o) => WalkRestoresObject(m, det, o, v, st);
    case _ =>
  }

  lemma {:induction false} WalkRestoresArray(m: Substitution, det: Detectors, items: seq<Json>, v: Json,
                                             st: SessionState)
    requires v == Arr(items)
    requires InRange(det) && Consistent(st) && Binds(m, Walk(det, v, st).1) && KeysClean(m, v)
    ensures Exactly(m, Substituted(m, Walk(det, v, st).0) == v, CleanTree(m, det, v, st))
    decreases v, 1
  {
    var secret := HidesNone(|items|);
    ListRestores(m, det, secret, items, st, v);
    ArrayRestores(m, items, WalkList(det, secret, items, st, v).0);
  }

  lemma WalkOfObject(m: Substitution, det: Detectors, o: map<Bytes, Json>, st: SessionState)
    ensures var ks := Sorted(o.Keys);
            && Under(Values(o, ks), Obj(o))
            && var (ws, st1) := WalkList(det, Hides(det, ks), Values(o, ks), st, Obj(o));
               && Walk(det, Obj(o), st) == (Obj(Zip(ks, ws)), st1)
               && CleanTree(m, det, Obj(o), st) == CleanList(m, det, Hides(det, ks), Values(o, ks), st, Obj(o))
  {
    MembersUnder(o, Sorted(o.Keys), Obj(o));
  }

  lemma KeysOfObject(m: Substitution, o: map<Bytes, Json>)
    requires KeysClean(m, Obj(o))
    ensures forall k | k in o :: NoHit(m, k)
    ensures forall i | 0 <= i < |Sorted(o.Keys)| :: KeysClean(m, Values(o, Sorted(o.Keys))[i])
  {
    var ks := Sorted(o.Keys);
    assert forall i | 0 <= i < |ks| :: ks[i] in o && Values(o, ks)[i] == o[ks[i]];
  }

  lemma {:induction false} WalkRestoresObject(m: Substitution, det: Detectors, o: map<Bytes, Json>, v: Json,
                                              st: SessionState)
    requires v == Obj(o)
    requires InRange(det) && Consistent(st) && Binds(m, Walk(det, v, st).1) && KeysClean(m, v)
    ensures Exactly(m, Substituted(m, Walk(det, v, st).0) == v, CleanTree(m, det, v, st))
    decreases v, 1
  {
    var ks := Sorted(o.Keys);
    WalkOfObject(m, det, o, st);
    KeysOfObject(m, o);
    var ws := WalkList(det, Hides(det, ks), Values(o, ks), st, v).0;
    ListRestores(m, det, Hides(det, ks), Values(o, ks), st, v);
    ObjectRestores(m, o, ws);
    assert Walk(det, v, st).0 == Obj(Zip(ks, ws));
  }

  lemma {:induction false} ChildRestores(m: Substitution, det: Detectors, secret: bool, v: Json, st: SessionState)
    requires InRange(det) && Consistent(st) && Binds(m, WalkChild(det, secret, v, st).1) && KeysClean(m, v)
    ensures Exactly(m, Substituted(m, WalkChild(det, secret, v, st).0) == v, CleanChild(m, det, secret, v, st))
    decreases v, 3
  {
    if MaskedWhole(secret, v) {
      MaskedWholeRestores(m, v, st);
    } else {
      WalkRestores(m, det, v, st);
    }
  }

  lemma MaskedWholeRestores(m: Substitution, v: Json, st: SessionState)
    requires v.Str? && v.s != [] && Consistent(st) && Binds(m, Allot(st, PASSWORD, v.s).0)
    ensures var t := Allot(st, PASSWORD, v.s).1;
            Exactly(m, Substituted(m, Str(t)) == v, |t| <= MAX_TOKEN_LEN)
  {
    var (st1, t) := Allot(st, PASSWORD, v.s);
    TokenForKeeps(st, PASSWORD, v.s);
    WholeRestores(m, t, v.s);
    assert Substituted(m, Str(t)) == Str(Rewrite(m, t));
  }

  lemma AllRestoredStep(m: Substitution, x: Json, xs: seq<Json>, vs: seq<Json>)
    requires |vs| == |xs| + 1
    ensures AllRestored(m, [x] + xs, vs) <==> Substituted(m, x) == vs[0] && AllRestored(m, xs, vs[1..])
  {
    var ws := [x] + xs;
    assert forall i | 0 <= i < |xs| :: ws[i + 1] == xs[i] && vs[i + 1] == vs[1..][i];
    assert ws[0] == x;
  }

  lemma ListBinds(m: Substitution, det: Detectors, secret: seq<bool>, vs: seq<Json>, st: SessionState, parent: Json)
    requires InRange(det) && Consistent(st) && |secret| == |vs| && Under(vs, parent)
    requires Binds(m, WalkList(det, secret, vs, st, parent).1)
    ensures Binds(m, st)
  {
    ListGrows(det, secret, vs, st, parent);
  }

  lemma {:induction false} ListRestores(m: Substitution, det: Detectors, secret: seq<bool>, vs: seq<Json>,
                                        st: SessionState, parent: Json)
    requires InRange(det) && Consistent(st) && |secret| == |vs| && Under(vs, parent)
    requires Binds(m, WalkList(det, secret, vs, st, parent).1) && forall i | 0 <= i < |vs| :: KeysClean(m, vs[i])
    ensures Exactly(m, AllRestored(m, WalkList(det, secret, vs, st, parent).0, vs),
              CleanList(m, det, secret, vs, st, parent))
    decreases parent, 0, |vs|
  {
    if vs == [] {
    } else {
      var (x, st1) := WalkChild(det, secret[0], vs[0], st);
      var xs := WalkList(det, secret[1..], vs[1..], st1, parent).0;
      ChildGrows(det, secret[0], vs[0], st);
      ListBinds(m, det, secret[1..], vs[1..], st1, parent);
      ChildRestores(m, det, secret[0], vs[0], st);
      ListRestores(m, det, secret[1..], vs[1..], st1, parent);
      AllRestoredStep(m, x, xs, vs);
    }
  }
}
