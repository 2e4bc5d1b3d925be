/**
 The whole pipeline: a request is masked and its mapping saved, other requests use the
 vault meanwhile, and the echoed body is restored chunk by chunk.
 */
module EndToEnd {
  import opened ByteStrings
  import opened Utf8
  import opened TokenGrammar
  import opened Rewriting
  import opened JsonString
  import opened JsonSplice
  import opened Streaming
  import opened Spans
  import opened Sessions
  import opened Masking
  import opened KeyOrder
  import opened JsonTree
  import opened JsonRestore
  import opened JsonMask
  import opened RoundTrip
  import opened Coverage
  import opened DirtyKeys
  import opened LongStreams
  import opened LongReads
  import opened Pacing
  import D = Demask
  import V = Vault
  import R = VaultRuns

  // ---------------------------------------------------------------- a mapping that has just been filed

  /** Every token of m is filed for request r, until the given time. */
  ghost predicate HoldsAll(items: V.Store, r: Bytes, m: map<Bytes, Bytes>, until: int) {
    forall t | t in m :: V.Key(r, t) in items && items[V.Key(r, t)] == V.Entry(m[t], until)
  }

  /** Nothing else is. */
  ghost predicate HoldsOnly(items: V.Store, r: Bytes, m: map<Bytes, Bytes>) {
    forall k | k in items && V.InScope(r, k) :: k[|r| + 1..] in m
  }

  /** The mapping has just been filed, for a whole idle lifetime. */
  ghost predicate JustFiled(w: R.World, r: Bytes, m: map<Bytes, Bytes>) {
    && HoldsAll(w.items, r, m, w.now + V.TTL) && HoldsOnly(w.items, r, m)
    && forall who | who in w.pending :: PendingFits(who, w.pending[who], r, m)
  }

  /** Every token was seen when the mapping was filed. */
  function SeenAt(m: map<Bytes, Bytes>, now: int): map<Bytes, int> { map t | t in m :: now }

  /** The state from which a response streams. */
  lemma FiledStarts(w: R.World, r: Bytes, m: map<Bytes, Bytes>)
    requires JustFiled(w, r, m)
    ensures Filed(R.Run(w, []), r, m)
    ensures SeenSince(w, [], r, m, SeenAt(m, w.now)) && SeenExactly(w, [], r, m, SeenAt(m, w.now))
  {
    forall k | k in w.items && V.InScope(r, k)
      ensures k[|r| + 1..] in m && w.items[k].value == m[k[|r| + 1..]]
    {
      V.ScopeIsKey(r, k);
    }
  }

  lemma StaysRecent(w: R.World, es: seq<R.Event>, r: Bytes, m: map<Bytes, Bytes>, t: Bytes)
    requires JustFiled(w, r, m) && R.Elapsed(es) <= V.TTL && t in m
    ensures Recent(w, es, r, t)
  {
    FiledStarts(w, r, m);
    RunClock(w, es);
    StillSince(w, [], es, V.Key(r, t), w.now);
    assert [] + es == es;
  }

  /** A filed mapping is exactly what its request sees for one idle lifetime, whatever the others do. */
  lemma StaysServing(w: R.World, es: seq<R.Event>, r: Bytes, m: map<Bytes, Bytes>)
    requires JustFiled(w, r, m) && AllFit(es, r, m) && R.Elapsed(es) <= V.TTL
    ensures var end := R.Run(w, es); V.View(end.items, V.Context(end.now, false), r) == m
  {
    var end := R.Run(w, es);
    var view := V.View(end.items, V.Context(end.now, false), r);
    assert Filed(end, r, m) by { FiledStarts(w, r, m); FiledRun(w, es, r, m); }
    forall t
      ensures t in view <==> t in m
      ensures t in m ==> view[t] == m[t]
    {
      V.ViewSees(end.items, V.Context(end.now, false), r, t);
      V.KeyInScope(r, t);
      R.ExactExpiry(w, es, r, t);
      if t in m { StaysRecent(w, es, r, m, t); }
    }
  }

  // ---------------------------------------------------------------- the document round trip

  /** The masked document and the session that masked it. */
  ghost function MaskDocument(det: Detectors, v: Json): (Json, SessionState) { Walk(det, v, FRESH) }

  /** What the client decodes when the masked body is echoed and restored. */
  ghost function Echoed(det: Detectors, v: Json): Option<Json> {
    var (masked, st) := MaskDocument(det, v);
    DecodeDocument(Rewrite(Spliced(st.mapping), Print(masked)))
  }

  ghost predicate CleanDocument(det: Detectors, v: Json) {
    CleanTree(MaskDocument(det, v).1.mapping, det, v, FRESH)
  }

  /** No key and no unmasked stretch of a string holds a known token, and every token used fits the cap. */
  ghost predicate Returns(det: Detectors, v: Json) {
    KeysClean(MaskDocument(det, v).1.mapping, v) && CleanDocument(det, v)
  }

  /**
   The document round trip is exact: the client gets back the original tree if no object
   key and no unmasked stretch of a string holds a known token and every token used fits
   the cap, and, when no masked value starts with `[`, only then.
   */
  lemma DocumentRoundTrip(det: Detectors, v: Json)
    requires InRange(det) && OnRunes(det) && WellFormed(v)
    ensures Returns(det, v) ==> Echoed(det, v) == Some(v)
    ensures Blunt(MaskDocument(det, v).1.mapping) ==> (Echoed(det, v) == Some(v) <==> Returns(det, v))
  {
    var (masked, st) := MaskDocument(det, v);
    FreshConsistent();
    WalkValid(det, v, FRESH);
    RestoreCommutesWithDecode(st.mapping, masked);
    if KeysClean(st.mapping, v) {
      WalkRestores(st.mapping, det, v, FRESH);
    } else if Blunt(st.mapping) && Substituted(st.mapping, masked) == v {
      ReturnedKeysClean(st.mapping, det, v, FRESH);
    }
  }

  // ---------------------------------------------------------------- request bodies

  /** A request body as it was parsed: a document tree, or else an opaque text. */
  datatype Body = Document(tree: Json) | Opaque(text: Bytes)

  /** The bytes that are sent upstream. */
  ghost function Sent(b: Body): Bytes {
    match b
    case Document(v) => Print(v)
    case Opaque(text) => text
  }

  /** The masked body and the session that masked it. */
  ghost function MaskBody(det: Detectors, b: Body): (Body, SessionState) {
    match b
    case Document(v) => var (masked, st) := MaskDocument(det, v); (Document(masked), st)
    case Opaque(text) => var (p, st) := MarkOpaque(det, text); (Opaque(MaskedText(p)), st)
  }

  ghost function MappingOf(det: Detectors, b: Body): map<Bytes, Bytes> { MaskBody(det, b).1.mapping }

  ghost function EchoOf(det: Detectors, b: Body): Bytes { Sent(MaskBody(det, b).0) }

  /** The masked body has a token in place of everything the detectors and the credential keys claim. */
  ghost predicate BodyMasked(det: Detectors, m: map<Bytes, Bytes>, b: Body, masked: Body) {
    match b
    case Document(v) => masked.Document? && TreeMasked(det, m, v, masked.tree)
    case Opaque(text) => masked.Opaque? && TextMasked(det, m, text, masked.text)
  }

  lemma BodyMasks(det: Detectors, b: Body)
    requires InRange(det)
    ensures BodyMasked(det, MappingOf(det, b), b, MaskBody(det, b).0)
  {
    FreshConsistent();
    match b
    case Document(v) => WalkMasks(det, MappingOf(det, b), v, FRESH);
    case Opaque(text) => StringMasks(det, MappingOf(det, b), text, FRESH);
  }

  /** What the round trips ask of a body: every token used is restored, and nothing else is. */
  ghost predicate Restorable(det: Detectors, b: Body) {
    match b
    case Document(v) => OnRunes(det) && WellFormed(v) && Returns(det, v)
    case Opaque(text) => Clean(MarkOpaque(det, text).1.mapping, MarkOpaque(det, text).0)
  }

  /** The client decodes the document it sent; a text comes back with its masked values JSON-escaped. */
  ghost predicate ComesBack(det: Detectors, b: Body, data: Bytes) {
    match b
    case Document(v) => DecodeDocument(data) == Some(v)
    case Opaque(text) =>
      var p := MarkOpaque(det, text).0;
      data == EscapedOriginal(p) && (data == text <==> NeedsNoEscape(p))
  }

  lemma BodyRoundTrip(det: Detectors, b: Body)
    requires InRange(det) && Restorable(det, b)
    ensures ComesBack(det, b, Rewrite(Spliced(MappingOf(det, b)), EchoOf(det, b)))
  {
    match b
    case Document(v) => DocumentRoundTrip(det, v);
    case Opaque(text) => OpaqueRoundTrip(det, text);
  }

  // ---------------------------------------------------------------- the pipeline

  /**
   The whole pipeline over the shared vault: for every chunking of the echoed body, any time
   between the chunks and anything else that happens on the vault meanwhile, as long as each
   known token comes by at most one idle lifetime after it was saved or looked up.
   */
  lemma PipelineRoundTrip(det: Detectors, b: Body, w: R.World, es: seq<R.Event>, who: R.Thread, segs: seq<Segment>)
    requires InRange(det) && Restorable(det, b) && Chunks(segs) == EchoOf(det, b)
    requires Filed(R.Run(w, es), who.reqID, MappingOf(det, b)) && SegmentsFit(segs, who.reqID, MappingOf(det, b))
    requires InTime(w, es, who, MappingOf(det, b), Visits(segs, []))
    ensures ComesBack(det, b, Closed(Serve(w, es, who, segs, START)))
  {
    StreamRestoredIffInTime(w, es, who, MappingOf(det, b), segs);
    BodyRoundTrip(det, b);
  }

  /** The tokens a client's reads look up, while each is restored by m. */
  ghost function VisitsOf(m: map<Bytes, Bytes>, calls: seq<ReadCall>, script: seq<D.Delivery>): seq<Visit> {
    ReadVisits(Spliced(m), calls, D.NewReader(script))
  }

  /** Once told of an end, the client has the body, and the end is upstream's; if it keeps asking, it is told. */
  ghost predicate Delivers(det: Detectors, b: Body, calls: seq<ReadCall>, script: seq<D.Delivery>,
                           got: (Bytes, Option<D.Ending>)) {
    && (got.1.Some? ==> ComesBack(det, b, got.0) && got.1.value == D.EndingOf(script))
    && (KeepsAsking(calls, |Rewrite(Spliced(MappingOf(det, b)), EchoOf(det, b))|) ==> got.1.Some?)
  }

  /** The same through the pull reader, for every script of upstream reads and every client buffer size. */
  lemma PulledRoundTrip(det: Detectors, b: Body, w: R.World, es: seq<R.Event>, who: R.Thread,
                        calls: seq<ReadCall>, script: seq<D.Delivery>)
    requires InRange(det) && Restorable(det, b) && D.Body(script) == EchoOf(det, b)
    requires Filed(R.Run(w, es), who.reqID, MappingOf(det, b)) && CallsFit(calls, who.reqID, MappingOf(det, b))
    requires InTime(w, es, who, MappingOf(det, b), VisitsOf(MappingOf(det, b), calls, script))
    ensures Delivers(det, b, calls, script, ReadAll(w, es, who, calls, D.NewReader(script)))
  {
    ReadRestoredIffInTime(w, es, who, MappingOf(det, b), calls, script);
    BodyRoundTrip(det, b);
  }

  /**
   From the filing of the mapping to the end of the response, over any length of time: the
   client gets its body back if each known token comes by again within one idle lifetime of
   the last time, or of the filing.
   */
  lemma PacedRoundTrip(det: Detectors, b: Body, w: R.World, who: R.Thread, calls: seq<ReadCall>,
                       script: seq<D.Delivery>)
    requires InRange(det) && Restorable(det, b) && D.Body(script) == EchoOf(det, b)
    requires JustFiled(w, who.reqID, MappingOf(det, b)) && CallsFit(calls, who.reqID, MappingOf(det, b))
    requires var m := MappingOf(det, b); Paced(w.now, m, VisitsOf(m, calls, script), SeenAt(m, w.now))
    ensures Delivers(det, b, calls, script, ReadAll(w, [], who, calls, D.NewReader(script)))
  {
    var m := MappingOf(det, b);
    FiledStarts(w, who.reqID, m);
    PacedInTime(w, [], who, m, VisitsOf(m, calls, script), SeenAt(m, w.now));
    PulledRoundTrip(det, b, w, [], who, calls, script);
  }

  /**
   The condition is exact: when no masked value starts with `[` and the request does nothing
   else with its tokens meanwhile, a client that reads to the end gets the restored body if
   and only if each known token comes by again within one idle lifetime.
   */
  lemma RestoredIffPaced(m: map<Bytes, Bytes>, w: R.World, who: R.Thread, calls: seq<ReadCall>, script: seq<D.Delivery>)
    requires JustFiled(w, who.reqID, m) && CallsFit(calls, who.reqID, m) && Blunt(m)
    requires QuietBetween(VisitsOf(m, calls, script), who.reqID)
    requires ReadAll(w, [], who, calls, D.NewReader(script)).1.Some?
    ensures ReadAll(w, [], who, calls, D.NewReader(script)).0 == Rewrite(Spliced(m), D.Body(script))
            <==> Paced(w.now, m, VisitsOf(m, calls, script), SeenAt(m, w.now))
  {
    FiledStarts(w, who.reqID, m);
    InTimeIffPaced(w, [], who, m, VisitsOf(m, calls, script), SeenAt(m, w.now));
    ReadRestoredIffInTime(w, [], who, m, calls, script);
  }

  // ---------------------------------------------------------------- a condition on the document alone

  ghost predicate TokenFree(s: Bytes) {
    forall i, j | 0 <= i <= j <= |s| :: !IsToken(s[i..j])
  }

  ghost predicate TokenFreeTree(v: Json)
    decreases v
  {
    match v
    case Str(s) => TokenFree(s)
    case Arr(items) => forall i | 0 <= i < |items| :: TokenFreeTree(items[i])
    case Obj(o) => forall k | k in o :: TokenFree(k) && TokenFreeTree(o[k])
    case _ => true
  }

  lemma SliceTwice(s: Bytes, a: int, b: int, i: int, n: int)
    requires 0 <= a <= b <= |s| && 0 <= i && 0 <= n && i + n <= b - a
    ensures s[a..b][i..i + n] == s[a + i..a + i + n]
  {
    var x, y := s[a..b][i..i + n], s[a + i..a + i + n];
    assert |x| == |y|;
    forall j | 0 <= j < n
      ensures x[j] == y[j]
    {
      assert x[j] == s[a..b][i + j] == s[a + i + j];
      assert y[j] == s[a + i + j];
    }
  }

  lemma TokenFreeNoHit(m: Substitution, s: Bytes, a: int, b: int)
    requires TokenFree(s) && 0 <= a <= b <= |s|
    ensures NoHit(m, s[a..b])
  {
    var g := s[a..b];
    forall i, n | 0 <= i && 0 < n && i + n <= b - a
      ensures !Hit(m, g, i, n)
    {
      SliceTwice(s, a, b, i, n);
    }
  }

  ghost predicate AllShort(m: map<Bytes, Bytes>) { forall t | t in m :: |t| <= MAX_TOKEN_LEN }

  lemma {:induction false} TokenFreeMark(m: Substitution, text: Bytes, kept: seq<Span>, last: int, st: SessionState)
    requires 0 <= last <= |text| && TokenFree(text) && AllShort(m)
    requires Known(m, Mark(text, kept, last, st).0)
    ensures Clean(m, Mark(text, kept, last, st).0)
  {
    if kept == [] || !(last <= kept[0].start <= kept[0].end <= |text|) {
      TokenFreeNoHit(m, text, last, |text|);
      assert text[last..] == text[last..|text|];
    } else {
      var k := kept[0];
      TokenFreeNoHit(m, text, last, k.start);
      TokenFreeMark(m, text, kept[1..], k.end, Allot(st, k.kind, text[k.start..k.end]).0);
    }
  }

  lemma {:induction false} TokenFreeKeys(m: Substitution, v: Json)
    requires TokenFreeTree(v)
    ensures KeysClean(m, v)
    decreases v
  {
    match v
    case Arr(items) =>
      forall i | 0 <= i < |items|
        ensures KeysClean(m, items[i])
      {
        TokenFreeKeys(m, items[i]);
      }
    case Obj(o) =>
      forall k | k in o
        ensures NoHit(m, k) && KeysClean(m, o[k])
      {
        TokenFreeNoHit(m, k, 0, |k|);
        assert k[0..|k|] == k;
        TokenFreeKeys(m, o[k]);
      }
    case _ =>
  }

  lemma {:induction false} TokenFreeClean(m: Substitution, det: Detectors, v: Json, st: SessionState)
    requires InRange(det) && Consistent(st) && TokenFreeTree(v) && AllShort(m) && Binds(m, Walk(det, v, st).1)
    ensures CleanTree(m, det, v, st)
    decreases v, 2
  {
    match v
    case Str(s) =>
      MarkTextKeeps(det, s, st);
      KnownLater(MarkText(det, s, st).1.mapping, m, MarkText(det, s, st).0);
      TokenFreeMark(m, s, Kept(det, s), 0, st);
    case Arr(items) => TokenFreeList(m, det, HidesNone(|items|), items, st, v);
    case Obj(o) => TokenFreeObject(m, det, o, st);
    case _ =>
  }

  lemma TokenFreeValues(o: map<Bytes, Json>)
    requires TokenFreeTree(Obj(o))
    ensures forall i | 0 <= i < |Sorted(o.Keys)| :: TokenFreeTree(Values(o, Sorted(o.Keys))[i])
  {
    var ks := Sorted(o.Keys);
    assert forall i | 0 <= i < |ks| :: ks[i] in o && Values(o, ks)[i] == o[ks[i]];
  }

  lemma {:induction false} TokenFreeObject(m: Substitution, det: Detectors, o: map<Bytes, Json>, st: SessionState)
    requires InRange(det) && Consistent(st) && TokenFreeTree(Obj(o)) && AllShort(m) && Binds(m, Walk(det, Obj(o), st).1)
    ensures CleanTree(m, det, Obj(o), st)
    decreases Obj(o), 1
  {
    var ks := Sorted(o.Keys);
    TokenFreeValues(o);
    WalkOfObject(m, det, o, st);
    TokenFreeList(m, det, Hides(det, ks), Values(o, ks), st, Obj(o));
  }

  lemma WholeShort(m: Substitution, st: SessionState, value: Bytes)
    requires Consistent(st) && AllShort(m) && Binds(m, Allot(st, PASSWORD, value).0)
    ensures |Allot(st, PASSWORD, value).1| <= MAX_TOKEN_LEN
  {
    PasswordIsKind();
    TokenForKeeps(st, PASSWORD, value);
  }

  lemma {:induction false} TokenFreeChild(m: Substitution, det: Detectors, secret: bool, v: Json, st: SessionState)
    requires InRange(det) && Consistent(st) && TokenFreeTree(v)
    requires AllShort(m) && Binds(m, WalkChild(det, secret, v, st).1)
    ensures CleanChild(m, det, secret, v, st)
    decreases v, 3
  {
    if MaskedWhole(secret, v) { WholeShort(m, st, v.s); } else { TokenFreeClean(m, det, v, st); }
  }

  lemma {:induction false} TokenFreeList(m: Substitution, det: Detectors, secret: seq<bool>, vs: seq<Json>,
                                         st: SessionState, parent: Json)
    requires InRange(det) && Consistent(st) && |secret| == |vs| && Under(vs, parent) && AllShort(m)
    requires Binds(m, WalkList(det, secret, vs, st, parent).1) && forall i | 0 <= i < |vs| :: TokenFreeTree(vs[i])
    ensures CleanList(m, det, secret, vs, st, parent)
    decreases parent, 0, |vs|
  {
    if vs == [] {
    } else {
      var st1 := WalkChild(det, secret[0], vs[0], st).1;
      assert Consistent(st1) by { ChildGrows(det, secret[0], vs[0], st); }
      ListBinds(m, det, secret[1..], vs[1..], st1, parent);
      TokenFreeChild(m, det, secret[0], vs[0], st);
      TokenFreeList(m, det, secret[1..], vs[1..], st1, parent);
    }
  }

  /** Kinds of at most 53 letters and at most 16 MiB of strings keep every token below the cap. */
  lemma ShortTokens(det: Detectors, v: Json)
    requires InRange(det) && ShortKinds(det) && Weight(v) <= 0x100_0000
    ensures AllShort(MaskDocument(det, v).1.mapping)
  {
    var st := MaskDocument(det, v).1;
    FreshConsistent();
    WalkGrows(det, v, FRESH);
    forall t | t in st.mapping
      ensures |t| <= MAX_TOKEN_LEN
    {
      TokensFit(st, t);
    }
  }

  /** Documents without anything shaped like a token meet the condition of the round trips. */
  lemma TokenFreeReturns(det: Detectors, v: Json)
    requires InRange(det) && ShortKinds(det) && TokenFreeTree(v) && Weight(v) <= 0x100_0000
    ensures Returns(det, v)
  {
    var m := MaskDocument(det, v).1.mapping;
    FreshConsistent();
    ShortTokens(det, v);
    TokenFreeKeys(m, v);
    TokenFreeClean(m, det, v, FRESH);
  }

  /**
   A condition on the document alone: a document of at most 16 MiB of strings, none of which
   and none of whose keys holds anything shaped like a token, always comes back unchanged.
   */
  lemma TokenFreeRoundTrip(det: Detectors, v: Json)
    requires InRange(det) && OnRunes(det) && ShortKinds(det) && WellFormed(v)
    requires TokenFreeTree(v) && Weight(v) <= 0x100_0000
    ensures Echoed(det, v) == Some(v)
  {
    TokenFreeReturns(det, v);
    DocumentRoundTrip(det, v);
  }

  // ---------------------------------------------------------------- opaque text

  /**
   The same for opaque text: a text of at most 16 MiB without anything shaped like a token
   comes back with each masked value JSON-escaped, so unchanged exactly when none needs it.
   */
  lemma TokenFreeOpaque(det: Detectors, text: Bytes)
    requires InRange(det) && ShortKinds(det) && TokenFree(text) && |text| <= 0x100_0000
    ensures Restorable(det, Opaque(text))
    ensures ComesBack(det, Opaque(text), Rewrite(Spliced(MappingOf(det, Opaque(text))), EchoOf(det, Opaque(text))))
  {
    var (p, st) := MarkOpaque(det, text);
    FreshConsistent();
    MarkTextKeeps(det, text, FRESH);
    forall t | t in st.mapping
      ensures |t| <= MAX_TOKEN_LEN
    {
      TokensFit(st, t);
    }
    TokenFreeMark(st.mapping, text, Kept(det, text), 0, FRESH);
    BodyRoundTrip(det, Opaque(text));
  }

  // ---------------------------------------------------------------- two inputs that do not come back

  /** Detectors that mask one text as a whole, and nothing else. */
  function Only(value: Bytes, kind: Bytes): Detectors {
    Detectors(
      (text: Bytes) => if text == value then [Span(0, |value|, kind)] else [],
      (text: Bytes) => [],
      (k: Bytes) => false)
  }

  lemma OneSpanKept(s: Span)
    requires 0 <= s.start
    ensures Chosen(Resolved([s], [])) == [s]
  {
    assert Resolved([s], []) == [s];
    assert [s][1..] == [];
    assert StableSort([s]) == Insert(s, []) == [s];
    assert Sweep([s], 0) == [s] + Sweep([], s.end);
  }

  lemma OnlyFits(value: Bytes, kind: Bytes)
    requires value != [] && IsKind(kind) && |kind| <= 53
    ensures InRange(Only(value, kind)) && ShortKinds(Only(value, kind))
    ensures Valid(value) ==> OnRunes(Only(value, kind))
  {
    assert value[..0] == [] && value[..|value|] == value;
  }

  lemma OnlyMarks(value: Bytes, kind: Bytes)
    ensures var (st, t) := Allot(FRESH, kind, value);
            MarkText(Only(value, kind), value, FRESH) == (Cut([], value, t, Tail([])), st)
  {
    var s := Span(0, |value|, kind);
    OneSpanKept(s);
    assert Kept(Only(value, kind), value) == [s];
    assert value[0..0] == [] && value[0..|value|] == value && value[|value|..] == [] && [s][1..] == [];
    var (st, t) := Allot(FRESH, kind, value);
    assert Mark(value, [], |value|, st) == (Tail([]), st);
    assert Mark(value, [s], 0, FRESH) == (Cut([], value, t, Tail([])), st);
  }

  const AMPERSAND: Bytes := [0x26]
  const EMAIL: Bytes := [0x45, 0x4D, 0x41, 0x49, 0x4C]
  const ADDRESS: Bytes := [0x61, 0x40, 0x62]

  lemma AmpersandEscaped()
    ensures Escape(true, AMPERSAND) == [BACKSLASH, 0x75, 0x30, 0x30, 0x32, 0x36]
  {
    RuneLenIs(AMPERSAND, 1);
    EscapeThen(true, AMPERSAND, []);
    assert AMPERSAND + [] == AMPERSAND;
  }

  /** A masked `&` comes back as \u0026: the opaque text is not what was sent. */
  lemma AmpersandComesBackEscaped()
    ensures var (p, st) := MarkOpaque(Only(AMPERSAND, EMAIL), AMPERSAND);
            Rewrite(Spliced(st.mapping), MaskedText(p)) == [BACKSLASH, 0x75, 0x30, 0x30, 0x32, 0x36] != AMPERSAND
  {
    OnlyFits(AMPERSAND, EMAIL);
    TokenFreeShort(AMPERSAND);
    TokenFreeOpaque(Only(AMPERSAND, EMAIL), AMPERSAND);
    OnlyMarks(AMPERSAND, EMAIL);
    AmpersandEscaped();
    EscapedCut(AMPERSAND, Allot(FRESH, EMAIL, AMPERSAND).1);
  }

  lemma EscapedCut(v: Bytes, t: Bytes)
    ensures EscapedOriginal(Cut([], v, t, Tail([]))) == Escape(true, v)
  {
    assert [] + Escape(true, v) + [] == Escape(true, v);
  }

  lemma TokenFreeShort(s: Bytes)
    requires |s| < 5
    ensures TokenFree(s)
  {
    forall i, j | 0 <= i <= j <= |s|
      ensures !IsToken(s[i..j])
    {
      if IsToken(s[i..j]) { TokenBytes(s[i..j]); }
    }
  }

  /** The document {"[EMAIL_1]": "a@b"}: its key is shaped like the token its value will get. */
  function TypedKey(): Json { Obj(map[PrintToken(EMAIL, 1) := Str(ADDRESS)]) }

  lemma TypedMapping()
    ensures MaskDocument(Only(ADDRESS, EMAIL), TypedKey()).1.mapping == map[PrintToken(EMAIL, 1) := ADDRESS]
  {
    var det, t := Only(ADDRESS, EMAIL), PrintToken(EMAIL, 1);
    SingleMember(det, t, Str(ADDRESS), FRESH);
    OnlyMarks(ADDRESS, EMAIL);
  }

  lemma SingleMember(det: Detectors, k: Bytes, v: Json, st: SessionState)
    requires !det.secretKey(k)
    ensures Walk(det, Obj(map[k := v]), st).1 == Walk(det, v, st).1
  {
    var o := map[k := v];
    assert o.Keys == {k};
    SingleKey(k);
    WalkOfObject(map[], det, o, st);
    assert Values(o, [k]) == [v] && [v][1..] == [];
    assert Hides(det, [k]) == [false];
    assert WalkChild(det, false, v, st) == Walk(det, v, st);
    assert WalkList(det, [false][1..], [], Walk(det, v, st).1, Obj(o)).1 == Walk(det, v, st).1;
  }

  lemma SingleKey(k: Bytes)
    ensures Sorted({k}) == [k]
  {
    AscendingUnique([k], Sorted({k}));
  }

  lemma AddressValid()
    ensures Valid(ADDRESS)
  {
    RuneLenIs(ADDRESS, 1);
    RuneLenIs(ADDRESS[1..], 1);
    RuneLenIs(ADDRESS[2..], 1);
    assert ADDRESS[1..][1..] == ADDRESS[2..] && ADDRESS[2..][1..] == [];
  }

  lemma TypedKeyFits()
    ensures InRange(Only(ADDRESS, EMAIL)) && OnRunes(Only(ADDRESS, EMAIL)) && WellFormed(TypedKey())
  {
    AddressValid();
    OnlyFits(ADDRESS, EMAIL);
    PrintedIsToken(EMAIL, 1);
    TokenIsTokenBytes(PrintToken(EMAIL, 1));
    TokenBytesUnescaped(PrintToken(EMAIL, 1));
  }

  lemma TypedKeyDirty(m: map<Bytes, Bytes>)
    requires PrintToken(EMAIL, 1) in m
    ensures !KeysClean(m, TypedKey())
  {
    var t := PrintToken(EMAIL, 1);
    PrintedIsToken(EMAIL, 1);
    PrintedFits(EMAIL, 1);
    assert t[0..|t|] == t;
    assert Hit(m, t, 0, |t|);
    assert t in TypedKey().members;
  }

  /** A token that the user typed, here as a key, is replaced on the way back: the document is not what was sent. */
  lemma TypedTokenIsReplaced()
    ensures Echoed(Only(ADDRESS, EMAIL), TypedKey()) != Some(TypedKey())
  {
    TypedKeyFits();
    TypedMapping();
    TypedKeyDirty(map[PrintToken(EMAIL, 1) := ADDRESS]);
    DocumentRoundTrip(Only(ADDRESS, EMAIL), TypedKey());
  }
}
