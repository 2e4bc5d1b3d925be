/**
 A response that streams over any length of time: before each chunk, or each read of the
 client, anything may happen on the shared vault, and every token that comes by is looked
 up there and renewed. Restoring is right exactly while each known token that comes by was
 saved or looked up at most one idle lifetime before.
 */
module LongStreams {
  import opened ByteStrings
  import opened TokenGrammar
  import opened Rewriting
  import opened JsonString
  import opened Streaming
  import opened Masking
  import D = Demask
  import V = Vault
  import R = VaultRuns

  /** What the vault shows a request at some moment, escaped for splicing. */
  ghost function Shown(w: R.World, r: Bytes): Substitution {
    Spliced(V.View(w.items, V.Context(w.now, false), r))
  }

  // ---------------------------------------------------------------- lookups as events

  function LookupOne(w: R.World, who: R.Thread, t: Bytes): seq<R.Event> {
    [R.Fetch(who, t)] + if V.Seen(w.items, w.now, who.reqID, t).Some? then [R.Renew(who)] else []
  }

  /** The events of looking up these tokens, one after the other. */
  function Lookups(w: R.World, who: R.Thread, tokens: seq<Bytes>): seq<R.Event>
    decreases |tokens|
  {
    if tokens == [] then []
    else
      var one := LookupOne(w, who, tokens[0]);
      one + Lookups(R.Run(w, one), who, tokens[1..])
  }

  lemma LookupOneRenews(w: R.World, who: R.Thread, t: Bytes)
    ensures var w1 := R.Run(w, LookupOne(w, who, t));
            w1.now == w.now && w1.items == V.RenewedOne(w.items, V.Context(w.now, false), who.reqID, t)
  {
    var fetch, renew := R.Fetch(who, t), R.Renew(who);
    R.RunOne(w, fetch);
    if V.Seen(w.items, w.now, who.reqID, t).Some? {
      R.RunAppend(w, [fetch], [renew]);
      R.RunOne(R.Step(w, fetch), renew);
    } else {
      assert LookupOne(w, who, t) == [fetch];
    }
  }

  /** The events leave the store as the writer and the reader leave it. */
  lemma {:induction false} LookupsRenew(w: R.World, who: R.Thread, tokens: seq<Bytes>)
    ensures var w1 := R.Run(w, Lookups(w, who, tokens));
            w1.now == w.now && w1.items == V.Renewed(w.items, V.Context(w.now, false), who.reqID, tokens)
    decreases |tokens|
  {
    if tokens == [] {
    } else {
      var one := LookupOne(w, who, tokens[0]);
      LookupOneRenews(w, who, tokens[0]);
      LookupsRenew(R.Run(w, one), who, tokens[1..]);
      R.RunAppend(w, one, Lookups(R.Run(w, one), who, tokens[1..]));
    }
  }

  // ---------------------------------------------------------------- what is filed

  /** Whatever the vault holds for request r is a binding of m. */
  ghost predicate FiledItems(items: V.Store, r: Bytes, m: map<Bytes, Bytes>) {
    forall k | k in items && V.InScope(r, k) :: k[|r| + 1..] in m && items[k].value == m[k[|r| + 1..]]
  }

  ghost predicate PendingFits(who: R.Thread, p: R.Renewal, r: Bytes, m: map<Bytes, Bytes>) {
    if who.reqID == r then p.token in m && p.value == m[p.token] else R.Apart(who.reqID, r)
  }

  ghost predicate Filed(w: R.World, r: Bytes, m: map<Bytes, Bytes>) {
    FiledItems(w.items, r, m) && forall who | who in w.pending :: PendingFits(who, w.pending[who], r, m)
  }

  /** The request itself saves nothing but m, and every other request has an id apart from it. */
  ghost predicate Fits(e: R.Event, r: Bytes, m: map<Bytes, Bytes>) {
    match e
    case Save(id, t, v) => if id == r then t in m && v == m[t] else R.Apart(id, r)
    case Fetch(who, _) => who.reqID == r || R.Apart(who.reqID, r)
    case Renew(who) => who.reqID == r || R.Apart(who.reqID, r)
    case _ => true
  }

  ghost predicate AllFit(es: seq<R.Event>, r: Bytes, m: map<Bytes, Bytes>) {
    forall i | 0 <= i < |es| :: Fits(es[i], r, m)
  }

  lemma PutFiled(w: R.World, id: Bytes, t: Bytes, v: Bytes, r: Bytes, m: map<Bytes, Bytes>)
    requires FiledItems(w.items, r, m) && (if id == r then t in m && v == m[t] else R.Apart(id, r))
    ensures FiledItems(R.Put(w, id, t, v).items, r, m)
  {
    var k := V.Key(id, t);
    if V.InScope(r, k) {
      V.ScopeIsKey(r, k);
      if id == r { V.KeyInScope(r, t); } else { R.ApartKeys(id, r, t, k[|r| + 1..]); }
    }
  }

  lemma FetchFiled(w: R.World, who: R.Thread, t: Bytes, r: Bytes, m: map<Bytes, Bytes>)
    requires Filed(w, r, m) && Fits(R.Fetch(who, t), r, m)
    ensures Filed(R.Step(w, R.Fetch(who, t)), r, m)
  {
    if who.reqID == r { V.KeyInScope(r, t); }
  }

  lemma FiledStep(w: R.World, e: R.Event, r: Bytes, m: map<Bytes, Bytes>)
    requires Filed(w, r, m) && Fits(e, r, m)
    ensures Filed(R.Step(w, e), r, m)
  {
    match e
    case Save(id, t, v) => PutFiled(w, id, t, v, r, m);
    case Fetch(who, t) => FetchFiled(w, who, t, r, m);
    case Renew(who) =>
      if who in w.pending {
        var p := w.pending[who];
        assert PendingFits(who, p, r, m);
        PutFiled(w, who.reqID, p.token, p.value, r, m);
      }
    case _ =>
  }

  lemma {:induction false} FiledRun(w: R.World, es: seq<R.Event>, r: Bytes, m: map<Bytes, Bytes>)
    requires Filed(w, r, m) && AllFit(es, r, m)
    ensures Filed(R.Run(w, es), r, m)
    decreases |es|
  {
    if es == [] {
    } else {
      FiledStep(w, es[0], r, m);
      FiledRun(R.Step(w, es[0]), es[1..], r, m);
    }
  }

  lemma {:induction false} LookupsFit(w: R.World, who: R.Thread, tokens: seq<Bytes>, m: map<Bytes, Bytes>)
    ensures AllFit(Lookups(w, who, tokens), who.reqID, m)
    decreases |tokens|
  {
    if tokens == [] {
    } else {
      LookupsFit(R.Run(w, LookupOne(w, who, tokens[0])), who, tokens[1..], m);
    }
  }

  // ---------------------------------------------------------------- in time

  /** The token was saved or looked up at most one idle lifetime before the end of the run. */
  ghost predicate Recent(w: R.World, es: seq<R.Event>, r: Bytes, t: Bytes) {
    R.WithinTTL(R.Touched(w, es, V.Key(r, t)), R.Run(w, es).now)
  }

  ghost predicate AllRecent(w: R.World, es: seq<R.Event>, r: Bytes, m: map<Bytes, Bytes>, tokens: seq<Bytes>) {
    forall t | t in tokens && t in m :: Recent(w, es, r, t)
  }

  /** At the end of a run a token is restored as filed exactly when it is recent, and left alone otherwise. */
  lemma ShownIffRecent(w: R.World, es: seq<R.Event>, r: Bytes, m: map<Bytes, Bytes>, t: Bytes)
    requires Filed(R.Run(w, es), r, m)
    ensures Subst(Shown(R.Run(w, es), r), t) == if t in m && Recent(w, es, r, t) then Escape(true, m[t]) else t
  {
    var end := R.Run(w, es);
    R.ExactExpiry(w, es, r, t);
    V.ViewSees(end.items, V.Context(end.now, false), r, t);
    V.KeyInScope(r, t);
  }

  lemma ShownAgrees(w: R.World, es: seq<R.Event>, r: Bytes, m: map<Bytes, Bytes>, tokens: seq<Bytes>)
    requires Filed(R.Run(w, es), r, m) && AllRecent(w, es, r, m, tokens)
    ensures forall t | t in tokens :: Subst(Shown(R.Run(w, es), r), t) == Subst(Spliced(m), t)
  {
    forall t | t in tokens
      ensures Subst(Shown(R.Run(w, es), r), t) == Subst(Spliced(m), t)
    {
      ShownIffRecent(w, es, r, m, t);
    }
  }

  // ---------------------------------------------------------------- visits over time

  /** What happens on the vault before the stream comes by again, and the tokens it then looks up. */
  datatype Visit = Visit(before: seq<R.Event>, tokens: seq<Bytes>)

  /** The history after a visit, with its lookups. */
  function Visited(w: R.World, es: seq<R.Event>, who: R.Thread, v: Visit): seq<R.Event> {
    es + v.before + Lookups(R.Run(w, es + v.before), who, v.tokens)
  }

  /** Whenever a known token comes by, it is recent. */
  ghost predicate InTime(w: R.World, es: seq<R.Event>, who: R.Thread, m: map<Bytes, Bytes>, visits: seq<Visit>)
    decreases |visits|
  {
    visits == [] ||
    (&& AllRecent(w, es + visits[0].before, who.reqID, m, visits[0].tokens)
     && InTime(w, Visited(w, es, who, visits[0]), who, m, visits[1..]))
  }

  lemma VisitFiled(w: R.World, es: seq<R.Event>, who: R.Thread, m: map<Bytes, Bytes>, v: Visit)
    requires Filed(R.Run(w, es), who.reqID, m) && AllFit(v.before, who.reqID, m)
    ensures Filed(R.Run(w, es + v.before), who.reqID, m)
    ensures Filed(R.Run(w, Visited(w, es, who, v)), who.reqID, m)
  {
    var now := es + v.before;
    MoreFiled(w, es, v.before, who.reqID, m);
    LookupsFit(R.Run(w, now), who, v.tokens, m);
    MoreFiled(w, now, Lookups(R.Run(w, now), who, v.tokens), who.reqID, m);
  }

  lemma MoreFiled(w: R.World, es: seq<R.Event>, more: seq<R.Event>, r: Bytes, m: map<Bytes, Bytes>)
    requires Filed(R.Run(w, es), r, m) && AllFit(more, r, m)
    ensures Filed(R.Run(w, es + more), r, m)
  {
    R.RunAppend(w, es, more);
    FiledRun(R.Run(w, es), more, r, m);
  }

  // ---------------------------------------------------------------- chunks over time

  /** What happens on the vault before a chunk arrives, and the chunk. */
  datatype Segment = Segment(before: seq<R.Event>, chunk: Bytes)

  function Chunks(segs: seq<Segment>): Bytes {
    if segs == [] then [] else segs[0].chunk + Chunks(segs[1..])
  }

  ghost predicate SegmentsFit(segs: seq<Segment>, r: Bytes, m: map<Bytes, Bytes>) {
    forall i | 0 <= i < |segs| :: AllFit(segs[i].before, r, m)
  }

  ghost function VisitOf(seg: Segment, buf: Bytes): Visit { Visit(seg.before, Completed(buf, seg.chunk)) }

  /** The tokens the writer looks up, chunk by chunk. */
  ghost function Visits(segs: seq<Segment>, buf: Bytes): (vs: seq<Visit>)
    ensures |vs| == |segs|
  {
    if segs == [] then [] else [VisitOf(segs[0], buf)] + Visits(segs[1..], Held(buf, segs[0].chunk))
  }

  /** The writer's state after all chunks, each restored by what the vault shows when it arrives. */
  ghost function Serve(w: R.World, es: seq<R.Event>, who: R.Thread, segs: seq<Segment>, st: Machine): Machine
    decreases |segs|
  {
    if segs == [] then st
    else
      var sub := Shown(R.Run(w, es + segs[0].before), who.reqID);
      Serve(w, Visited(w, es, who, VisitOf(segs[0], st.buf)), who, segs[1..], Feed(sub, st, segs[0].chunk))
  }

  /**
   One write of the writer object, at the moment when the vault has come through the run so
   far: it takes the step of Serve, and leaves the vault as the history after the visit does.
   */
  method WriteAt(writer: StreamingResponseWriter, now: int, seg: Segment,
                 ghost w: R.World, ghost es: seq<R.Event>, ghost who: R.Thread)
    returns (n: nat)
    requires writer.Valid() && who.reqID == writer.reqID
    requires var here := R.Run(w, es + seg.before); now == here.now && writer.vault.items == here.items
    modifies writer, writer.sink, writer.vault
    ensures writer.Valid() && n == |seg.chunk|
    ensures writer.State() == Feed(Shown(R.Run(w, es + seg.before), who.reqID), old(writer.State()), seg.chunk)
    ensures writer.vault.items == R.Run(w, Visited(w, es, who, VisitOf(seg, old(writer.buf)))).items
  {
    ghost var here := R.Run(w, es + seg.before);
    ghost var tokens := Completed(writer.buf, seg.chunk);
    n := writer.Write(V.Context(now, false), seg.chunk);
    R.RunAppend(w, es + seg.before, Lookups(here, who, tokens));
    LookupsRenew(here, who, tokens);
  }

  lemma InTimeStep(w: R.World, es: seq<R.Event>, who: R.Thread, m: map<Bytes, Bytes>, segs: seq<Segment>, buf: Bytes)
    requires segs != []
    ensures var v := VisitOf(segs[0], buf);
            InTime(w, es, who, m, Visits(segs, buf))
            <==> AllRecent(w, es + v.before, who.reqID, m, v.tokens)
                 && InTime(w, Visited(w, es, who, v), who, m, Visits(segs[1..], Held(buf, segs[0].chunk)))
  {
    var vs := Visits(segs, buf);
    assert vs[0] == VisitOf(segs[0], buf) && vs[1..] == Visits(segs[1..], Held(buf, segs[0].chunk));
  }

  /** Chunks whose known tokens come by in time are together restored by the filed mapping. */
  lemma {:induction false} ServedInTime(w: R.World, es: seq<R.Event>, who: R.Thread, m: map<Bytes, Bytes>,
                                        segs: seq<Segment>, st: Machine)
    requires Filed(R.Run(w, es), who.reqID, m) && SegmentsFit(segs, who.reqID, m)
    requires InTime(w, es, who, m, Visits(segs, st.buf))
    ensures Serve(w, es, who, segs, st) == Feed(Spliced(m), st, Chunks(segs))
    decreases |segs|
  {
    if segs == [] {
    } else {
      var chunk, v := segs[0].chunk, VisitOf(segs[0], st.buf);
      VisitFiled(w, es, who, m, v);
      InTimeStep(w, es, who, m, segs, st.buf);
      ShownAgrees(w, es + v.before, who.reqID, m, v.tokens);
      FeedAgree(Shown(R.Run(w, es + v.before), who.reqID), Spliced(m), st, chunk);
      FeedHolds(Spliced(m), st, chunk);
      ServedInTime(w, Visited(w, es, who, v), who, m, segs[1..], Feed(Spliced(m), st, chunk));
      FeedAppend(Spliced(m), st, chunk, Chunks(segs[1..]));
    }
  }

  // ---------------------------------------------------------------- too late

  ghost predicate Differ(a: Bytes, b: Bytes) { exists i :: DifferAt(a, b, i) }

  predicate DifferAt(a: Bytes, b: Bytes, i: int) { 0 <= i < |a| && i < |b| && a[i] != b[i] }

  lemma DifferLater(a: Bytes, b: Bytes, c: Bytes, d: Bytes)
    requires Differ(a, b) && a <= c && b <= d
    ensures Differ(c, d)
  {
    var i :| DifferAt(a, b, i);
    assert DifferAt(c, d, i);
  }

  lemma {:induction false} FeedExtends(sub: Substitution, st: Machine, p: Bytes)
    ensures st.out <= Feed(sub, st, p).out
  {
    if p == [] {
    } else {
      FeedExtends(sub, st, p[..|p| - 1]);
    }
  }

  lemma {:induction false} ServeExtends(w: R.World, es: seq<R.Event>, who: R.Thread, segs: seq<Segment>, st: Machine)
    ensures st.out <= Serve(w, es, who, segs, st).out
    decreases |segs|
  {
    if segs == [] {
    } else {
      var sub := Shown(R.Run(w, es + segs[0].before), who.reqID);
      FeedExtends(sub, st, segs[0].chunk);
      ServeExtends(w, Visited(w, es, who, VisitOf(segs[0], st.buf)), who, segs[1..], Feed(sub, st, segs[0].chunk));
    }
  }

  /** For the token, f does what g does, or leaves it alone where g visibly replaces it. */
  ghost predicate AgreeOrLeave(f: Substitution, g: Substitution, t: Bytes) {
    Subst(f, t) == Subst(g, t) || Leaves(f, g, t)
  }

  ghost predicate Leaves(f: Substitution, g: Substitution, t: Bytes) {
    Subst(f, t) == t && Subst(g, t) != [] && Subst(g, t)[0] != OPEN
  }

  lemma LeftDiffers(out: Bytes, t: Bytes, v: Bytes)
    requires t != [] && t[0] == OPEN && v != [] && v[0] != OPEN
    ensures Differ(out + t, out + v)
  {
    assert DifferAt(out + t, out + v, |out|);
  }

  lemma {:induction false} CompletedAreTokens(buf: Bytes, p: Bytes)
    ensures forall t | t in Completed(buf, p) :: IsToken(t)
  {
    if p == [] {
    } else {
      CompletedAreTokens(buf, p[..|p| - 1]);
    }
  }

  /** The first token that is left alone makes the outputs differ. */
  lemma {:induction false} FeedDiffers(f: Substitution, g: Substitution, st: Machine, p: Bytes)
    requires forall t | t in Completed(st.buf, p) :: AgreeOrLeave(f, g, t)
    requires exists t :: t in Completed(st.buf, p) && Leaves(f, g, t)
    ensures Differ(Feed(f, st, p).out, Feed(g, st, p).out)
  {
    var q, b := p[..|p| - 1], p[|p| - 1];
    assert forall t | t in Completed(st.buf, q) :: t in Completed(st.buf, p);
    var mid := Feed(f, st, q);
    if exists t :: t in Completed(st.buf, q) && Leaves(f, g, t) {
      FeedDiffers(f, g, st, q);
      StepExtends(f, mid, b);
      StepExtends(g, Feed(g, st, q), b);
      DifferLater(mid.out, Feed(g, st, q).out, Feed(f, st, p).out, Feed(g, st, p).out);
    } else {
      FeedAgree(f, g, st, q);
      FeedHolds(f, st, q);
      var c := mid.buf + [b];
      CompletedAreTokens(st.buf, p);
      TokenBytes(c);
      LeftDiffers(mid.out, c, Subst(g, c));
    }
  }

  lemma StepExtends(sub: Substitution, st: Machine, b: Byte)
    ensures st.out <= Step(sub, st, b).out
  {
  }

  /** A value that does not start with `[` does not do so escaped either. */
  lemma EscapeStaysBlunt(s: Bytes)
    requires s != [] && s[0] != OPEN
    ensures Escape(true, s) != [] && Escape(true, s)[0] != OPEN
  {
  }

  lemma LateLeaves(w: R.World, es: seq<R.Event>, r: Bytes, m: map<Bytes, Bytes>, t: Bytes)
    requires Filed(R.Run(w, es), r, m) && Blunt(m)
    ensures AgreeOrLeave(Shown(R.Run(w, es), r), Spliced(m), t)
    ensures t in m && !Recent(w, es, r, t) ==> Leaves(Shown(R.Run(w, es), r), Spliced(m), t)
  {
    ShownIffRecent(w, es, r, m, t);
    if t in m { EscapeStaysBlunt(m[t]); }
  }

  /** If a known token comes by too late, the output differs from the restored one for good. */
  lemma {:induction false} ServedLate(w: R.World, es: seq<R.Event>, who: R.Thread, m: map<Bytes, Bytes>,
                                      segs: seq<Segment>, st: Machine)
    requires Filed(R.Run(w, es), who.reqID, m) && SegmentsFit(segs, who.reqID, m) && Blunt(m)
    requires !InTime(w, es, who, m, Visits(segs, st.buf))
    ensures Differ(Serve(w, es, who, segs, st).out, Feed(Spliced(m), st, Chunks(segs)).out)
    decreases |segs|
  {
    var chunk, v := segs[0].chunk, VisitOf(segs[0], st.buf);
    var now := es + v.before;
    var sub := Shown(R.Run(w, now), who.reqID);
    VisitFiled(w, es, who, m, v);
    InTimeStep(w, es, who, m, segs, st.buf);
    FeedAppend(Spliced(m), st, chunk, Chunks(segs[1..]));
    if AllRecent(w, now, who.reqID, m, v.tokens) {
      ShownAgrees(w, now, who.reqID, m, v.tokens);
      FeedAgree(sub, Spliced(m), st, chunk);
      FeedHolds(Spliced(m), st, chunk);
      ServedLate(w, Visited(w, es, who, v), who, m, segs[1..], Feed(Spliced(m), st, chunk));
    } else {
      forall t | t in v.tokens
        ensures AgreeOrLeave(sub, Spliced(m), t)
        ensures t in m && !Recent(w, now, who.reqID, t) ==> Leaves(sub, Spliced(m), t)
      {
        LateLeaves(w, now, who.reqID, m, t);
      }
      FeedDiffers(sub, Spliced(m), st, chunk);
      ServeExtends(w, Visited(w, es, who, v), who, segs[1..], Feed(sub, st, chunk));
      FeedExtends(Spliced(m), Feed(Spliced(m), st, chunk), Chunks(segs[1..]));
      DifferLater(Feed(sub, st, chunk).out, Feed(Spliced(m), st, chunk).out,
                  Serve(w, es, who, segs, st).out, Feed(Spliced(m), st, Chunks(segs)).out);
    }
  }

  /**
   A stream of any duration is restored by its mapping if every known token that comes by
   was saved or looked up at most one idle lifetime before, and, when no masked value starts
   with `[`, only then.
   */
  lemma StreamRestoredIffInTime(w: R.World, es: seq<R.Event>, who: R.Thread, m: map<Bytes, Bytes>, segs: seq<Segment>)
    requires Filed(R.Run(w, es), who.reqID, m) && SegmentsFit(segs, who.reqID, m)
    ensures InTime(w, es, who, m, Visits(segs, [])) ==>
              Closed(Serve(w, es, who, segs, START)) == Rewrite(Spliced(m), Chunks(segs))
    ensures Blunt(m) ==>
              (Closed(Serve(w, es, who, segs, START)) == Rewrite(Spliced(m), Chunks(segs))
               <==> InTime(w, es, who, m, Visits(segs, [])))
  {
    OneChunk(Spliced(m), Chunks(segs));
    if InTime(w, es, who, m, Visits(segs, [])) {
      ServedInTime(w, es, who, m, segs, START);
    } else if Blunt(m) {
      ServedLate(w, es, who, m, segs, START);
      var a, b := Serve(w, es, who, segs, START), Feed(Spliced(m), START, Chunks(segs));
      DifferLater(a.out, b.out, Closed(a), Closed(b));
      var i :| DifferAt(Closed(a), Closed(b), i);
    }
  }
}
