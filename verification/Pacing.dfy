/**
 When a stream is in time, in terms of the stream and the clock alone: its own lookups renew
 the tokens that come by, so each need only come by again within one idle lifetime.
 */
module Pacing {
  import opened ByteStrings
  import opened LongStreams
  import V = Vault
  import R = VaultRuns

  /** When each token was last seen, once these have come by. */
  function Refreshed(now: int, tokens: seq<Bytes>, seen: map<Bytes, int>): map<Bytes, int> {
    map t | t in seen :: if t in tokens then now else seen[t]
  }

  /** The time after what comes before a visit. */
  function At(now: int, v: Visit): int { now + R.Elapsed(v.before) }

  /** Known tokens come by, after they were last seen, within one idle lifetime. */
  ghost predicate Paced(now: int, m: map<Bytes, Bytes>, visits: seq<Visit>, seen: map<Bytes, int>)
    requires seen.Keys == m.Keys
    decreases |visits|
  {
    visits == [] ||
    var later := At(now, visits[0]);
    && (forall t | t in visits[0].tokens && t in m :: later <= seen[t] + V.TTL)
    && Paced(later, m, visits[1..], Refreshed(later, visits[0].tokens, seen))
  }

  /** Each token was last touched when it was last seen, or later. */
  ghost predicate SeenSince(w: R.World, es: seq<R.Event>, r: Bytes, m: map<Bytes, Bytes>, seen: map<Bytes, int>)
    requires seen.Keys == m.Keys
  {
    forall t | t in m :: seen[t] <= R.Run(w, es).now && Since(R.Touched(w, es, V.Key(r, t)), seen[t])
  }

  predicate Since(last: Option<R.Touch>, at: int) { last.Some? && at <= last.value.at }

  lemma {:induction false} TouchesAdvance(w: R.World, es: seq<R.Event>, k: Bytes, last: Option<R.Touch>, at: int)
    requires Since(last, at) && at <= w.now
    ensures Since(R.LastTouch(w, es, k, last), at)
    decreases |es|
  {
    if es == [] {
    } else {
      var touch := R.Touching(w, es[0], k);
      TouchesAdvance(R.Step(w, es[0]), es[1..], k, if touch.Some? then touch else last, at);
    }
  }

  lemma StillSince(w: R.World, es: seq<R.Event>, more: seq<R.Event>, k: Bytes, at: int)
    requires Since(R.Touched(w, es, k), at) && at <= R.Run(w, es).now
    ensures Since(R.Touched(w, es + more, k), at)
  {
    R.LastTouchAppend(w, es, more, k, R.Initial(w, k));
    TouchesAdvance(R.Run(w, es), more, k, R.Touched(w, es, k), at);
  }

  lemma {:induction false} RunClock(w: R.World, es: seq<R.Event>)
    ensures R.Run(w, es).now == w.now + R.Elapsed(es)
    decreases |es|
  {
    if es == [] {
    } else {
      RunClock(R.Step(w, es[0]), es[1..]);
    }
  }

  // ---------------------------------------------------------------- what lookups touch

  predicate TouchedAt(last: Option<R.Touch>, at: int) { last.Some? && last.value.at == at }

  /** A lookup touches the token it finds, and no other. */
  lemma OneTouchAt(w: R.World, who: R.Thread, wanted: Bytes, t: Bytes, last: Option<R.Touch>)
    ensures var end := R.LastTouch(w, LookupOne(w, who, wanted), V.Key(who.reqID, t), last);
            if t == wanted && V.Seen(w.items, w.now, who.reqID, t).Some? then TouchedAt(end, w.now) else end == last
  {
    var fetch, renew, k := R.Fetch(who, wanted), R.Renew(who), V.Key(who.reqID, t);
    R.SameIdKeys(who.reqID, t, wanted);
    if V.Seen(w.items, w.now, who.reqID, wanted).Some? {
      R.Unrolled(w, fetch, [renew], k, last);
      R.Unrolled(R.Step(w, fetch), renew, [], k, last);
      assert [renew] + [] == [renew];
    } else {
      R.Unrolled(w, fetch, [], k, last);
    }
  }

  lemma SeenStays(w: R.World, r: Bytes, wanted: Bytes, t: Bytes)
    ensures var items := V.RenewedOne(w.items, V.Context(w.now, false), r, wanted);
            V.Seen(items, w.now, r, t).Some? <==> V.Seen(w.items, w.now, r, t).Some?
  {
    R.SameIdKeys(r, t, wanted);
  }

  lemma {:induction false} LookupsTouchAt(w: R.World, who: R.Thread, tokens: seq<Bytes>, t: Bytes,
                                          last: Option<R.Touch>)
    ensures var end := R.LastTouch(w, Lookups(w, who, tokens), V.Key(who.reqID, t), last);
            if t in tokens && V.Seen(w.items, w.now, who.reqID, t).Some? then TouchedAt(end, w.now) else end == last
    decreases |tokens|
  {
    if tokens == [] {
    } else {
      var one, k := LookupOne(w, who, tokens[0]), V.Key(who.reqID, t);
      LookupOneRenews(w, who, tokens[0]);
      OneTouchAt(w, who, tokens[0], t, last);
      SeenStays(w, who.reqID, tokens[0], t);
      R.LastTouchAppend(w, one, Lookups(R.Run(w, one), who, tokens[1..]), k, last);
      LookupsTouchAt(R.Run(w, one), who, tokens[1..], t, R.LastTouch(w, one, k, last));
    }
  }

  /** Looking up tokens touches the recent ones among them, and nothing else of the request. */
  lemma LookupsTouch(w: R.World, es: seq<R.Event>, who: R.Thread, tokens: seq<Bytes>, t: Bytes)
    ensures var k := V.Key(who.reqID, t);
            var last := R.Touched(w, es + Lookups(R.Run(w, es), who, tokens), k);
            if t in tokens && Recent(w, es, who.reqID, t) then TouchedAt(last, R.Run(w, es).now)
            else last == R.Touched(w, es, k)
  {
    var k := V.Key(who.reqID, t);
    R.LastTouchAppend(w, es, Lookups(R.Run(w, es), who, tokens), k, R.Initial(w, k));
    R.ExactExpiry(w, es, who.reqID, t);
    LookupsTouchAt(R.Run(w, es), who, tokens, t, R.Touched(w, es, k));
  }

  lemma VisitClock(w: R.World, es: seq<R.Event>, who: R.Thread, v: Visit)
    ensures R.Run(w, es + v.before).now == At(R.Run(w, es).now, v)
    ensures R.Run(w, Visited(w, es, who, v)).now == At(R.Run(w, es).now, v)
  {
    var now := es + v.before;
    R.RunAppend(w, es, v.before);
    RunClock(R.Run(w, es), v.before);
    R.RunAppend(w, now, Lookups(R.Run(w, now), who, v.tokens));
    LookupsRenew(R.Run(w, now), who, v.tokens);
  }

  // ---------------------------------------------------------------- paced streams are in time

  lemma VisitSees(w: R.World, es: seq<R.Event>, who: R.Thread, m: map<Bytes, Bytes>, v: Visit, seen: map<Bytes, int>)
    requires seen.Keys == m.Keys && SeenSince(w, es, who.reqID, m, seen)
    requires forall t | t in v.tokens && t in m :: At(R.Run(w, es).now, v) <= seen[t] + V.TTL
    ensures AllRecent(w, es + v.before, who.reqID, m, v.tokens)
    ensures R.Run(w, Visited(w, es, who, v)).now == At(R.Run(w, es).now, v)
    ensures var later := At(R.Run(w, es).now, v);
            SeenSince(w, Visited(w, es, who, v), who.reqID, m, Refreshed(later, v.tokens, seen))
  {
    var now := es + v.before;
    VisitClock(w, es, who, v);
    forall t | t in m
      ensures t in v.tokens ==> Recent(w, now, who.reqID, t)
      ensures Since(R.Touched(w, Visited(w, es, who, v), V.Key(who.reqID, t)),
                    if t in v.tokens then R.Run(w, now).now else seen[t])
    {
      StillSince(w, es, v.before, V.Key(who.reqID, t), seen[t]);
      LookupsTouch(w, now, who, v.tokens, t);
    }
  }

  lemma PacedFirst(now: int, m: map<Bytes, Bytes>, visits: seq<Visit>, seen: map<Bytes, int>)
    requires visits != [] && seen.Keys == m.Keys && Paced(now, m, visits, seen)
    ensures var later := At(now, visits[0]);
            && (forall t | t in visits[0].tokens && t in m :: later <= seen[t] + V.TTL)
            && Paced(later, m, visits[1..], Refreshed(later, visits[0].tokens, seen))
  {
  }

  /**
   A stream may last for any time: it is enough that each known token comes by again within
   one idle lifetime, because every time it does it is renewed.
   */
  lemma {:induction false} PacedInTime(w: R.World, es: seq<R.Event>, who: R.Thread, m: map<Bytes, Bytes>,
                                       visits: seq<Visit>, seen: map<Bytes, int>)
    requires seen.Keys == m.Keys && SeenSince(w, es, who.reqID, m, seen)
    requires Paced(R.Run(w, es).now, m, visits, seen)
    ensures InTime(w, es, who, m, visits)
    decreases |visits|
  {
    if visits == [] {
    } else {
      var v := visits[0];
      var later := At(R.Run(w, es).now, v);
      PacedFirst(R.Run(w, es).now, m, visits, seen);
      VisitSees(w, es, who, m, v, seen);
      PacedInTime(w, Visited(w, es, who, v), who, m, visits[1..], Refreshed(later, v.tokens, seen));
    }
  }

  // ---------------------------------------------------------------- exactly when

  /** Another request's event that cannot meet this one's keys, or the clock, or the janitor. */
  ghost predicate Quiet(e: R.Event, r: Bytes) { R.Foreign(e, r) || e.Tick? }

  ghost predicate AllQuiet(es: seq<R.Event>, r: Bytes) { forall i | 0 <= i < |es| :: Quiet(es[i], r) }

  /** Between its visits the request itself neither saves nor looks up anything. */
  ghost predicate QuietBetween(visits: seq<Visit>, r: Bytes) {
    forall i | 0 <= i < |visits| :: AllQuiet(visits[i].before, r)
  }

  /** Each token was last touched when it was last seen, no later. */
  ghost predicate SeenExactly(w: R.World, es: seq<R.Event>, r: Bytes, m: map<Bytes, Bytes>, seen: map<Bytes, int>)
    requires seen.Keys == m.Keys
  {
    forall t | t in m :: TouchedAt(R.Touched(w, es, V.Key(r, t)), seen[t])
  }

  lemma QuietStep(w: R.World, e: R.Event, r: Bytes, t: Bytes)
    requires Quiet(e, r)
    ensures R.Touching(w, e, V.Key(r, t)).None?
  {
    match e
    case Save(id, s, _) => R.ApartKeys(id, r, s, t);
    case Renew(who) =>
      if who in w.pending { R.ApartKeys(who.reqID, r, w.pending[who].token, t); }
    case _ =>
  }

  lemma {:induction false} QuietTouches(w: R.World, es: seq<R.Event>, r: Bytes, t: Bytes, last: Option<R.Touch>)
    requires AllQuiet(es, r)
    ensures R.LastTouch(w, es, V.Key(r, t), last) == last
    decreases |es|
  {
    if es == [] {
    } else {
      QuietStep(w, es[0], r, t);
      QuietTouches(R.Step(w, es[0]), es[1..], r, t, last);
    }
  }

  lemma QuietVisit(w: R.World, es: seq<R.Event>, who: R.Thread, v: Visit, t: Bytes, at: int)
    requires AllQuiet(v.before, who.reqID) && TouchedAt(R.Touched(w, es, V.Key(who.reqID, t)), at)
    ensures var later := At(R.Run(w, es).now, v);
            && (Recent(w, es + v.before, who.reqID, t) <==> later <= at + V.TTL)
            && (t in v.tokens && later <= at + V.TTL ==>
                  TouchedAt(R.Touched(w, Visited(w, es, who, v), V.Key(who.reqID, t)), later))
            && (t !in v.tokens ==> TouchedAt(R.Touched(w, Visited(w, es, who, v), V.Key(who.reqID, t)), at))
  {
    var k := V.Key(who.reqID, t);
    VisitClock(w, es, who, v);
    R.LastTouchAppend(w, es, v.before, k, R.Initial(w, k));
    QuietTouches(R.Run(w, es), v.before, who.reqID, t, R.Touched(w, es, k));
    LookupsTouch(w, es + v.before, who, v.tokens, t);
  }

  lemma QuietVisits(w: R.World, es: seq<R.Event>, who: R.Thread, m: map<Bytes, Bytes>, v: Visit, seen: map<Bytes, int>)
    requires seen.Keys == m.Keys && SeenExactly(w, es, who.reqID, m, seen) && AllQuiet(v.before, who.reqID)
    ensures var later := At(R.Run(w, es).now, v);
            && (AllRecent(w, es + v.before, who.reqID, m, v.tokens)
                <==> forall t | t in v.tokens && t in m :: later <= seen[t] + V.TTL)
            && (AllRecent(w, es + v.before, who.reqID, m, v.tokens) ==>
                  SeenExactly(w, Visited(w, es, who, v), who.reqID, m, Refreshed(later, v.tokens, seen)))
  {
    forall t | t in m
      ensures var later := At(R.Run(w, es).now, v);
              && (Recent(w, es + v.before, who.reqID, t) <==> later <= seen[t] + V.TTL)
              && (t in v.tokens && later <= seen[t] + V.TTL ==>
                    TouchedAt(R.Touched(w, Visited(w, es, who, v), V.Key(who.reqID, t)), later))
              && (t !in v.tokens ==> TouchedAt(R.Touched(w, Visited(w, es, who, v), V.Key(who.reqID, t)), seen[t]))
    {
      QuietVisit(w, es, who, v, t, seen[t]);
    }
  }

  /**
   A caller's condition that is exact: when the request does nothing else with its tokens
   meanwhile, a stream is in time if and only if each known token comes by again within one
   idle lifetime of the last time it did.
   */
  lemma {:induction false} InTimeIffPaced(w: R.World, es: seq<R.Event>, who: R.Thread, m: map<Bytes, Bytes>,
                                          visits: seq<Visit>, seen: map<Bytes, int>)
    requires seen.Keys == m.Keys && SeenExactly(w, es, who.reqID, m, seen) && QuietBetween(visits, who.reqID)
    ensures InTime(w, es, who, m, visits) <==> Paced(R.Run(w, es).now, m, visits, seen)
    decreases |visits|
  {
    if visits == [] {
    } else {
      var v := visits[0];
      VisitClock(w, es, who, v);
      QuietVisits(w, es, who, m, v, seen);
      if AllRecent(w, es + v.before, who.reqID, m, v.tokens) {
        InTimeIffPaced(w, Visited(w, es, who, v), who, m, visits[1..],
            Refreshed(At(R.Run(w, es).now, v), v.tokens, seen));
      }
    }
  }

  // ---------------------------------------------------------------- short streams

  function TotalTime(visits: seq<Visit>): nat {
    if visits == [] then 0 else R.Elapsed(visits[0].before) + TotalTime(visits[1..])
  }

  /** In particular nothing is asked of a stream that is over within one idle lifetime. */
  lemma {:induction false} ShortStreamPaced(now: int, m: map<Bytes, Bytes>, visits: seq<Visit>, seen: map<Bytes, int>)
    requires seen.Keys == m.Keys && forall t | t in m :: seen[t] <= now && now + TotalTime(visits) <= seen[t] + V.TTL
    ensures Paced(now, m, visits, seen)
    decreases |visits|
  {
    if visits == [] {
    } else {
      var later := At(now, visits[0]);
      ShortStreamPaced(later, m, visits[1..], Refreshed(later, visits[0].tokens, seen));
    }
  }
}
