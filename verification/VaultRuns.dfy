/**
 Many requests on one vault. A lookup is two atomic steps of the shared store, a read and
 then a write that renews the entry, so anything may happen between them: other requests'
 steps, the clock, and the janitor that removes expired entries.
 */
module VaultRuns {
  import opened ByteStrings
  import opened Vault

  datatype Thread = Thread(reqID: Bytes, id: nat)

  datatype Renewal = Renewal(token: Bytes, value: Bytes)

  datatype World = World(now: int, items: Store, pending: map<Thread, Renewal>)

  datatype Event =
    | Save(reqID: Bytes, token: Bytes, value: Bytes)
    | Fetch(who: Thread, wanted: Bytes)
    | Renew(who: Thread)
    | Tick(d: nat)
    | Purge

  const EMPTY: World := World(0, map[], map[])

  function Put(w: World, reqID: Bytes, token: Bytes, value: Bytes): World {
    w.(items := w.items[Key(reqID, token) := Entry(value, w.now + TTL)])
  }

  function Step(w: World, e: Event): World {
    match e
    case Save(r, t, v) => Put(w, r, t, v)
    case Fetch(who, t) =>
      (match Seen(w.items, w.now, who.reqID, t)
       case Some(entry) => w.(pending := w.pending[who := Renewal(t, entry.value)])
       case None => w)
    case Renew(who) =>
      if who in w.pending then
        Put(w, who.reqID, w.pending[who].token, w.pending[who].value).(pending := w.pending - {who})
      else w
    case Tick(d) => w.(now := w.now + d)
    case Purge => w.(items := map k | k in w.items && Live(w.items[k], w.now) :: w.items[k])
  }

  /** What a request learns from one event: the answer to its own lookup. */
  function Observe(w: World, e: Event, r: Bytes): seq<Option<Bytes>> {
    if e.Fetch? && e.who.reqID == r then
      (match Seen(w.items, w.now, r, e.wanted)
       case Some(entry) => [Some(entry.value)]
       case None => [None])
    else []
  }

  function Run(w: World, es: seq<Event>): World
    decreases |es|
  {
    if es == [] then w else Run(Step(w, es[0]), es[1..])
  }

  function Observations(w: World, es: seq<Event>, r: Bytes): seq<Option<Bytes>>
    decreases |es|
  {
    if es == [] then [] else Observe(w, es[0], r) + Observations(Step(w, es[0]), es[1..], r)
  }

  predicate Owns(e: Event, r: Bytes) {
    match e
    case Save(id, _, _) => id == r
    case Fetch(who, _) => who.reqID == r
    case Renew(who) => who.reqID == r
    case Tick(_) => true
    case Purge => false
  }

  /** The run a request would have on a vault of its own: its own steps and the clock. */
  function Private(es: seq<Event>, r: Bytes): seq<Event> {
    if es == [] then []
    else if Owns(es[0], r) then [es[0]] + Private(es[1..], r)
    else Private(es[1..], r)
  }

  // ---------------------------------------------------------------- keys

  /** Neither id, closed by its colon, starts the other one. */
  ghost predicate Apart(a: Bytes, b: Bytes) {
    !(a + [COLON] <= b + [COLON]) && !(b + [COLON] <= a + [COLON])
  }

  /** Two ids never share a store key exactly when they are apart. */
  lemma KeysDisjointIffApart(a: Bytes, b: Bytes)
    ensures (forall s, t :: Key(a, s) != Key(b, t)) <==> Apart(a, b)
  {
    if Apart(a, b) {
      forall s, t
        ensures Key(a, s) != Key(b, t)
      {
        ApartKeys(a, b, s, t);
      }
    } else if a + [COLON] <= b + [COLON] {
      assert Key(a, (b + [COLON])[|a| + 1..]) == Key(b, []);
    } else {
      assert Key(b, (a + [COLON])[|b| + 1..]) == Key(a, []);
    }
  }

  lemma SharedKey(a: Bytes, b: Bytes, s: Bytes, t: Bytes)
    requires Key(a, s) == Key(b, t)
    ensures !Apart(a, b)
  {
    var k := Key(a, s);
    assert a + [COLON] == k[..|a| + 1] && b + [COLON] == k[..|b| + 1];
  }

  lemma ApartKeys(a: Bytes, b: Bytes, s: Bytes, t: Bytes)
    requires Apart(a, b)
    ensures Key(a, s) != Key(b, t)
  {
    if Key(a, s) == Key(b, t) { SharedKey(a, b, s, t); }
  }

  lemma ColonFreePrefix(a: Bytes, b: Bytes)
    requires COLON !in b && a + [COLON] <= b + [COLON]
    ensures a == b
  {
    assert (a + [COLON])[|a|] == COLON == (b + [COLON])[|a|];
    if |a| == |b| {
      assert a == (a + [COLON])[..|a|] && b == (b + [COLON])[..|a|];
    }
  }

  /** Distinct ids without a colon, such as the UUIDs the proxy hands out, are apart. */
  lemma ColonFreeApart(a: Bytes, b: Bytes)
    requires a != b && COLON !in a && COLON !in b
    ensures Apart(a, b)
  {
    if a + [COLON] <= b + [COLON] { ColonFreePrefix(a, b); }
    if b + [COLON] <= a + [COLON] { ColonFreePrefix(b, a); }
  }

  lemma SameIdKeys(r: Bytes, s: Bytes, t: Bytes)
    ensures Key(r, s) == Key(r, t) <==> s == t
  {
    assert Key(r, s)[|r| + 1..] == s && Key(r, t)[|r| + 1..] == t;
  }

  // ---------------------------------------------------------------- isolation

  ghost predicate SeenAlike(a: Store, b: Store, now: int, r: Bytes) {
    forall t :: Seen(a, now, r, t) == Seen(b, now, r, t)
  }

  ghost predicate PendingAlike(a: map<Thread, Renewal>, b: map<Thread, Renewal>, r: Bytes) {
    && (forall who: Thread | who.reqID == r :: who in a <==> who in b)
    && (forall who: Thread | who.reqID == r && who in a :: a[who] == b[who])
  }

  /** The shared world and the private one show request r the same. */
  ghost predicate Agree(w: World, p: World, r: Bytes) {
    w.now == p.now && SeenAlike(w.items, p.items, w.now, r) && PendingAlike(w.pending, p.pending, r)
  }

  ghost predicate Foreign(e: Event, r: Bytes) {
    match e
    case Save(id, _, _) => Apart(id, r)
    case Fetch(who, _) => Apart(who.reqID, r)
    case Renew(who) => Apart(who.reqID, r)
    case Tick(_) => false
    case Purge => true
  }

  lemma PutOwn(w: World, p: World, r: Bytes, token: Bytes, value: Bytes)
    requires w.now == p.now && SeenAlike(w.items, p.items, w.now, r)
    ensures SeenAlike(Put(w, r, token, value).items, Put(p, r, token, value).items, w.now, r)
  {
    var w1, p1 := Put(w, r, token, value), Put(p, r, token, value);
    forall t
      ensures Seen(w1.items, w1.now, r, t) == Seen(p1.items, p1.now, r, t)
    {
      SameIdKeys(r, token, t);
      assert Seen(w.items, w.now, r, t) == Seen(p.items, p.now, r, t);
    }
  }

  lemma SeenLater(a: Store, b: Store, now: int, d: nat, r: Bytes)
    requires SeenAlike(a, b, now, r)
    ensures SeenAlike(a, b, now + d, r)
  {
    var later := now + d;
    forall t
      ensures Seen(a, later, r, t) == Seen(b, later, r, t)
    {
      assert Seen(a, now, r, t) == Seen(b, now, r, t);
    }
  }

  lemma PutForeign(w: World, r: Bytes, other: Bytes, token: Bytes, value: Bytes, t: Bytes)
    requires Apart(other, r)
    ensures Seen(Put(w, other, token, value).items, w.now, r, t) == Seen(w.items, w.now, r, t)
  {
    ApartKeys(other, r, token, t);
  }

  lemma OwnStep(w: World, p: World, e: Event, r: Bytes)
    requires Agree(w, p, r) && Owns(e, r)
    ensures Agree(Step(w, e), Step(p, e), r) && Observe(w, e, r) == Observe(p, e, r)
  {
    match e
    case Save(_, t, v) =>
      PutOwn(w, p, r, t, v);
    case Fetch(who, t) =>
      assert Seen(w.items, w.now, r, t) == Seen(p.items, p.now, r, t);
    case Renew(who) =>
      if who in w.pending {
        PutOwn(w, p, r, w.pending[who].token, w.pending[who].value);
      }
    case Tick(d) =>
      SeenLater(w.items, p.items, w.now, d, r);
  }

  lemma ForeignStep(w: World, p: World, e: Event, r: Bytes)
    requires Agree(w, p, r) && Foreign(e, r)
    ensures Agree(Step(w, e), p, r) && Observe(w, e, r) == []
  {
    var w1 := Step(w, e);
    forall t
      ensures Seen(w1.items, w1.now, r, t) == Seen(p.items, p.now, r, t)
    {
      assert Seen(w.items, w.now, r, t) == Seen(p.items, p.now, r, t);
      match e
      case Save(id, s, v) => PutForeign(w, r, id, s, v, t);
      case Fetch(_, _) =>
      case Renew(who) =>
        if who in w.pending { PutForeign(w, r, who.reqID, w.pending[who].token, w.pending[who].value, t); }
      case Purge =>
    }
  }

  /**
   Request isolation over whole runs: whatever the other requests, the clock and the
   janitor do, a request is answered exactly as on a vault of its own.
   */
  lemma {:induction false} Isolation(w: World, p: World, es: seq<Event>, r: Bytes)
    requires Agree(w, p, r)
    requires forall i | 0 <= i < |es| :: Owns(es[i], r) || Foreign(es[i], r)
    ensures Observations(w, es, r) == Observations(p, Private(es, r), r)
    ensures Agree(Run(w, es), Run(p, Private(es, r)), r)
    decreases |es|
  {
    if es == [] {
    } else {
      var e := es[0];
      if Owns(e, r) {
        OwnStep(w, p, e, r);
        Isolation(Step(w, e), Step(p, e), es[1..], r);
        assert Private(es, r)[0] == e && Private(es, r)[1..] == Private(es[1..], r);
      } else {
        ForeignStep(w, p, e, r);
        Isolation(Step(w, e), p, es[1..], r);
      }
    }
  }

  ghost predicate Between(e: Event, a: Bytes, b: Bytes) {
    Owns(e, a) || Owns(e, b) || e.Purge?
  }

  /** A request is isolated from another one in every run exactly when their ids are apart. */
  lemma IsolatedIffApart(a: Bytes, b: Bytes)
    requires a != b
    ensures (forall es: seq<Event> | (forall i | 0 <= i < |es| :: Between(es[i], a, b)) ::
               Observations(EMPTY, es, a) == Observations(EMPTY, Private(es, a), a))
            <==> Apart(b, a)
  {
    if Apart(b, a) {
      forall es: seq<Event> | (forall i | 0 <= i < |es| :: Between(es[i], a, b))
        ensures Observations(EMPTY, es, a) == Observations(EMPTY, Private(es, a), a)
      {
        Isolation(EMPTY, EMPTY, es, a);
      }
    } else {
      KeysDisjointIffApart(b, a);
      var s, t :| Key(b, s) == Key(a, t);
      var es := Leak(a, b, s, t);
      assert forall i | 0 <= i < |es| :: Between(es[i], a, b);
    }
  }

  /** A key shared by two ids lets one request read what the other one saved. */
  lemma Leak(a: Bytes, b: Bytes, s: Bytes, t: Bytes) returns (es: seq<Event>)
    requires a != b && Key(b, s) == Key(a, t)
    ensures forall i | 0 <= i < |es| :: Between(es[i], a, b)
    ensures Observations(EMPTY, es, a) == [Some([0])] && Observations(EMPTY, Private(es, a), a) == [None]
  {
    var fetch := Fetch(Thread(a, 0), t);
    es := [Save(b, s, [0]), fetch];
    var w := Step(EMPTY, es[0]);
    assert es[1..] == [fetch] && [fetch][1..] == [];
    assert Seen(w.items, 0, a, t) == Some(Entry([0], TTL));
    assert Observations(w, [fetch], a) == [Some([0])] + Observations(Step(w, fetch), [], a);
    assert Private([fetch], a) == [fetch] + Private([], a) == [fetch];
    assert Private(es, a) == [fetch];
    assert Observations(EMPTY, [fetch], a) == [None] + Observations(Step(EMPTY, fetch), [], a);
  }

  // ---------------------------------------------------------------- expiry

  function Elapsed(es: seq<Event>): nat {
    if es == [] then 0 else (if es[0].Tick? then es[0].d else 0) + Elapsed(es[1..])
  }

  /** When an entry was last written, and with which value. */
  datatype Touch = Touch(at: int, value: Bytes)

  /** What the event writes under the key: a save does, and the second half of a lookup. */
  function Touching(w: World, e: Event, k: Bytes): Option<Touch> {
    match e
    case Save(r, t, v) => if Key(r, t) == k then Some(Touch(w.now, v)) else None
    case Renew(who) =>
      if who in w.pending && Key(who.reqID, w.pending[who].token) == k
      then Some(Touch(w.now, w.pending[who].value)) else None
    case _ => None
  }

  function LastTouch(w: World, es: seq<Event>, k: Bytes, last: Option<Touch>): Option<Touch>
    decreases |es|
  {
    if es == [] then last
    else
      var touch := Touching(w, es[0], k);
      LastTouch(Step(w, es[0]), es[1..], k, if touch.Some? then touch else last)
  }

  /** The touch an entry of the starting world stems from. */
  function Initial(w: World, k: Bytes): Option<Touch> {
    if k in w.items then Some(Touch(w.items[k].expires - TTL, w.items[k].value)) else None
  }

  /** The last touch of a key up to the end of a run. */
  function Touched(w: World, es: seq<Event>, k: Bytes): Option<Touch> { LastTouch(w, es, k, Initial(w, k)) }

  predicate WithinTTL(last: Option<Touch>, now: int) { last.Some? && now <= last.value.at + TTL }

  /** Entries stem from the last touch of their key, and are kept at least until they expire. */
  ghost predicate Stems(w: World, k: Bytes, last: Option<Touch>) {
    && (k in w.items ==> last.Some? && w.items[k] == Entry(last.value.value, last.value.at + TTL))
    && (WithinTTL(last, w.now) ==> k in w.items)
  }

  lemma {:induction false} RunStems(w: World, es: seq<Event>, k: Bytes, last: Option<Touch>)
    requires Stems(w, k, last)
    ensures Stems(Run(w, es), k, LastTouch(w, es, k, last))
    decreases |es|
  {
    if es == [] {
    } else {
      var touch := Touching(w, es[0], k);
      RunStems(Step(w, es[0]), es[1..], k, if touch.Some? then touch else last);
    }
  }

  /**
   Expiry is exact in every run: at its end a mapping is visible if and only if it was last
   saved or read back at most one idle lifetime before, and then with the value written there.
   */
  lemma ExactExpiry(w: World, es: seq<Event>, r: Bytes, t: Bytes)
    ensures var last, end := Touched(w, es, Key(r, t)), Run(w, es);
            && (Seen(end.items, end.now, r, t).Some? <==> WithinTTL(last, end.now))
            && (Seen(end.items, end.now, r, t).Some? ==>
                  Seen(end.items, end.now, r, t).value == Entry(last.value.value, last.value.at + TTL))
  {
    RunStems(w, es, Key(r, t), Initial(w, Key(r, t)));
  }

  /** The event neither saves under the key nor starts a lookup of it. */
  predicate Ignores(e: Event, k: Bytes) {
    match e
    case Save(r, t, _) => Key(r, t) != k
    case Fetch(who, t) => Key(who.reqID, t) != k
    case _ => true
  }

  predicate NotPending(w: World, k: Bytes) {
    forall who | who in w.pending :: Key(who.reqID, w.pending[who].token) != k
  }

  /**
   Idle expiry is exact: a mapping that nobody saves or reads stays visible as long as no
   more than the idle lifetime has passed, and is gone as soon as more has.
   */
  lemma {:induction false} IdleExpiry(w: World, es: seq<Event>, r: Bytes, t: Bytes, entry: Entry)
    requires NotPending(w, Key(r, t))
    requires forall i | 0 <= i < |es| :: Ignores(es[i], Key(r, t))
    requires Seen(w.items, w.now, r, t) == if w.now <= entry.expires then Some(entry) else None
    ensures Seen(Run(w, es).items, Run(w, es).now, r, t)
         == if w.now + Elapsed(es) <= entry.expires then Some(entry) else None
    decreases |es|
  {
    if es == [] {
    } else {
      var w1 := Step(w, es[0]);
      assert NotPending(w1, Key(r, t));
      IdleExpiry(w1, es[1..], r, t, entry);
    }
  }

  lemma {:induction false} RunAppend(w: World, a: seq<Event>, b: seq<Event>)
    ensures Run(w, a + b) == Run(Run(w, a), b)
    decreases |a|
  {
    if a == [] {
      assert a + b == b;
    } else {
      assert (a + b)[0] == a[0] && (a + b)[1..] == a[1..] + b;
      RunAppend(Step(w, a[0]), a[1..], b);
    }
  }

  lemma RunOne(w: World, e: Event)
    ensures Run(w, [e]) == Step(w, e)
  {
    assert [e][1..] == [];
  }

  lemma {:induction false} LastTouchAppend(w: World, a: seq<Event>, b: seq<Event>, k: Bytes, last: Option<Touch>)
    ensures LastTouch(w, a + b, k, last) == LastTouch(Run(w, a), b, k, LastTouch(w, a, k, last))
    decreases |a|
  {
    if a == [] {
      assert a + b == b;
    } else {
      assert (a + b)[0] == a[0] && (a + b)[1..] == a[1..] + b;
      var touch := Touching(w, a[0], k);
      LastTouchAppend(Step(w, a[0]), a[1..], b, k, if touch.Some? then touch else last);
    }
  }

  /** A run, and the touches in it, from its first event on. */
  lemma Unrolled(w: World, e: Event, es: seq<Event>, k: Bytes, last: Option<Touch>)
    ensures Run(w, [e] + es) == Run(Step(w, e), es)
    ensures var touch := Touching(w, e, k);
            LastTouch(w, [e] + es, k, last) == LastTouch(Step(w, e), es, k, if touch.Some? then touch else last)
  {
    assert ([e] + es)[1..] == es;
  }

  const FOUR_MINUTES: nat := 240_000_000_000

  /** The run: two tokens saved, four minutes, a lookup of the first one, four minutes more. */
  function BusyRun(r: Bytes, t1: Bytes, t2: Bytes, v: Bytes): seq<Event> {
    [Save(r, t1, v)] + ([Save(r, t2, v)] + ([Tick(FOUR_MINUTES)] + ([Fetch(Thread(r, 0), t1)]
    + ([Renew(Thread(r, 0))] + ([Tick(FOUR_MINUTES)] + [])))))
  }

  lemma BusyTouches(r: Bytes, t1: Bytes, t2: Bytes, v: Bytes, k: Bytes)
    requires t1 != t2 && (k == Key(r, t1) || k == Key(r, t2))
    ensures Run(EMPTY, BusyRun(r, t1, t2, v)).now == 2 * FOUR_MINUTES
    ensures Touched(EMPTY, BusyRun(r, t1, t2, v), k) == Some(Touch(if k == Key(r, t1) then FOUR_MINUTES else 0, v))
  {
    SameIdKeys(r, t1, t2);
    var wait, fetch, renew := Tick(FOUR_MINUTES), Fetch(Thread(r, 0), t1), Renew(Thread(r, 0));
    var w1 := Step(EMPTY, Save(r, t1, v));
    var w2 := Step(w1, Save(r, t2, v));
    var w3 := Step(w2, wait);
    var w4 := Step(w3, fetch);
    var w5 := Step(w4, renew);
    var first, late := Some(Touch(0, v)), Some(Touch(FOUR_MINUTES, v));
    var at1 := if k == Key(r, t1) then first else None;
    var at5 := if k == Key(r, t1) then late else first;
    var l5 := [wait] + [];
    var l4 := [renew] + l5;
    var l3 := [fetch] + l4;
    var l2 := [wait] + l3;
    Unrolled(EMPTY, Save(r, t1, v), [Save(r, t2, v)] + l2, k, None);
    Unrolled(w1, Save(r, t2, v), l2, k, at1);
    Unrolled(w2, wait, l3, k, first);
    Unrolled(w3, fetch, l4, k, first);
    assert w4.pending == map[Thread(r, 0) := Renewal(t1, v)];
    Unrolled(w4, renew, l5, k, first);
    Unrolled(w5, wait, [], k, at5);
  }

  /**
   Renewal is per token, so a response that stays busy can still outlive a value it needs:
   in the busy run the request never goes five minutes without a lookup, and its second
   token is gone, last touched eight minutes before.
   */
  lemma BusyStreamLosesToken(r: Bytes, t1: Bytes, t2: Bytes, v: Bytes)
    requires t1 != t2
    ensures var w := Run(EMPTY, BusyRun(r, t1, t2, v));
            Seen(w.items, w.now, r, t1).Some? && Seen(w.items, w.now, r, t2).None?
  {
    SameIdKeys(r, t1, t2);
    BusyTouches(r, t1, t2, v, Key(r, t1));
    BusyTouches(r, t1, t2, v, Key(r, t2));
    ExactExpiry(EMPTY, BusyRun(r, t1, t2, v), r, t1);
    ExactExpiry(EMPTY, BusyRun(r, t1, t2, v), r, t2);
  }
}
