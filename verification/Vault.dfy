/**
 The token vault: one store shared by every request, in which a mapping lives for a
 fixed idle time that saving it and reading it back start anew.
 */
module Vault {
  import opened ByteStrings

  /** Idle lifetime of a mapping, in nanoseconds. */
  const TTL: int := 300_000_000_000

  datatype Entry = Entry(value: Bytes, expires: int)

  type Store = map<Bytes, Entry>

  /** What a call to the vault can observe besides the store: the clock and its own context. */
  datatype Context = Context(now: int, cancelled: bool)

  datatype Answer = Found(value: Bytes) | NotFound | Cancelled

  function Key(reqID: Bytes, token: Bytes): Bytes { reqID + [COLON] + token }

  predicate Live(e: Entry, now: int) { now <= e.expires }

  /** The entry a request still sees under a token. */
  function Seen(items: Store, now: int, reqID: Bytes, token: Bytes): Option<Entry> {
    var k := Key(reqID, token);
    if k in items && Live(items[k], now) then Some(items[k]) else None
  }

  ghost predicate InScope(reqID: Bytes, k: Bytes) { reqID + [COLON] <= k }

  lemma ScopeIsKey(reqID: Bytes, k: Bytes)
    requires InScope(reqID, k)
    ensures k == Key(reqID, k[|reqID| + 1..])
  {
  }

  lemma KeyInScope(reqID: Bytes, token: Bytes)
    ensures InScope(reqID, Key(reqID, token)) && Key(reqID, token)[|reqID| + 1..] == token
  {
  }

  /** Everything a request can look up: its tokens and their values. */
  ghost function View(items: Store, ctx: Context, reqID: Bytes): map<Bytes, Bytes> {
    if ctx.cancelled then map[]
    else
      map t | t in (set k | k in items && InScope(reqID, k) && Live(items[k], ctx.now) :: k[|reqID| + 1..])
        :: Recall(items, ctx.now, reqID, t)
  }

  function Recall(items: Store, now: int, reqID: Bytes, token: Bytes): Bytes {
    match Seen(items, now, reqID, token) case Some(e) => e.value case None => []
  }

  lemma ViewSees(items: Store, ctx: Context, reqID: Bytes, token: Bytes)
    ensures token in View(items, ctx, reqID) <==> !ctx.cancelled && Seen(items, ctx.now, reqID, token).Some?
    ensures token in View(items, ctx, reqID) ==>
              View(items, ctx, reqID)[token] == Seen(items, ctx.now, reqID, token).value.value
  {
    KeyInScope(reqID, token);
    if token in View(items, ctx, reqID) {
      var k :| k in items && InScope(reqID, k) && Live(items[k], ctx.now) && k[|reqID| + 1..] == token;
      ScopeIsKey(reqID, k);
    }
  }

  /** Two stores that show every token of a request alike give it the same view. */
  lemma SameView(a: Store, b: Store, ctx: Context, reqID: Bytes)
    requires forall t :: Recall(a, ctx.now, reqID, t) == Recall(b, ctx.now, reqID, t)
    requires forall t :: Seen(a, ctx.now, reqID, t).Some? <==> Seen(b, ctx.now, reqID, t).Some?
    ensures View(a, ctx, reqID) == View(b, ctx, reqID)
  {
    var va, vb := View(a, ctx, reqID), View(b, ctx, reqID);
    forall t
      ensures t in va <==> t in vb
      ensures t in va ==> va[t] == vb[t]
    {
      ViewSees(a, ctx, reqID, t);
      ViewSees(b, ctx, reqID, t);
      assert Recall(a, ctx.now, reqID, t) == Recall(b, ctx.now, reqID, t);
    }
  }

  /** The store after a lookup: a found entry is written back with a full idle lifetime. */
  function RenewedOne(items: Store, ctx: Context, reqID: Bytes, token: Bytes): Store {
    if ctx.cancelled then items
    else
      match Seen(items, ctx.now, reqID, token)
      case Some(e) => items[Key(reqID, token) := Entry(e.value, ctx.now + TTL)]
      case None => items
  }

  /** The store after looking up these tokens, one after the other. */
  function Renewed(items: Store, ctx: Context, reqID: Bytes, tokens: seq<Bytes>): Store
    decreases |tokens|
  {
    if tokens == [] then items else Renewed(RenewedOne(items, ctx, reqID, tokens[0]), ctx, reqID, tokens[1..])
  }

  lemma {:induction false} RenewedAppend(items: Store, ctx: Context, reqID: Bytes, a: seq<Bytes>, b: seq<Bytes>)
    ensures Renewed(items, ctx, reqID, a + b) == Renewed(Renewed(items, ctx, reqID, a), ctx, reqID, b)
    decreases |a|
  {
    if a == [] {
      assert a + b == b;
    } else {
      assert (a + b)[0] == a[0] && (a + b)[1..] == a[1..] + b;
      RenewedAppend(RenewedOne(items, ctx, reqID, a[0]), ctx, reqID, a[1..], b);
    }
  }

  lemma RenewedSingle(items: Store, ctx: Context, reqID: Bytes, token: Bytes)
    ensures Renewed(items, ctx, reqID, [token]) == RenewedOne(items, ctx, reqID, token)
  {
    assert [token][1..] == [];
  }

  class InMemoryVault {
    var items: Store

    constructor ()
      ensures items == map[]
    {
      items := map[];
    }

    method SaveMapping(ctx: Context, reqID: Bytes, token: Bytes, realValue: Bytes) returns (saved: bool)
      modifies this
      ensures saved == !ctx.cancelled
      ensures items == if saved then old(items)[Key(reqID, token) := Entry(realValue, ctx.now + TTL)] else old(items)
    {
      if ctx.cancelled {
        return false;
      }
      items := items[Key(reqID, token) := Entry(realValue, ctx.now + TTL)];
      return true;
    }

    /** Reading a mapping answers from the view and leaves every request's view as it was. */
    method GetMapping(ctx: Context, reqID: Bytes, token: Bytes) returns (answer: Answer)
      modifies this
      ensures answer.Cancelled? <==> ctx.cancelled
      ensures answer.Found? <==> token in View(old(items), ctx, reqID)
      ensures answer.Found? ==> answer.value == View(old(items), ctx, reqID)[token]
      ensures items == RenewedOne(old(items), ctx, reqID, token)
      ensures forall r :: View(items, ctx, r) == View(old(items), ctx, r)
    {
      ViewSees(items, ctx, reqID, token);
      if ctx.cancelled {
        return Cancelled;
      }
      var k := Key(reqID, token);
      if k !in items || !Live(items[k], ctx.now) {
        return NotFound;
      }
      var s := items[k].value;
      items := items[k := Entry(s, ctx.now + TTL)];
      forall r
        ensures View(items, ctx, r) == View(old(items), ctx, r)
      {
        SameView(items, old(items), ctx, r);
      }
      return Found(s);
    }
  }
}
