/**
 The two ends of the proxy: masking an outbound document and filing its mapping in the
 vault, and restoring the response from it.
 */
module Proxy {
  import opened ByteStrings
  import opened Sessions
  import opened Masking
  import opened JsonTree
  import opened JsonRestore
  import opened JsonMask
  import opened LongReads
  import opened LongStreams
  import opened EndToEnd
  import opened Pacing
  import D = Demask
  import V = Vault
  import R = VaultRuns

  method AnonymizeJson(det: Detectors, v: Json) returns (masked: Json, sess: Session)
    requires InRange(det)
    ensures (masked, sess.State()) == MaskDocument(det, v)
    ensures fresh(sess)
  {
    sess := new Session();
    match v {
      case Num(_) | Bool(_) | Null =>
        masked := v;
      case _ =>
        masked := WalkJson(det, v, sess);
    }
  }

  /** A document is walked, anything else is masked as one text. */
  method Anonymize(det: Detectors, b: Body) returns (masked: Body, sess: Session)
    requires InRange(det)
    ensures (masked, sess.State()) == MaskBody(det, b)
    ensures fresh(sess)
  {
    match b {
      case Document(v) =>
        var tree;
        tree, sess := AnonymizeJson(det, v);
        masked := Document(tree);
      case Opaque(text) =>
        sess := new Session();
        var out := AnonymizeText(det, text, sess);
        masked := Opaque(out);
    }
  }

  /** The store after: these pairs are filed under the request's keys, and no other key is touched. */
  ghost predicate SavedPairs(before: V.Store, after: V.Store, reqID: Bytes, m: map<Bytes, Bytes>, until: int) {
    SavedBut({}, before, after, reqID, m, until)
  }

  ghost predicate SavedBut(left: set<Bytes>, before: V.Store, after: V.Store, reqID: Bytes, m: map<Bytes, Bytes>,
                           until: int) {
    && (forall t | t in m && t !in left :: V.Key(reqID, t) in after && after[V.Key(reqID, t)] == V.Entry(m[t], until))
    && forall k | (forall t | t in m :: k != V.Key(reqID, t)) ::
         (k in after <==> k in before) && (k in after ==> after[k] == before[k])
  }

  /** Files a mapping, in whatever order the runtime lists it; under a cancelled context nothing is filed. */
  method SaveAll(ctx: V.Context, vault: V.InMemoryVault, reqID: Bytes, mapping: map<Bytes, Bytes>)
    modifies vault
    ensures ctx.cancelled ==> vault.items == old(vault.items)
    ensures !ctx.cancelled ==> SavedPairs(old(vault.items), vault.items, reqID, mapping, ctx.now + V.TTL)
  {
    var left := mapping.Keys;
    while left != {}
      invariant left <= mapping.Keys
      invariant ctx.cancelled ==> vault.items == old(vault.items)
      invariant !ctx.cancelled ==>
                  SavedBut(left, old(vault.items), vault.items, reqID, mapping, ctx.now + V.TTL)
      decreases left
    {
      var token :| token in left;
      forall t | t in mapping
        ensures V.Key(reqID, t) == V.Key(reqID, token) ==> t == token
      {
        R.SameIdKeys(reqID, t, token);
      }
      var _ := vault.SaveMapping(ctx, reqID, token, mapping[token]);
      left := left - {token};
    }
  }

  lemma SavedHolds(before: V.Store, after: V.Store, reqID: Bytes, m: map<Bytes, Bytes>, until: int)
    requires SavedPairs(before, after, reqID, m, until) && HoldsOnly(before, reqID, map[])
    ensures HoldsAll(after, reqID, m, until) && HoldsOnly(after, reqID, m)
  {
    forall k | k in after && V.InScope(reqID, k)
      ensures k[|reqID| + 1..] in m
    {
      V.ScopeIsKey(reqID, k);
    }
  }

  lemma SavedApart(before: V.Store, after: V.Store, reqID: Bytes, m: map<Bytes, Bytes>, until: int, id: Bytes,
                   now: int, t: Bytes)
    requires SavedPairs(before, after, reqID, m, until) && R.Apart(id, reqID)
    ensures V.Seen(after, now, id, t) == V.Seen(before, now, id, t)
  {
    forall s | s in m
      ensures V.Key(id, t) != V.Key(reqID, s)
    {
      R.ApartKeys(id, reqID, t, s);
    }
  }

  /**
   Masks the body and files its mapping. For a request id that is new to the vault, the
   vault then holds exactly that mapping for it, for one idle lifetime, and every request
   whose id is apart sees what it saw before.
   */
  method MaskRequest(det: Detectors, b: Body, ctx: V.Context, vault: V.InMemoryVault, reqID: Bytes)
    returns (masked: Body, mapping: map<Bytes, Bytes>)
    requires InRange(det)
    modifies vault
    ensures masked == MaskBody(det, b).0 && mapping == MappingOf(det, b)
    ensures BodyMasked(det, mapping, b, masked)
    ensures !ctx.cancelled && HoldsOnly(old(vault.items), reqID, map[]) ==>
              HoldsAll(vault.items, reqID, mapping, ctx.now + V.TTL) && HoldsOnly(vault.items, reqID, mapping)
    ensures forall id, now, t | R.Apart(id, reqID) ::
              V.Seen(vault.items, now, id, t) == V.Seen(old(vault.items), now, id, t)
  {
    var sess;
    masked, sess := Anonymize(det, b);
    BodyMasks(det, b);
    mapping := sess.mapping;
    SaveAll(ctx, vault, reqID, mapping);
    if !ctx.cancelled {
      if HoldsOnly(old(vault.items), reqID, map[]) {
        SavedHolds(old(vault.items), vault.items, reqID, mapping, ctx.now + V.TTL);
      }
      forall id, now, t | R.Apart(id, reqID)
        ensures V.Seen(vault.items, now, id, t) == V.Seen(old(vault.items), now, id, t)
      {
        SavedApart(old(vault.items), vault.items, reqID, mapping, ctx.now + V.TTL, id, now, t);
      }
    }
  }

  /** What is filed is the state a response streams from, and the request's view of the vault. */
  lemma FiledShows(items: V.Store, reqID: Bytes, m: map<Bytes, Bytes>, now: int)
    requires HoldsAll(items, reqID, m, now + V.TTL) && HoldsOnly(items, reqID, m)
    ensures JustFiled(R.World(now, items, map[]), reqID, m)
    ensures V.View(items, V.Context(now, false), reqID) == m
  {
    StaysServing(R.World(now, items, map[]), [], reqID, m);
  }

  /**
   A whole exchange with an upstream that echoes the masked body, answered in one go within
   the idle lifetime, with anything else happening on the vault meanwhile: the client gets
   back the body it sent.
   */
  method Exchange(det: Detectors, b: Body, vault: V.InMemoryVault, reqID: Bytes, now: int,
                  meanwhile: seq<R.Event>, echo: Bytes)
    returns (restored: Bytes)
    requires InRange(det) && Restorable(det, b) && echo == EchoOf(det, b)
    requires HoldsOnly(vault.items, reqID, map[])
    requires AllFit(meanwhile, reqID, MappingOf(det, b)) && R.Elapsed(meanwhile) <= V.TTL
    modifies vault
    ensures ComesBack(det, b, restored)
  {
    var masked, mapping := MaskRequest(det, b, V.Context(now, false), vault, reqID);
    var filed := R.World(now, vault.items, map[]);
    FiledShows(vault.items, reqID, mapping, now);
    StaysServing(filed, meanwhile, reqID, mapping);
    var later := R.Run(filed, meanwhile);
    vault.items := later.items;
    restored := D.OneShot(V.Context(later.now, false), vault, reqID, echo);
    BodyRoundTrip(det, b);
  }

  /**
   The answer as an event stream: once the mapping is filed, a new reader over the shared
   vault delivers the body to its client, over any length of time, if each known token comes
   by again within one idle lifetime.
   */
  method RestoreStream(det: Detectors, b: Body, vault: V.InMemoryVault, who: R.Thread, src: D.Upstream,
                       calls: seq<ReadCall>, moments: seq<Moment>, ghost filed: R.World)
    returns (data: Bytes, end: Option<D.Ending>)
    requires InRange(det) && Restorable(det, b) && D.Body(src.script) == EchoOf(det, b)
    requires JustFiled(filed, who.reqID, MappingOf(det, b)) && CallsFit(calls, who.reqID, MappingOf(det, b))
    requires var m := MappingOf(det, b); Paced(filed.now, m, VisitsOf(m, calls, src.script), SeenAt(m, filed.now))
    requires moments == Moments(filed, [], who, calls, D.NewReader(src.script))
    modifies src, vault
    ensures Delivers(det, b, calls, old(src.script), (data, end))
  {
    var reader := new D.DemaskReader(src, vault, who.reqID);
    PacedRoundTrip(det, b, filed, who, calls, src.script);
    data, end := Client(reader, calls, moments, filed, [], who);
  }
}
