/**
 Masking a JSON document: the walk that rewrites the string leaves of a decoded tree while
 one session, shared by the whole tree, hands out the tokens.
 */
module JsonMask {
  import opened ByteStrings
  import opened Spans
  import opened Sessions
  import opened Masking
  import opened KeyOrder
  import opened JsonTree

  // ---------------------------------------------------------------- the walk

  /** A non-empty string under a credential key is masked whole. */
  predicate MaskedWhole(secret: bool, v: Json) { secret && v.Str? && v.s != [] }

  function Hides(det: Detectors, ks: seq<Bytes>): seq<bool> {
    seq(|ks|, i requires 0 <= i < |ks| => det.secretKey(ks[i]))
  }

  function HidesNone(n: nat): seq<bool> { seq(n, i => false) }

  ghost function Walk(det: Detectors, v: Json, st: SessionState): (Json, SessionState)
    decreases v, 1
  {
    match v
    case Str(s) => var (p, st1) := MarkText(det, s, st); (Str(MaskedText(p)), st1)
    case Arr(items) => var (vs, st1) := WalkList(det, HidesNone(|items|), items, st, v); (Arr(vs), st1)
    case Obj(o) =>
      var ks := Sorted(o.Keys);
      MembersUnder(o, ks, v);
      var (vs, st1) := WalkList(det, Hides(det, ks), Values(o, ks), st, v);
      (Obj(Zip(ks, vs)), st1)
    case _ => (v, st)
  }

  ghost function WalkChild(det: Detectors, secret: bool, v: Json, st: SessionState): (Json, SessionState)
    decreases v, 2
  {
    if MaskedWhole(secret, v) then
      var (st1, t) := Allot(st, PASSWORD, v.s); (Str(t), st1)
    else Walk(det, v, st)
  }

  ghost function WalkList(det: Detectors, secret: seq<bool>, vs: seq<Json>, st: SessionState, parent: Json)
    : (r: (seq<Json>, SessionState))
    requires |secret| == |vs| && Under(vs, parent)
    ensures |r.0| == |vs|
    decreases parent, 0, |vs|
  {
    if vs == [] then ([], st)
    else
      var (x, st1) := WalkChild(det, secret[0], vs[0], st);
      var (xs, st2) := WalkList(det, secret[1..], vs[1..], st1, parent);
      ([x] + xs, st2)
  }

  /** The walk over the children from the i-th on. */
  ghost function WalkFrom(det: Detectors, secret: seq<bool>, vs: seq<Json>, i: nat, st: SessionState, parent: Json)
    : (seq<Json>, SessionState)
    requires |secret| == |vs| && Under(vs, parent) && i <= |vs|
  {
    WalkList(det, secret[i..], vs[i..], st, parent)
  }

  lemma WalkFromEnds(det: Detectors, secret: seq<bool>, vs: seq<Json>, st: SessionState, parent: Json)
    requires |secret| == |vs| && Under(vs, parent)
    ensures WalkFrom(det, secret, vs, |vs|, st, parent) == ([], st)
    ensures WalkFrom(det, secret, vs, 0, st, parent) == WalkList(det, secret, vs, st, parent)
  {
    assert secret[0..] == secret && vs[0..] == vs;
  }

  /** What is walked so far and what the walk will still yield make up the whole result. */
  ghost predicate OnTrack(done: seq<Json>, rest: (seq<Json>, SessionState), whole: (seq<Json>, SessionState)) {
    done + rest.0 == whole.0 && rest.1 == whole.1
  }

  lemma Landed(done: seq<Json>, st: SessionState, whole: (seq<Json>, SessionState))
    requires OnTrack(done, ([], st), whole)
    ensures whole == (done, st)
  {
    assert done + [] == done;
  }

  /** Rewrites the tree; maps are visited in key order, whatever order the runtime lists them in. */
  method WalkJson(det: Detectors, v: Json, sess: Session) returns (masked: Json)
    requires InRange(det)
    modifies sess
    ensures (masked, sess.State()) == Walk(det, v, old(sess.State()))
    decreases v, 2
  {
    match v {
      case Str(s) =>
        var text := AnonymizeText(det, s, sess);
        masked := Str(text);
      case Arr(items) =>
        var x := WalkItems(det, items, sess, v);
        masked := Arr(x);
      case Obj(o) =>
        var x := WalkMembers(det, o, sess, v);
        masked := Obj(x);
      case _ =>
        masked := v;
    }
  }

  method WalkItems(det: Detectors, items: seq<Json>, sess: Session, ghost parent: Json) returns (x: seq<Json>)
    requires InRange(det) && Under(items, parent)
    modifies sess
    ensures (x, sess.State()) == WalkList(det, HidesNone(|items|), items, old(sess.State()), parent)
    decreases parent, 0
  {
    ghost var secret := HidesNone(|items|);
    ghost var whole := WalkList(det, secret, items, sess.State(), parent);
    WalkFromEnds(det, secret, items, sess.State(), parent);
    x := items;
    for i := 0 to |items|
      invariant |x| == |items| && x[i..] == items[i..]
      invariant OnTrack(x[..i], WalkFrom(det, secret, items, i, sess.State(), parent), whole)
    {
      Forward(det, secret, items, i, sess.State(), parent, x[..i], whole);
      assert x[i] == x[i..][0] == items[i];
      var c := WalkJson(det, x[i], sess);
      assert x[i := c][..i + 1] == x[..i] + [c];
      x := x[i := c];
    }
    WalkFromEnds(det, secret, items, sess.State(), parent);
    assert x[..|items|] == x && x + [] == x;
    Landed(x, sess.State(), whole);
  }

  method WalkMembers(det: Detectors, o: map<Bytes, Json>, sess: Session, ghost parent: Json)
    returns (x: map<Bytes, Json>)
    requires InRange(det) && parent == Obj(o)
    modifies sess
    ensures (Obj(x), sess.State()) == Walk(det, parent, old(sess.State()))
    decreases parent, 1
  {
    var keys := CollectKeys(o.Keys);
    MembersUnder(o, keys, parent);
    AscendingDistinct(keys);
    ghost var done;
    x, done := WalkKeys(det, o, keys, sess, parent);
    RebuiltMembers(o, x, keys, done);
  }

  /** The walk takes one more child and stays on track. */
  lemma Forward(det: Detectors, secret: seq<bool>, vs: seq<Json>, i: nat, st: SessionState, parent: Json,
                done: seq<Json>, whole: (seq<Json>, SessionState))
    requires |secret| == |vs| && Under(vs, parent) && i < |vs|
    requires OnTrack(done, WalkFrom(det, secret, vs, i, st, parent), whole)
    ensures var (x, st1) := WalkChild(det, secret[i], vs[i], st);
            OnTrack(done + [x], WalkFrom(det, secret, vs, i + 1, st1, parent), whole)
  {
    assert secret[i..][1..] == secret[i + 1..] && vs[i..][1..] == vs[i + 1..];
    var (x, st1) := WalkChild(det, secret[i], vs[i], st);
    var (xs, st2) := WalkFrom(det, secret, vs, i + 1, st1, parent);
    assert WalkFrom(det, secret, vs, i, st, parent) == ([x] + xs, st2);
    Associate(done, [x], xs);
  }

  /** In x the values of the first i keys have been replaced, and no other. */
  ghost predicate Replaced(o: map<Bytes, Json>, x: map<Bytes, Json>, keys: seq<Bytes>, done: seq<Json>, i: nat) {
    && x.Keys == o.Keys && |done| == i <= |keys| && (forall k | k in keys :: k in o)
    && (forall j | 0 <= j < i :: x[keys[j]] == done[j])
    && forall j | i <= j < |keys| :: x[keys[j]] == o[keys[j]]
  }

  lemma ReplacedStep(o: map<Bytes, Json>, x: map<Bytes, Json>, keys: seq<Bytes>, done: seq<Json>, i: nat, c: Json)
    requires Replaced(o, x, keys, done, i) && i < |keys| && Distinct(keys)
    ensures Replaced(o, x[keys[i] := c], keys, done + [c], i + 1)
  {
  }

  /** Replaces the values of a map in place, key by key. */
  method WalkKeys(det: Detectors, o: map<Bytes, Json>, keys: seq<Bytes>, sess: Session, ghost parent: Json)
    returns (x: map<Bytes, Json>, ghost done: seq<Json>)
    requires InRange(det) && Distinct(keys) && (forall k | k in keys :: k in o) && Under(Values(o, keys), parent)
    modifies sess
    ensures Replaced(o, x, keys, done, |keys|)
    ensures (done, sess.State()) == WalkList(det, Hides(det, keys), Values(o, keys), old(sess.State()), parent)
    decreases parent, 0
  {
    ghost var secret, vs := Hides(det, keys), Values(o, keys);
    ghost var whole := WalkList(det, secret, vs, sess.State(), parent);
    WalkFromEnds(det, secret, vs, sess.State(), parent);
    done := [];
    x := o;
    for i := 0 to |keys|
      invariant Replaced(o, x, keys, done, i)
      invariant OnTrack(done, WalkFrom(det, secret, vs, i, sess.State(), parent), whole)
    {
      var k := keys[i];
      Forward(det, secret, vs, i, sess.State(), parent, done, whole);
      assert vs[i] < parent && x[k] == vs[i];
      var c := WalkValue(det, det.secretKey(k), x[k], sess);
      ReplacedStep(o, x, keys, done, i, c);
      x := x[k := c];
      done := done + [c];
    }
    WalkFromEnds(det, secret, vs, sess.State(), parent);
    Landed(done, sess.State(), whole);
  }

  /** The loop body over an object's members: the value under one key. */
  method WalkValue(det: Detectors, secret: bool, c: Json, sess: Session) returns (masked: Json)
    requires InRange(det)
    modifies sess
    ensures (masked, sess.State()) == WalkChild(det, secret, c, old(sess.State()))
    decreases c, 3
  {
    if c.Str? && secret && c.s != [] {
      var t := sess.TokenFor(PASSWORD, c.s);
      return Str(t);
    }
    masked := WalkJson(det, c, sess);
  }

  lemma RebuiltMembers(o: map<Bytes, Json>, x: map<Bytes, Json>, ks: seq<Bytes>, vs: seq<Json>)
    requires ks == Sorted(o.Keys) && |vs| == |ks| && x.Keys == o.Keys
    requires forall j | 0 <= j < |ks| :: x[ks[j]] == vs[j]
    ensures x == Zip(ks, vs)
  {
    assert Values(x, ks) == vs;
    ZipWhole(x);
  }
}
