/**
 Object keys are printed unmasked, so a token in a key is replaced on the way back. Such a
 key never returns: a decoded tree can equal the original only if no key holds a known token.
 */
module DirtyKeys {
  import opened ByteStrings
  import opened Rewriting
  import opened Sessions
  import opened Masking
  import opened KeyOrder
  import opened JsonTree
  import opened JsonRestore
  import opened JsonMask
  import opened RoundTrip

  lemma DropsTwice(a: Bytes, b: Bytes, c: Bytes)
    requires Drops(a, b) && Drops(b, c)
    ensures Drops(a, c)
  {
    var i :| DropsAt(a, b, i);
    var j :| DropsAt(b, c, j);
    var n := if i < j then i else j;
    assert a[..n] == a[..i][..n] == b[..n] == b[..j][..n] == c[..n];
    if j < i { assert a[j] == a[..i][j] == b[..i][j]; } else if i < j { assert c[i] == c[..j][i] == b[..j][i]; }
    assert DropsAt(a, c, n);
  }

  lemma NeverDropsToItself(a: Bytes)
    ensures !Drops(a, a)
  {
  }

  /** What replaces a key that holds a known token. */
  lemma DirtyKeyChanges(m: Substitution, k: Bytes)
    requires Blunt(m) && !NoHit(m, k)
    ensures Drops(k, Rewrite(m, k))
  {
    assert k + [] == k;
    DirtyGap(m, k, []);
  }

  /** The keys of the set that drop to k. */
  ghost function Above(ks: set<Bytes>, k: Bytes): set<Bytes> { set x | x in ks && Drops(x, k) }

  /** Every key of the set is what some key of the set is rewritten to. */
  ghost predicate AllReached(m: Substitution, ks: set<Bytes>) {
    forall k {:trigger Reached(m, ks, k)} | k in ks :: Reached(m, ks, k)
  }

  ghost predicate Reached(m: Substitution, ks: set<Bytes>, k: Bytes) {
    exists j :: j in ks && Rewrite(m, j) == k
  }

  lemma AboveShrinks(ks: set<Bytes>, j: Bytes, k: Bytes)
    requires j in ks && Drops(j, k)
    ensures Above(ks, j) < Above(ks, k)
  {
    forall x | x in Above(ks, j)
      ensures x in Above(ks, k)
    {
      DropsTwice(x, j, k);
    }
    NeverDropsToItself(j);
    assert j in Above(ks, k) && j !in Above(ks, j);
  }

  /** A dirty key that is reached is reached from another dirty key. */
  lemma ReachedFromDirty(m: Substitution, k: Bytes, j: Bytes)
    requires Blunt(m) && !NoHit(m, k) && Rewrite(m, j) == k
    ensures !NoHit(m, j) && Drops(j, k)
  {
    if NoHit(m, j) { RewriteNoHit(m, j); }
    DirtyKeyChanges(m, j);
  }

  /** So a dirty key would have ever more keys above it, in a finite set. */
  lemma {:induction false} NoDirtyKey(m: Substitution, ks: set<Bytes>, k: Bytes)
    requires Blunt(m) && AllReached(m, ks) && k in ks
    ensures NoHit(m, k)
    decreases Above(ks, k)
  {
    if !NoHit(m, k) {
      assert Reached(m, ks, k);
      var j :| j in ks && Rewrite(m, j) == k;
      ReachedFromDirty(m, k, j);
      AboveShrinks(ks, j, k);
      NoDirtyKey(m, ks, j);
    }
  }

  lemma SameKeysReached(m: Substitution, ks: seq<Bytes>, vs: seq<Json>, o: map<Bytes, Json>)
    requires |ks| == |vs| && ks == Sorted(o.Keys) && Zip(RewrittenKeys(m, ks), vs).Keys == o.Keys
    ensures AllReached(m, o.Keys)
  {
    ZipKeys(RewrittenKeys(m, ks), vs);
    forall k | k in o.Keys
      ensures Reached(m, o.Keys, k)
    {
      var i := KeyReached(m, ks, k);
    }
  }

  lemma KeyReached(m: Substitution, ks: seq<Bytes>, k: Bytes) returns (i: nat)
    requires k in RewrittenKeys(m, ks)
    ensures i < |ks| && ks[i] in ks && Rewrite(m, ks[i]) == k
  {
    var rs := RewrittenKeys(m, ks);
    i :| i < |rs| && rs[i] == k;
  }

  /** An object whose substituted members are those of o has no dirty key of its own. */
  lemma ObjectKeysClean(m: Substitution, o: map<Bytes, Json>, ws: seq<Json>)
    requires Blunt(m) && |ws| == |Sorted(o.Keys)|
    requires Substituted(m, Obj(Zip(Sorted(o.Keys), ws))) == Obj(o)
    ensures forall k | k in o :: NoHit(m, k)
  {
    var ks := Sorted(o.Keys);
    var z := Zip(ks, ws);
    ZipSorted(ks, ws);
    MembersUnder(z, ks, Obj(z));
    SameKeysReached(m, ks, SubstitutedList(m, Values(z, ks), Obj(z)), o);
    forall k | k in o
      ensures NoHit(m, k)
    {
      NoDirtyKey(m, o.Keys, k);
    }
  }

  /** If putting the values back gives the original tree, no key of it holds a known token. */
  lemma {:induction false} ReturnedKeysClean(m: Substitution, det: Detectors, v: Json, st: SessionState)
    requires Blunt(m) && Substituted(m, Walk(det, v, st).0) == v
    ensures KeysClean(m, v)
    decreases v, 2
  {
    match v
    case Arr(items) =>
      var secret := HidesNone(|items|);
      ArrayRestores(m, items, WalkList(det, secret, items, st, v).0);
      ListKeysClean(m, det, secret, items, st, v);
    case Obj(o) => ReturnedObjectClean(m, det, o, v, st);
    case _ =>
  }

  lemma {:induction false} ReturnedObjectClean(m: Substitution, det: Detectors, o: map<Bytes, Json>, v: Json,
                                               st: SessionState)
    requires v == Obj(o) && Blunt(m) && Substituted(m, Walk(det, v, st).0) == v
    ensures KeysClean(m, v)
    decreases v, 1
  {
    var ks := Sorted(o.Keys);
    WalkOfObject(m, det, o, st);
    var vs := Values(o, ks);
    var ws := WalkList(det, Hides(det, ks), vs, st, v).0;
    ObjectKeysClean(m, o, ws);
    ObjectRestores(m, o, ws);
    ListKeysClean(m, det, Hides(det, ks), vs, st, v);
    forall k | k in o
      ensures KeysClean(m, o[k])
    {
      var i :| 0 <= i < |ks| && ks[i] == k;
      assert vs[i] == o[k];
    }
  }

  lemma {:induction false} ListKeysClean(m: Substitution, det: Detectors, secret: seq<bool>, vs: seq<Json>,
                                         st: SessionState, parent: Json)
    requires Blunt(m) && |secret| == |vs| && Under(vs, parent)
    requires AllRestored(m, WalkList(det, secret, vs, st, parent).0, vs)
    ensures forall i | 0 <= i < |vs| :: KeysClean(m, vs[i])
    decreases parent, 0, |vs|
  {
    if vs == [] {
    } else {
      var (x, st1) := WalkChild(det, secret[0], vs[0], st);
      var xs := WalkList(det, secret[1..], vs[1..], st1, parent).0;
      AllRestoredStep(m, x, xs, vs);
      ListKeysClean(m, det, secret[1..], vs[1..], st1, parent);
      if !MaskedWhole(secret[0], vs[0]) { ReturnedKeysClean(m, det, vs[0], st); }
      forall i | 0 <= i < |vs|
        ensures KeysClean(m, vs[i])
      {
        if i > 0 { assert vs[i] == vs[1..][i - 1]; }
      }
    }
  }
}
