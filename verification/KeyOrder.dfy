/** The order in which an object's members are walked and printed: ascending by key. */
module KeyOrder {
  import opened ByteStrings

  /** Byte-wise string comparison. */
  predicate Below(a: Bytes, b: Bytes) {
    if b == [] then false
    else if a == [] then true
    else if a[0] != b[0] then a[0] < b[0]
    else Below(a[1..], b[1..])
  }

  /** The strings agree before byte n, where a has ended, or has the smaller byte. */
  ghost predicate SmallerAt(a: Bytes, b: Bytes, n: nat) {
    n <= |a| && n < |b| && a[..n] == b[..n] && (n == |a| || a[n] < b[n])
  }

  /** The order is decided by the first byte that differs, or else the shorter string comes first. */
  lemma {:induction false} BelowMeans(a: Bytes, b: Bytes)
    ensures Below(a, b) <==> exists n: nat :: SmallerAt(a, b, n)
  {
    forall n: nat | SmallerAt(a, b, n) && n > 0
      ensures a != [] && b != [] && a[0] == b[0]
    {
      assert a[..n][0] == a[0] && b[..n][0] == b[0];
    }
    if a == [] || b == [] || a[0] != b[0] {
      if Below(a, b) { assert SmallerAt(a, b, 0); }
    } else {
      BelowMeans(a[1..], b[1..]);
      if Below(a, b) {
        var n: nat :| SmallerAt(a[1..], b[1..], n);
        SmallerTail(a, b, n);
      }
      if n: nat :| SmallerAt(a, b, n) {
        SmallerTail(a, b, n - 1);
      }
    }
  }

  lemma SmallerTail(a: Bytes, b: Bytes, n: nat)
    requires a != [] && b != [] && a[0] == b[0]
    ensures SmallerAt(a, b, n + 1) <==> SmallerAt(a[1..], b[1..], n)
  {
    if n + 1 <= |a| && n + 1 < |b| {
      assert a[..n + 1] == [a[0]] + a[1..][..n] && b[..n + 1] == [b[0]] + b[1..][..n];
      if a[..n + 1] == b[..n + 1] {
        assert a[1..][..n] == a[..n + 1][1..] && b[1..][..n] == b[..n + 1][1..];
      }
    }
  }

  ghost predicate Ascending(ks: seq<Bytes>) {
    forall i, j {:trigger Below(ks[i], ks[j])} | 0 <= i < j < |ks| :: Below(ks[i], ks[j])
  }

  lemma {:induction false} BelowTotal(a: Bytes, b: Bytes)
    ensures a == b || Below(a, b) || Below(b, a)
    ensures !(Below(a, b) && Below(b, a)) && !Below(a, a)
  {
    if a != [] && b != [] && a[0] == b[0] {
      BelowTotal(a[1..], b[1..]);
      assert a == [a[0]] + a[1..] && b == [b[0]] + b[1..];
    }
    if a == [] {
    } else {
      BelowTotal(a[1..], a[1..]);
    }
  }

  lemma {:induction false} BelowTransitive(a: Bytes, b: Bytes, c: Bytes)
    requires Below(a, b) && Below(b, c)
    ensures Below(a, c)
  {
    if a != [] && a[0] == b[0] == c[0] {
      BelowTransitive(a[1..], b[1..], c[1..]);
    }
  }

  function InsertKey(k: Bytes, ks: seq<Bytes>): seq<Bytes> {
    if ks == [] || !Below(ks[0], k) then [k] + ks else [ks[0]] + InsertKey(k, ks[1..])
  }

  function SortKeys(ks: seq<Bytes>): seq<Bytes> {
    if ks == [] then [] else InsertKey(ks[0], SortKeys(ks[1..]))
  }

  lemma {:induction false} InsertKeySorts(k: Bytes, ks: seq<Bytes>)
    requires Ascending(ks) && k !in ks
    ensures Ascending(InsertKey(k, ks))
    ensures forall x :: x in InsertKey(k, ks) <==> x == k || x in ks
  {
    if ks == [] {
    } else {
      BelowTotal(k, ks[0]);
      if Below(ks[0], k) {
        var t := ks[1..];
        assert forall x :: x in ks <==> x == ks[0] || x in t;
        InsertKeySorts(k, t);
        var u := InsertKey(k, t);
        forall j | 0 <= j < |u|
          ensures Below(ks[0], u[j])
        {
          assert u[j] in u;
        }
        assert forall j | 0 <= j < |u| :: ([ks[0]] + u)[j + 1] == u[j];
      } else {
        forall j | 0 <= j < |ks|
          ensures Below(k, ks[j])
        {
          if j > 0 { BelowTransitive(k, ks[0], ks[j]); }
        }
      }
    }
  }

  ghost predicate Distinct(ks: seq<Bytes>) {
    forall i, j | 0 <= i < j < |ks| :: ks[i] != ks[j]
  }

  lemma {:induction false} SortKeysSorts(ks: seq<Bytes>)
    requires Distinct(ks)
    ensures Ascending(SortKeys(ks))
    ensures forall x :: x in SortKeys(ks) <==> x in ks
  {
    if ks == [] {
    } else {
      SortKeysSorts(ks[1..]);
      assert ks[0] !in ks[1..];
      InsertKeySorts(ks[0], SortKeys(ks[1..]));
      assert forall x :: x in ks <==> x == ks[0] || x in ks[1..];
    }
  }

  /** There is one ascending list of a set of keys. */
  lemma {:induction false} AscendingUnique(a: seq<Bytes>, b: seq<Bytes>)
    requires Ascending(a) && Ascending(b)
    requires forall x :: x in a <==> x in b
    ensures a == b
  {
    assert a != [] ==> a[0] in a;
    assert b != [] ==> b[0] in b;
    if a != [] && b != [] {
      BelowTotal(a[0], b[0]);
      assert forall x | x in a :: x == a[0] || x in a[1..];
      assert forall x | x in b :: x == b[0] || x in b[1..];
      assert a[0] == b[0];
      forall x
        ensures x in a[1..] <==> x in b[1..]
      {
        BelowTotal(a[0], a[0]);
        assert x in a[1..] ==> x in a && x != a[0];
        assert x in b[1..] ==> x in b && x != b[0];
      }
      AscendingUnique(a[1..], b[1..]);
      assert a == [a[0]] + a[1..] && b == [b[0]] + b[1..];
    }
  }

  /** Some listing of a finite set. */
  ghost function Listing(ks: set<Bytes>): (r: seq<Bytes>)
    ensures Distinct(r) && forall x :: x in r <==> x in ks
  {
    if ks == {} then [] else var k :| k in ks; [k] + Listing(ks - {k})
  }

  /** The keys of an object in ascending order. */
  ghost function Sorted(ks: set<Bytes>): (r: seq<Bytes>)
    ensures Ascending(r) && forall x :: x in r <==> x in ks
  {
    SortKeysSorts(Listing(ks));
    assert Ascends(SortKeys(Listing(ks)), ks);
    var r :| Ascends(r, ks);
    r
  }

  /** The list holds exactly these keys, in ascending order. */
  ghost predicate Ascends(r: seq<Bytes>, ks: set<Bytes>) {
    Ascending(r) && forall x :: x in r <==> x in ks
  }

  /** Whatever order the runtime lists the keys in, sorting them gives the same list. */
  method CollectKeys(ks: set<Bytes>) returns (r: seq<Bytes>)
    ensures r == Sorted(ks)
  {
    var left := ks;
    r := [];
    while left != {}
      invariant left <= ks && Distinct(r)
      invariant forall x :: x in r <==> x in ks && x !in left
      decreases left
    {
      var k :| k in left;
      r := r + [k];
      left := left - {k};
    }
    SortKeysSorts(r);
    r := SortKeys(r);
    AscendingUnique(r, Sorted(ks));
  }

  lemma AscendingDistinct(ks: seq<Bytes>)
    requires Ascending(ks)
    ensures Distinct(ks)
  {
    forall i, j | 0 <= i < j < |ks|
      ensures ks[i] != ks[j]
    {
      BelowTotal(ks[i], ks[i]);
      assert Below(ks[i], ks[j]);
    }
  }
}
