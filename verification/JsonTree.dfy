/** JSON documents as decoded trees, how their members are ordered, and how they are printed. */
module JsonTree {
  import opened ByteStrings
  import opened Rewriting
  import opened JsonString
  import opened KeyOrder

  datatype Json =
    | Null
    | Bool(b: bool)
    | Num(literal: Bytes)
    | Str(s: Bytes)
    | Arr(items: seq<Json>)
    | Obj(members: map<Bytes, Json>)

  // ---------------------------------------------------------------- members

  /** The values of some members, in the order of the keys. */
  function Values(m: map<Bytes, Json>, ks: seq<Bytes>): seq<Json>
    requires forall k | k in ks :: k in m
  {
    seq(|ks|, i requires 0 <= i < |ks| => m[ks[i]])
  }

  /** The object a decoder builds from members in order: of two with one key, the later one wins. */
  function Zip(ks: seq<Bytes>, vs: seq<Json>): map<Bytes, Json>
    requires |ks| == |vs|
  {
    if ks == [] then map[] else map[ks[0] := vs[0]] + Zip(ks[1..], vs[1..])
  }

  lemma {:induction false} ZipKeys(ks: seq<Bytes>, vs: seq<Json>)
    requires |ks| == |vs|
    ensures forall k :: k in Zip(ks, vs) <==> k in ks
  {
    if ks == [] {
    } else {
      ZipKeys(ks[1..], vs[1..]);
      assert forall k :: k in ks <==> k == ks[0] || k in ks[1..];
    }
  }

  lemma {:induction false} ZipValues(ks: seq<Bytes>, vs: seq<Json>)
    requires |ks| == |vs| && Distinct(ks)
    ensures (forall k :: k in Zip(ks, vs) <==> k in ks) && Values(Zip(ks, vs), ks) == vs
  {
    ZipKeys(ks, vs);
    if ks == [] {
    } else {
      var t, u := ks[1..], vs[1..];
      ZipValues(t, u);
      assert ks[0] !in t;
      var z, zt := Zip(ks, vs), Zip(t, u);
      forall i | 0 <= i < |ks|
        ensures z[ks[i]] == vs[i]
      {
        if i > 0 {
          assert t[i - 1] == ks[i] && ks[i] in zt;
          assert Values(zt, t)[i - 1] == u[i - 1];
        }
      }
    }
  }

  lemma {:induction false} ZipOfValues(m: map<Bytes, Json>, ks: seq<Bytes>)
    requires forall k | k in ks :: k in m
    ensures forall k | k in ks :: k in Zip(ks, Values(m, ks)) && Zip(ks, Values(m, ks))[k] == m[k]
  {
    ZipKeys(ks, Values(m, ks));
    if ks == [] {
    } else {
      ZipOfValues(m, ks[1..]);
      assert Values(m, ks)[1..] == Values(m, ks[1..]);
      ZipKeys(ks[1..], Values(m, ks[1..]));
      assert forall k | k in ks :: k == ks[0] || k in ks[1..];
    }
  }

  /** An object is rebuilt from its own members. */
  lemma ZipWhole(m: map<Bytes, Json>)
    ensures Zip(Sorted(m.Keys), Values(m, Sorted(m.Keys))) == m
  {
    var ks := Sorted(m.Keys);
    ZipKeys(ks, Values(m, ks));
    ZipOfValues(m, ks);
  }

  lemma ZipSorted(ks: seq<Bytes>, vs: seq<Json>)
    requires |ks| == |vs| && Ascending(ks)
    ensures Sorted(Zip(ks, vs).Keys) == ks && Values(Zip(ks, vs), ks) == vs
  {
    AscendingDistinct(ks);
    ZipValues(ks, vs);
    AscendingUnique(Sorted(Zip(ks, vs).Keys), ks);
  }

  lemma ZipAt(ks: seq<Bytes>, vs: seq<Json>, i: int)
    requires |ks| == |vs| && Ascending(ks) && 0 <= i < |ks|
    ensures ks[i] in Zip(ks, vs) && Zip(ks, vs)[ks[i]] == vs[i]
  {
    AscendingDistinct(ks);
    ZipValues(ks, vs);
    assert Values(Zip(ks, vs), ks)[i] == vs[i];
  }

  // ---------------------------------------------------------------- printing

  const NULL: Bytes := [0x6E, 0x75, 0x6C, 0x6C]
  const TRUE: Bytes := [0x74, 0x72, 0x75, 0x65]
  const FALSE: Bytes := [0x66, 0x61, 0x6C, 0x73, 0x65]

  /** The inside of a string literal, as printed or as restored after printing. */
  ghost function Inside(sub: Option<Substitution>, s: Bytes): Bytes {
    match sub
    case None => Escape(false, s)
    case Some(f) => Rewrite(f, Escape(false, s))
  }

  ghost function Literal(sub: Option<Substitution>, s: Bytes): Bytes {
    [QUOTE] + Inside(sub, s) + [QUOTE]
  }

  ghost function Labels(sub: Option<Substitution>, ks: seq<Bytes>): seq<Bytes> {
    seq(|ks|, i requires 0 <= i < |ks| => Literal(sub, ks[i]) + [COLON])
  }

  function NoLabels(n: nat): seq<Bytes> { seq(n, i => []) }

  /** The values are parts of the parent, which is what recursion over a tree descends by. */
  ghost predicate Under(vs: seq<Json>, parent: Json) {
    forall i | 0 <= i < |vs| :: vs[i] < parent
  }

  lemma MembersUnder(m: map<Bytes, Json>, ks: seq<Bytes>, parent: Json)
    requires parent == Obj(m) && forall k | k in ks :: k in m
    ensures Under(Values(m, ks), parent)
  {
    var vs := Values(m, ks);
    forall i | 0 <= i < |vs|
      ensures vs[i] < parent
    {
      assert ks[i] in m && vs[i] == m[ks[i]];
    }
  }

  /** A printed document; with a substitution, the same document after tokens are restored. */
  ghost function Render(sub: Option<Substitution>, v: Json): Bytes
    decreases v, 1
  {
    match v
    case Null => NULL
    case Bool(b) => if b then TRUE else FALSE
    case Num(l) => l
    case Str(s) => Literal(sub, s)
    case Arr(items) => [OPEN] + RenderList(sub, NoLabels(|items|), items, v) + [CLOSE]
    case Obj(m) =>
      var ks := Sorted(m.Keys);
      MembersUnder(m, ks, v);
      [OPEN_BRACE] + RenderList(sub, Labels(sub, ks), Values(m, ks), v) + [CLOSE_BRACE]
  }

  /** Children of one parent, each behind its label, with commas between them. */
  ghost function RenderList(sub: Option<Substitution>, labels: seq<Bytes>, vs: seq<Json>, parent: Json): Bytes
    requires |labels| == |vs| && Under(vs, parent)
    decreases parent, 0, |vs|
  {
    if vs == [] then []
    else
      var head := labels[0] + Render(sub, vs[0]);
      if |vs| == 1 then head else head + [COMMA] + RenderList(sub, labels[1..], vs[1..], parent)
  }

  /** What encoding/json prints for the tree, with HTML escaping off. */
  ghost function Print(v: Json): Bytes { Render(None, v) }
}
