/**
 Restoring a printed document commutes with decoding it: the client decodes the tree with
 the tokens of its strings replaced by the raw values.
 */
module JsonRestore {
  import opened ByteStrings
  import opened Utf8
  import opened Rewriting
  import opened JsonString
  import opened Streaming
  import opened KeyOrder
  import opened JsonTree
  import opened JsonSplice

  // ---------------------------------------------------------------- well-formed trees

  predicate IsNumberByte(b: Byte) {
    IsDigit(b) || b == MINUS || b == 0x2B || b == 0x2E || b == 0x65 || b == 0x45
  }

  predicate IsNumber(l: Bytes) {
    l != [] && (l[0] == MINUS || IsDigit(l[0])) && forall i | 0 <= i < |l| :: IsNumberByte(l[i])
  }

  /** Strings and keys are valid UTF-8 and numbers look like numbers, as in any decoded document. */
  ghost predicate WellFormed(v: Json)
    decreases v
  {
    match v
    case Num(l) => IsNumber(l)
    case Str(s) => Valid(s)
    case Arr(items) => forall i | 0 <= i < |items| :: WellFormed(items[i])
    case Obj(m) => forall k | k in m :: Valid(k) && WellFormed(m[k])
    case _ => true
  }

  ghost predicate AllWellFormed(vs: seq<Json>) {
    forall i | 0 <= i < |vs| :: WellFormed(vs[i])
  }

  // ---------------------------------------------------------------- restoring a printed document

  /** Restoring as a function of the text. */
  ghost function Restoring(sub: Substitution): Bytes -> Bytes {
    (s: Bytes) => Rewrite(sub, s)
  }

  /** In front of whatever follows, f turns a into b. */
  ghost predicate Becomes(f: Bytes -> Bytes, a: Bytes, b: Bytes) {
    forall rest :: f(a + rest) == b + f(rest)
  }

  lemma BecomesThen(f: Bytes -> Bytes, a1: Bytes, b1: Bytes, a2: Bytes, b2: Bytes)
    requires Becomes(f, a1, b1) && Becomes(f, a2, b2)
    ensures Becomes(f, a1 + a2, b1 + b2)
  {
    forall rest
      ensures f(a1 + a2 + rest) == b1 + b2 + f(rest)
    {
      assert a1 + a2 + rest == a1 + (a2 + rest);
      assert b1 + b2 + f(rest) == b1 + (b2 + f(rest));
    }
  }

  lemma PlainStays(sub: Substitution, a: Bytes)
    requires OPEN !in a
    ensures Becomes(Restoring(sub), a, a)
  {
    forall rest
      ensures Restoring(sub)(a + rest) == a + Restoring(sub)(rest)
    {
      RewritePlain(sub, a, rest);
    }
  }

  lemma QuotedBecomes(sub: Substitution, e: Bytes, rest: Bytes)
    ensures Rewrite(sub, e + [QUOTE] + rest) == Rewrite(sub, e) + [QUOTE] + Rewrite(sub, rest)
  {
    var tail := [QUOTE] + rest;
    assert e + [QUOTE] + rest == e + tail;
    RewriteSplit(sub, e, tail);
    RewritePlain(sub, [QUOTE], rest);
  }

  lemma ClosedBecomes(sub: Substitution, e: Bytes)
    ensures Becomes(Restoring(sub), e + [QUOTE], Rewrite(sub, e) + [QUOTE])
  {
    forall rest
      ensures Restoring(sub)(e + [QUOTE] + rest) == Rewrite(sub, e) + [QUOTE] + Restoring(sub)(rest)
    {
      QuotedBecomes(sub, e, rest);
    }
  }

  lemma LiteralBecomes(sub: Substitution, s: Bytes)
    ensures Becomes(Restoring(sub), Literal(None, s), Literal(Some(sub), s))
  {
    var a, b := Inside(None, s), Inside(Some(sub), s);
    ClosedBecomes(sub, a);
    PlainStays(sub, [QUOTE]);
    BecomesThen(Restoring(sub), [QUOTE], [QUOTE], a + [QUOTE], b + [QUOTE]);
    Associate([QUOTE], a, [QUOTE]);
    Associate([QUOTE], b, [QUOTE]);
  }

  lemma BracketPasses(sub: Substitution, a: Bytes)
    requires a != [] && !IsUpper(a[0])
    ensures Rewrite(sub, [OPEN] + a) == [OPEN] + Rewrite(sub, a)
  {
    var s := [OPEN] + a;
    NoTokenHere(s);
    RewriteKeeps(sub, s);
    assert s[1..] == a;
  }

  /** A structural bracket starts no token, because no JSON value starts with a capital letter. */
  lemma BracketStays(sub: Substitution, a: Bytes, b: Bytes)
    requires Becomes(Restoring(sub), a, b) && a != [] && !IsUpper(a[0])
    ensures Becomes(Restoring(sub), [OPEN] + a, [OPEN] + b)
  {
    var f := Restoring(sub);
    forall rest
      ensures f([OPEN] + a + rest) == [OPEN] + b + f(rest)
    {
      assert [OPEN] + a + rest == [OPEN] + (a + rest);
      assert [OPEN] + b + f(rest) == [OPEN] + (b + f(rest));
      BracketPasses(sub, a + rest);
    }
  }

  lemma BracketsStay(sub: Substitution, a: Bytes, b: Bytes)
    requires Becomes(Restoring(sub), a, b) && !IsUpper((a + [CLOSE])[0])
    ensures Becomes(Restoring(sub), [OPEN] + a + [CLOSE], [OPEN] + b + [CLOSE])
  {
    PlainStays(sub, [CLOSE]);
    BecomesThen(Restoring(sub), a, b, [CLOSE], [CLOSE]);
    BracketStays(sub, a + [CLOSE], b + [CLOSE]);
    Associate([OPEN], a, [CLOSE]);
    Associate([OPEN], b, [CLOSE]);
  }

  lemma NumberStays(sub: Substitution, l: Bytes)
    requires IsNumber(l)
    ensures Becomes(Restoring(sub), l, l)
  {
    PlainStays(sub, l);
  }

  lemma RenderStarts(sub: Option<Substitution>, v: Json)
    requires WellFormed(v)
    ensures Render(sub, v) != [] && !IsUpper(Render(sub, v)[0])
    ensures Render(sub, v)[0] != CLOSE && Render(sub, v)[0] != CLOSE_BRACE
  {
  }

  ghost predicate LabelsBecome(sub: Substitution, l0: seq<Bytes>, l1: seq<Bytes>) {
    |l0| == |l1| && forall i | 0 <= i < |l0| :: Becomes(Restoring(sub), l0[i], l1[i])
  }

  lemma LabelsRestored(sub: Substitution, ks: seq<Bytes>)
    ensures LabelsBecome(sub, Labels(None, ks), Labels(Some(sub), ks))
  {
    forall i | 0 <= i < |ks|
      ensures Becomes(Restoring(sub), Labels(None, ks)[i], Labels(Some(sub), ks)[i])
    {
      LiteralBecomes(sub, ks[i]);
      PlainStays(sub, [COLON]);
      BecomesThen(Restoring(sub), Literal(None, ks[i]), Literal(Some(sub), ks[i]), [COLON], [COLON]);
    }
  }

  lemma ObjectParts(m: map<Bytes, Json>, v: Json)
    requires v == Obj(m) && WellFormed(v)
    ensures var ks := Sorted(m.Keys); Under(Values(m, ks), v) && AllWellFormed(Values(m, ks))
    ensures forall i | 0 <= i < |Sorted(m.Keys)| :: Valid(Sorted(m.Keys)[i])
  {
    var ks := Sorted(m.Keys);
    MembersUnder(m, ks, v);
    forall i | 0 <= i < |ks|
      ensures Valid(ks[i]) && WellFormed(Values(m, ks)[i])
    {
      assert ks[i] in m;
    }
  }

  /** Restoring a printed document restores the inside of its strings and nothing else. */
  lemma {:induction false} DocumentBecomes(sub: Substitution, v: Json)
    requires WellFormed(v)
    ensures Becomes(Restoring(sub), Render(None, v), Render(Some(sub), v))
    decreases v, 2
  {
    match v
    case Null => PlainStays(sub, NULL);
    case Bool(b) => PlainStays(sub, if b then TRUE else FALSE);
    case Num(l) => NumberStays(sub, l);
    case Str(s) => LiteralBecomes(sub, s);
    case Arr(items) => ArrayBecomes(sub, items, v);
    case Obj(m) => ObjectBecomes(sub, m, v);
  }

  lemma ItemsStart(sub: Option<Substitution>, items: seq<Json>, v: Json)
    requires v == Arr(items) && WellFormed(v)
    ensures var a := RenderList(sub, NoLabels(|items|), items, v);
            !IsUpper((a + [CLOSE])[0]) && (a == [] <==> items == []) && (a != [] ==> a[0] != CLOSE)
  {
    if items != [] {
      RenderStarts(sub, items[0]);
      assert NoLabels(|items|)[0] + Render(sub, items[0]) == Render(sub, items[0]);
    }
  }

  lemma {:induction false} ArrayBecomes(sub: Substitution, items: seq<Json>, v: Json)
    requires v == Arr(items) && WellFormed(v)
    ensures Becomes(Restoring(sub), Render(None, v), Render(Some(sub), v))
    decreases v, 1
  {
    var ls := NoLabels(|items|);
    var a, b := RenderList(None, ls, items, v), RenderList(Some(sub), ls, items, v);
    PlainStays(sub, []);
    ListBecomes(sub, ls, ls, items, v);
    ItemsStart(None, items, v);
    BracketsStay(sub, a, b);
  }

  lemma {:induction false} ObjectBecomes(sub: Substitution, m: map<Bytes, Json>, v: Json)
    requires v == Obj(m) && WellFormed(v)
    ensures Becomes(Restoring(sub), Render(None, v), Render(Some(sub), v))
    decreases v, 1
  {
    var ks := Sorted(m.Keys);
    ObjectParts(m, v);
    var vs, l0, l1 := Values(m, ks), Labels(None, ks), Labels(Some(sub), ks);
    var a, b := RenderList(None, l0, vs, v), RenderList(Some(sub), l1, vs, v);
    LabelsRestored(sub, ks);
    ListBecomes(sub, l0, l1, vs, v);
    PlainStays(sub, [OPEN_BRACE]);
    PlainStays(sub, [CLOSE_BRACE]);
    BecomesThen(Restoring(sub), [OPEN_BRACE], [OPEN_BRACE], a, b);
    BecomesThen(Restoring(sub), [OPEN_BRACE] + a, [OPEN_BRACE] + b, [CLOSE_BRACE], [CLOSE_BRACE]);
  }

  lemma {:induction false} ListBecomes(sub: Substitution, l0: seq<Bytes>, l1: seq<Bytes>, vs: seq<Json>, parent: Json)
    requires |l0| == |vs| && LabelsBecome(sub, l0, l1) && Under(vs, parent) && AllWellFormed(vs)
    ensures Becomes(Restoring(sub), RenderList(None, l0, vs, parent), RenderList(Some(sub), l1, vs, parent))
    decreases parent, 0, |vs|
  {
    if vs == [] {
      PlainStays(sub, []);
    } else {
      var x, y := Render(None, vs[0]), Render(Some(sub), vs[0]);
      DocumentBecomes(sub, vs[0]);
      BecomesThen(Restoring(sub), l0[0], l1[0], x, y);
      if |vs| > 1 {
        var a := RenderList(None, l0[1..], vs[1..], parent);
        var b := RenderList(Some(sub), l1[1..], vs[1..], parent);
        ListBecomes(sub, l0[1..], l1[1..], vs[1..], parent);
        PlainStays(sub, [COMMA]);
        BecomesThen(Restoring(sub), l0[0] + x, l1[0] + y, [COMMA], [COMMA]);
        BecomesThen(Restoring(sub), l0[0] + x + [COMMA], l1[0] + y + [COMMA], a, b);
      }
    }
  }

  // ---------------------------------------------------------------- decoding

  function NumberRun(s: Bytes): (n: nat)
    ensures n <= |s|
  {
    if s == [] || !IsNumberByte(s[0]) then 0 else 1 + NumberRun(s[1..])
  }

  /** Reads one value off the front of a document without white space between tokens. */
  function ReadValue(s: Bytes): (r: Reading<Json>)
    ensures r.Read? ==> |r.rest| < |s|
    decreases |s|, 0
  {
    if s == [] then Failed
    else if s[0] == QUOTE then
      (match ReadString(s[1..]) case Failed => Failed case Read(t, rest) => Read(Str(t), rest))
    else if s[0] == OPEN then
      if |s| >= 2 && s[1] == CLOSE then Read(Arr([]), s[2..])
      else (match ReadItems(s[1..]) case Failed => Failed case Read(items, rest) => Read(Arr(items), rest))
    else if s[0] == OPEN_BRACE then
      if |s| >= 2 && s[1] == CLOSE_BRACE then Read(Obj(map[]), s[2..])
      else (match ReadMembers(s[1..]) case Failed => Failed case Read(m, rest) => Read(Obj(m), rest))
    else if NULL <= s then Read(Null, s[4..])
    else if TRUE <= s then Read(Bool(true), s[4..])
    else if FALSE <= s then Read(Bool(false), s[5..])
    else
      var n := NumberRun(s);
      if IsNumber(s[..n]) then Read(Num(s[..n]), s[n..]) else Failed
  }

  function ReadItems(s: Bytes): (r: Reading<seq<Json>>)
    ensures r.Read? ==> |r.rest| < |s|
    decreases |s|, 1
  {
    match ReadValue(s)
    case Failed => Failed
    case Read(v, rest) =>
      if rest == [] then Failed
      else if rest[0] == CLOSE then Read([v], rest[1..])
      else if rest[0] != COMMA then Failed
      else match ReadItems(rest[1..]) case Failed => Failed case Read(vs, end) => Read([v] + vs, end)
  }

  function ReadMembers(s: Bytes): (r: Reading<map<Bytes, Json>>)
    ensures r.Read? ==> |r.rest| < |s|
    decreases |s|, 1
  {
    if s == [] || s[0] != QUOTE then Failed
    else
      match ReadString(s[1..])
      case Failed => Failed
      case Read(k, after) =>
        if after == [] || after[0] != COLON then Failed
        else
          match ReadValue(after[1..])
          case Failed => Failed
          case Read(v, rest) =>
            if rest == [] then Failed
            else if rest[0] == CLOSE_BRACE then Read(map[k := v], rest[1..])
            else if rest[0] != COMMA then Failed
            else
              match ReadMembers(rest[1..])
              case Failed => Failed
              case Read(m, end) => Read(map[k := v] + m, end)
  }

  /** The tree a client decodes from a complete document. */
  function DecodeDocument(s: Bytes): Option<Json> {
    var r := ReadValue(s);
    if r.Read? && r.rest == [] then Some(r.value) else None
  }

  // ---------------------------------------------------------------- decoding what was restored

  /** The tree with every known token in its strings and keys replaced by the raw value. */
  ghost function Substituted(m: Substitution, v: Json): Json
    decreases v, 1
  {
    match v
    case Str(s) => Str(Rewrite(m, s))
    case Arr(items) => Arr(SubstitutedList(m, items, v))
    case Obj(o) =>
      var ks := Sorted(o.Keys);
      MembersUnder(o, ks, v);
      Obj(Zip(RewrittenKeys(m, ks), SubstitutedList(m, Values(o, ks), v)))
    case _ => v
  }

  ghost function SubstitutedList(m: Substitution, vs: seq<Json>, parent: Json): (r: seq<Json>)
    requires Under(vs, parent)
    ensures |r| == |vs|
    decreases parent, 0, |vs|
  {
    if vs == [] then [] else [Substituted(m, vs[0])] + SubstitutedList(m, vs[1..], parent)
  }

  ghost function RewrittenKeys(m: Substitution, ks: seq<Bytes>): seq<Bytes> {
    seq(|ks|, i requires 0 <= i < |ks| => Rewrite(m, ks[i]))
  }

  predicate Stops(tail: Bytes) { tail == [] || !IsNumberByte(tail[0]) }

  /** The text e is decoded as v, whatever follows it that does not prolong a number. */
  ghost predicate Parses(e: Bytes, v: Json) {
    forall tail | Stops(tail) :: ReadValue(e + tail) == Read(v, tail)
  }

  ghost predicate ParsesItems(e: Bytes, vs: seq<Json>) {
    forall tail :: ReadItems(e + ([CLOSE] + tail)) == Read(vs, tail)
  }

  ghost predicate ParsesMembers(e: Bytes, o: map<Bytes, Json>) {
    forall tail :: ReadMembers(e + ([CLOSE_BRACE] + tail)) == Read(o, tail)
  }

  lemma ParsesAt(e: Bytes, v: Json, tail: Bytes)
    requires Parses(e, v) && Stops(tail)
    ensures ReadValue(e + tail) == Read(v, tail)
  {
  }

  lemma WordParses(w: Bytes, v: Json)
    requires (w == NULL && v == Null) || (w == TRUE && v == Bool(true)) || (w == FALSE && v == Bool(false))
    ensures Parses(w, v)
  {
    forall tail | Stops(tail)
      ensures ReadValue(w + tail) == Read(v, tail)
    {
      var s := w + tail;
      assert s[0] == w[0] && w <= s && s[|w|..] == tail;
      assert s[1] == w[1];
    }
  }

  lemma {:induction false} NumberRunStops(l: Bytes, tail: Bytes)
    requires (forall i | 0 <= i < |l| :: IsNumberByte(l[i])) && Stops(tail)
    ensures NumberRun(l + tail) == |l|
  {
    if l == [] {
      assert l + tail == tail;
    } else {
      assert (l + tail)[0] == l[0] && (l + tail)[1..] == l[1..] + tail;
      NumberRunStops(l[1..], tail);
    }
  }

  lemma NumberParses(l: Bytes)
    requires IsNumber(l)
    ensures Parses(l, Num(l))
  {
    forall tail | Stops(tail)
      ensures ReadValue(l + tail) == Read(Num(l), tail)
    {
      var s := l + tail;
      NumberRunStops(l, tail);
      assert s[0] == l[0] && s[..|l|] == l && s[|l|..] == tail;
    }
  }

  lemma LiteralParses(m: Substitution, s: Bytes)
    requires Valid(s) && ValidValues(m)
    ensures Parses(Literal(Some(Spliced(m)), s), Str(Rewrite(m, s)))
  {
    var x := Inside(Some(Spliced(m)), s);
    forall tail | Stops(tail)
      ensures ReadValue([QUOTE] + x + [QUOTE] + tail) == Read(Str(Rewrite(m, s)), tail)
    {
      Enclosed(QUOTE, x, QUOTE, tail);
      ReadSpliced(m, s, tail);
    }
  }

  lemma ItemsOne(e: Bytes, v: Json)
    requires Parses(e, v)
    ensures ParsesItems(e, [v])
  {
    forall tail
      ensures ReadItems(e + ([CLOSE] + tail)) == Read([v], tail)
    {
      ParsesAt(e, v, [CLOSE] + tail);
      assert ([CLOSE] + tail)[1..] == tail;
    }
  }

  lemma RegroupFour(a: Bytes, b: Bytes, c: Bytes, d: Bytes)
    ensures a + b + c + d == a + (b + (c + d))
  {
  }

  lemma ItemThenMore(e: Bytes, v: Json, after: Bytes)
    requires Parses(e, v)
    ensures ReadItems(after).Read?
            ==> ReadItems(e + ([COMMA] + after)) == Read([v] + ReadItems(after).value, ReadItems(after).rest)
  {
    ParsesAt(e, v, [COMMA] + after);
    assert ([COMMA] + after)[1..] == after;
  }

  lemma ItemsMore(e: Bytes, v: Json, f: Bytes, vs: seq<Json>)
    requires Parses(e, v) && ParsesItems(f, vs)
    ensures ParsesItems(e + [COMMA] + f, [v] + vs)
  {
    forall tail
      ensures ReadItems(e + [COMMA] + f + ([CLOSE] + tail)) == Read([v] + vs, tail)
    {
      var after := f + ([CLOSE] + tail);
      RegroupFour(e, [COMMA], f, [CLOSE] + tail);
      ItemThenMore(e, v, after);
    }
  }

  lemma Enclosed(open: Byte, e: Bytes, close: Byte, tail: Bytes)
    ensures var s := [open] + e + [close] + tail;
            && s[0] == open && s[1..] == e + ([close] + tail)
            && (if e == [] then s[1] == close && s[2..] == tail else s[1] == e[0])
  {
  }

  lemma ArrayParses(e: Bytes, vs: seq<Json>)
    requires if e == [] then vs == [] else e[0] != CLOSE && ParsesItems(e, vs)
    ensures Parses([OPEN] + e + [CLOSE], Arr(vs))
  {
    forall tail | Stops(tail)
      ensures ReadValue([OPEN] + e + [CLOSE] + tail) == Read(Arr(vs), tail)
    {
      Enclosed(OPEN, e, CLOSE, tail);
    }
  }

  lemma MemberOne(m: Substitution, k: Bytes, e: Bytes, v: Json)
    requires Parses(e, v) && Valid(k) && ValidValues(m)
    ensures ParsesMembers(Literal(Some(Spliced(m)), k) + [COLON] + e, map[Rewrite(m, k) := v])
  {
    var x := Inside(Some(Spliced(m)), k);
    forall tail
      ensures ReadMembers([QUOTE] + x + [QUOTE] + [COLON] + e + ([CLOSE_BRACE] + tail))
           == Read(map[Rewrite(m, k) := v], tail)
    {
      var rest := [CLOSE_BRACE] + tail;
      ReadKey(m, k, e + rest);
      MemberText(x, e, rest);
      ParsesAt(e, v, rest);
      assert rest[1..] == tail;
    }
  }

  lemma ReadKey(m: Substitution, k: Bytes, rest: Bytes)
    requires Valid(k) && ValidValues(m)
    ensures ReadString(Inside(Some(Spliced(m)), k) + ([QUOTE] + ([COLON] + rest)))
         == Read(Rewrite(m, k), [COLON] + rest)
    ensures ([COLON] + rest)[1..] == rest
  {
    ReadSpliced(m, k, [COLON] + rest);
  }

  lemma MemberText(x: Bytes, e: Bytes, rest: Bytes)
    ensures var s := [QUOTE] + x + [QUOTE] + [COLON] + e + rest;
            s[0] == QUOTE && s[1..] == x + ([QUOTE] + ([COLON] + (e + rest)))
  {
  }

  lemma MemberThenMore(m: Substitution, k: Bytes, e: Bytes, v: Json, after: Bytes)
    requires Parses(e, v) && Valid(k) && ValidValues(m) && ReadMembers(after).Read?
    ensures ReadMembers(Literal(Some(Spliced(m)), k) + [COLON] + e + ([COMMA] + after))
         == Read(map[Rewrite(m, k) := v] + ReadMembers(after).value, ReadMembers(after).rest)
  {
    var rest := [COMMA] + after;
    ReadKey(m, k, e + rest);
    MemberText(Inside(Some(Spliced(m)), k), e, rest);
    ParsesAt(e, v, rest);
    assert rest[1..] == after;
  }

  lemma MemberMore(m: Substitution, k: Bytes, e: Bytes, v: Json, f: Bytes, o: map<Bytes, Json>)
    requires Parses(e, v) && Valid(k) && ValidValues(m) && ParsesMembers(f, o)
    ensures ParsesMembers(Literal(Some(Spliced(m)), k) + [COLON] + e + [COMMA] + f, map[Rewrite(m, k) := v] + o)
  {
    var head := Literal(Some(Spliced(m)), k) + [COLON] + e;
    forall tail
      ensures ReadMembers(head + [COMMA] + f + ([CLOSE_BRACE] + tail)) == Read(map[Rewrite(m, k) := v] + o, tail)
    {
      RegroupFour(head, [COMMA], f, [CLOSE_BRACE] + tail);
      MemberThenMore(m, k, e, v, f + ([CLOSE_BRACE] + tail));
    }
  }

  lemma ObjectParses(e: Bytes, o: map<Bytes, Json>)
    requires if e == [] then o == map[] else e[0] != CLOSE_BRACE && ParsesMembers(e, o)
    ensures Parses([OPEN_BRACE] + e + [CLOSE_BRACE], Obj(o))
  {
    forall tail | Stops(tail)
      ensures ReadValue([OPEN_BRACE] + e + [CLOSE_BRACE] + tail) == Read(Obj(o), tail)
    {
      Enclosed(OPEN_BRACE, e, CLOSE_BRACE, tail);
    }
  }

  /** The restored document is decoded as the substituted tree. */
  lemma {:induction false} RestoredParses(m: Substitution, v: Json)
    requires WellFormed(v) && ValidValues(m)
    ensures Parses(Render(Some(Spliced(m)), v), Substituted(m, v))
    decreases v, 2
  {
    match v
    case Null => WordParses(NULL, v);
    case Bool(b) => WordParses(if b then TRUE else FALSE, v);
    case Num(l) => NumberParses(l);
    case Str(s) => LiteralParses(m, s);
    case Arr(items) =>
      var e := RenderList(Some(Spliced(m)), NoLabels(|items|), items, v);
      ItemsStart(Some(Spliced(m)), items, v);
      if items != [] { ItemsParse(m, items, v); }
      ArrayParses(e, SubstitutedList(m, items, v));
    case Obj(o) =>
      var ks := Sorted(o.Keys);
      ObjectParts(o, v);
      if ks != [] {
        MembersStart(Some(Spliced(m)), ks, Values(o, ks), v);
        MembersParse(m, ks, Values(o, ks), v);
      }
      ObjectParses(RestoredMembers(m, ks, Values(o, ks), v), SubstitutedMembers(m, ks, Values(o, ks), v));
  }

  lemma {:induction false} ItemsParse(m: Substitution, vs: seq<Json>, parent: Json)
    requires vs != [] && Under(vs, parent) && AllWellFormed(vs) && ValidValues(m)
    ensures ParsesItems(RenderList(Some(Spliced(m)), NoLabels(|vs|), vs, parent), SubstitutedList(m, vs, parent))
    decreases parent, 0, |vs|
  {
    var sub, ls := Some(Spliced(m)), NoLabels(|vs|);
    var e := Render(sub, vs[0]);
    RestoredParses(m, vs[0]);
    assert ls[0] + e == e;
    if |vs| == 1 {
      ItemsOne(e, Substituted(m, vs[0]));
      assert SubstitutedList(m, vs, parent) == [Substituted(m, vs[0])];
    } else {
      assert ls[1..] == NoLabels(|vs[1..]|);
      ItemsParse(m, vs[1..], parent);
      ItemsMore(e, Substituted(m, vs[0]), RenderList(sub, ls[1..], vs[1..], parent),
          SubstitutedList(m, vs[1..], parent));
    }
  }

  lemma FirstLabel(sub: Option<Substitution>, ks: seq<Bytes>)
    requires ks != []
    ensures Labels(sub, ks)[0] == Literal(sub, ks[0]) + [COLON]
    ensures Labels(sub, ks)[1..] == Labels(sub, ks[1..])
  {
  }

  lemma QuoteFirst(sub: Option<Substitution>, k: Bytes, rest: Bytes)
    ensures var e := Literal(sub, k) + [COLON] + rest; e != [] && e[0] == QUOTE
  {
  }

  lemma MembersStart(sub: Option<Substitution>, ks: seq<Bytes>, vs: seq<Json>, parent: Json)
    requires vs != [] && |ks| == |vs| && Under(vs, parent)
    ensures var ls := Labels(sub, ks);
            var e := RenderList(sub, ls, vs, parent);
            var head := Literal(sub, ks[0]) + [COLON] + Render(sub, vs[0]);
            && e != [] && e[0] == QUOTE
            && e == if |vs| == 1 then head
                    else head + [COMMA] + RenderList(sub, Labels(sub, ks[1..]), vs[1..], parent)
  {
    FirstLabel(sub, ks);
    QuoteFirst(sub, ks[0], Render(sub, vs[0]));
  }

  ghost function SubstitutedMembers(m: Substitution, ks: seq<Bytes>, vs: seq<Json>, parent: Json): map<Bytes, Json>
    requires |ks| == |vs| && Under(vs, parent)
  {
    Zip(RewrittenKeys(m, ks), SubstitutedList(m, vs, parent))
  }

  lemma SubstitutedMembersStep(m: Substitution, ks: seq<Bytes>, vs: seq<Json>, parent: Json)
    requires vs != [] && |ks| == |vs| && Under(vs, parent)
    ensures SubstitutedMembers(m, ks, vs, parent)
         == map[Rewrite(m, ks[0]) := Substituted(m, vs[0])] + SubstitutedMembers(m, ks[1..], vs[1..], parent)
  {
    assert RewrittenKeys(m, ks)[1..] == RewrittenKeys(m, ks[1..]);
    assert SubstitutedList(m, vs, parent)[1..] == SubstitutedList(m, vs[1..], parent);
  }

  lemma SubstitutedMembersOne(m: Substitution, ks: seq<Bytes>, vs: seq<Json>, parent: Json)
    requires |ks| == |vs| == 1 && Under(vs, parent)
    ensures SubstitutedMembers(m, ks, vs, parent) == map[Rewrite(m, ks[0]) := Substituted(m, vs[0])]
  {
    SubstitutedMembersStep(m, ks, vs, parent);
    assert SubstitutedMembers(m, ks[1..], vs[1..], parent) == map[];
  }

  ghost function RestoredMembers(m: Substitution, ks: seq<Bytes>, vs: seq<Json>, parent: Json): Bytes
    requires |ks| == |vs| && Under(vs, parent)
  {
    RenderList(Some(Spliced(m)), Labels(Some(Spliced(m)), ks), vs, parent)
  }

  lemma {:induction false} MembersParse(m: Substitution, ks: seq<Bytes>, vs: seq<Json>, parent: Json)
    requires vs != [] && |ks| == |vs| && Under(vs, parent) && AllWellFormed(vs) && ValidValues(m)
    requires forall i | 0 <= i < |ks| :: Valid(ks[i])
    ensures ParsesMembers(RestoredMembers(m, ks, vs, parent), SubstitutedMembers(m, ks, vs, parent))
    decreases parent, 0, |vs|
  {
    var e, v := Render(Some(Spliced(m)), vs[0]), Substituted(m, vs[0]);
    RestoredParses(m, vs[0]);
    MembersStart(Some(Spliced(m)), ks, vs, parent);
    if |vs| == 1 {
      SubstitutedMembersOne(m, ks, vs, parent);
      MemberOne(m, ks[0], e, v);
    } else {
      var t, us := ks[1..], vs[1..];
      MembersParse(m, t, us, parent);
      SubstitutedMembersStep(m, ks, vs, parent);
      MemberMore(m, ks[0], e, v, RestoredMembers(m, t, us, parent), SubstitutedMembers(m, t, us, parent));
    }
  }

  /**
   Restoring commutes with decoding: for every document tree and every mapping, the client
   that decodes the restored bytes of the printed document gets the tree with its tokens
   replaced by the raw values. No value, however it is spelled, can break the document.
   */
  lemma RestoreCommutesWithDecode(m: Substitution, v: Json)
    requires WellFormed(v) && ValidValues(m)
    ensures DecodeDocument(Rewrite(Spliced(m), Print(v))) == Some(Substituted(m, v))
  {
    var sub := Spliced(m);
    DocumentBecomes(sub, v);
    assert Print(v) + [] == Print(v) && Render(Some(sub), v) + [] == Render(Some(sub), v);
    assert Restoring(sub)(Print(v) + []) == Render(Some(sub), v) + Restoring(sub)([]);
    RestoredParses(m, v);
    ParsesAt(Render(Some(sub), v), Substituted(m, v), []);
  }
}
