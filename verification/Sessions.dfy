/** The masking session: which token stands for which value, and the counter of each kind. */
module Sessions {
  import opened ByteStrings
  import opened TokenGrammar

  datatype SessionState = SessionState(
    mapping: map<Bytes, Bytes>, tokenOf: map<Bytes, Bytes>, counters: map<Bytes, nat>)

  const FRESH: SessionState := SessionState(map[], map[], map[])

  function Count(st: SessionState, kind: Bytes): nat {
    if kind in st.counters then st.counters[kind] else 0
  }

  function Allot(st: SessionState, kind: Bytes, value: Bytes): (SessionState, Bytes) {
    if value in st.tokenOf then (st, st.tokenOf[value])
    else
      var n := Count(st, kind) + 1;
      var t := PrintToken(kind, n);
      (SessionState(st.mapping[t := value], st.tokenOf[value := t], st.counters[kind := n]), t)
  }

  class Session {
    var mapping: map<Bytes, Bytes>
    var tokenOf: map<Bytes, Bytes>
    var counters: map<Bytes, nat>

    constructor ()
      ensures State() == FRESH
    {
      mapping := map[];
      tokenOf := map[];
      counters := map[];
    }

    ghost function State(): SessionState
      reads this
    {
      SessionState(mapping, tokenOf, counters)
    }

    method TokenFor(kind: Bytes, value: Bytes) returns (t: Bytes)
      modifies this
      ensures (State(), t) == Allot(old(State()), kind, value)
    {
      if value in tokenOf {
        return tokenOf[value];
      }
      var n := (if kind in counters then counters[kind] else 0) + 1;
      counters := counters[kind := n];
      t := PrintToken(kind, n);
      tokenOf := tokenOf[value := t];
      mapping := mapping[t := value];
    }
  }

  // ---------------------------------------------------------------- the invariant

  ghost predicate Inverses(mapping: map<Bytes, Bytes>, tokenOf: map<Bytes, Bytes>) {
    && (forall v | v in tokenOf :: tokenOf[v] in mapping && mapping[tokenOf[v]] == v)
    && (forall t | t in mapping :: mapping[t] in tokenOf && tokenOf[mapping[t]] == t)
  }

  ghost predicate Numbered(st: SessionState, t: Bytes, kind: Bytes, n: nat) {
    IsKind(kind) && kind in st.counters && 1 <= n <= st.counters[kind] && t == PrintToken(kind, n)
  }

  ghost predicate TokensNumbered(st: SessionState) {
    forall t | t in st.mapping :: exists kind, n :: Numbered(st, t, kind, n)
  }

  ghost predicate NumbersTaken(st: SessionState) {
    forall t, kind, n: nat :: Numbered(st, t, kind, n) ==> t in st.mapping
  }

  ghost predicate CountersBounded(st: SessionState) {
    forall kind | kind in st.counters :: IsKind(kind) && st.counters[kind] <= |st.mapping|
  }

  /** The numbers used for each kind are exactly 1 up to its counter. */
  ghost predicate NumbersUsed(st: SessionState) {
    TokensNumbered(st) && NumbersTaken(st) && CountersBounded(st)
  }

  ghost predicate Consistent(st: SessionState) {
    Inverses(st.mapping, st.tokenOf) && NumbersUsed(st)
  }

  /** Everything the earlier session had bound, the later one binds alike. */
  ghost predicate Extends(a: SessionState, b: SessionState) {
    && (forall t | t in a.mapping :: t in b.mapping && b.mapping[t] == a.mapping[t])
    && (forall v | v in a.tokenOf :: v in b.tokenOf && b.tokenOf[v] == a.tokenOf[v])
    && |a.mapping| <= |b.mapping|
  }

  lemma FreshConsistent()
    ensures Consistent(FRESH)
  {
  }

  lemma ExtendsTransitive(a: SessionState, b: SessionState, c: SessionState)
    requires Extends(a, b) && Extends(b, c)
    ensures Extends(a, c)
  {
  }

  lemma NextTokenIsNew(st: SessionState, kind: Bytes)
    requires NumbersUsed(st) && IsKind(kind)
    ensures PrintToken(kind, Count(st, kind) + 1) !in st.mapping
  {
    var t := PrintToken(kind, Count(st, kind) + 1);
    if t in st.mapping {
      var k, n :| Numbered(st, t, k, n);
      PrintInjective(kind, Count(st, kind) + 1, k, n);
    }
  }

  /** The session after the next token t of a kind has been bound. */
  ghost predicate Bound(st: SessionState, st1: SessionState, kind: Bytes, t: Bytes) {
    && IsKind(kind) && t == PrintToken(kind, Count(st, kind) + 1)
    && st1.mapping.Keys == st.mapping.Keys + {t}
    && st1.counters == st.counters[kind := Count(st, kind) + 1]
  }

  lemma StillNumbered(st: SessionState, st1: SessionState, kind: Bytes, t: Bytes)
    requires TokensNumbered(st) && Bound(st, st1, kind, t)
    ensures TokensNumbered(st1)
  {
    forall s | s in st1.mapping
      ensures exists k, n :: Numbered(st1, s, k, n)
    {
      if s in st.mapping {
        var k, n :| Numbered(st, s, k, n);
        assert Numbered(st1, s, k, n);
      } else {
        assert Numbered(st1, s, kind, Count(st, kind) + 1);
      }
    }
  }

  lemma StillTaken(st: SessionState, st1: SessionState, kind: Bytes, t: Bytes)
    requires NumbersTaken(st) && Bound(st, st1, kind, t)
    ensures NumbersTaken(st1)
  {
    forall s, k, n: nat | Numbered(st1, s, k, n)
      ensures s in st1.mapping
    {
      if k != kind || n <= Count(st, kind) {
        assert Numbered(st, s, k, n);
      }
    }
  }

  lemma NumbersGrow(st: SessionState, st1: SessionState, kind: Bytes, t: Bytes, value: Bytes)
    requires NumbersUsed(st) && Bound(st, st1, kind, t) && st1.mapping == st.mapping[t := value]
    ensures NumbersUsed(st1)
  {
    NextTokenIsNew(st, kind);
    StillNumbered(st, st1, kind, t);
    StillTaken(st, st1, kind, t);
    assert |st1.mapping| == |st.mapping| + 1;
  }

  lemma InversesGrow(mapping: map<Bytes, Bytes>, tokenOf: map<Bytes, Bytes>, t: Bytes, v: Bytes)
    requires Inverses(mapping, tokenOf) && t !in mapping && v !in tokenOf
    ensures Inverses(mapping[t := v], tokenOf[v := t])
  {
  }

  /** One request for a token keeps the invariant, keeps every binding, and binds the value. */
  lemma TokenForKeeps(st: SessionState, kind: Bytes, value: Bytes)
    requires Consistent(st) && IsKind(kind)
    ensures var (st1, t) := Allot(st, kind, value);
            && Consistent(st1) && Extends(st, st1)
            && t in st1.mapping && st1.mapping[t] == value && IsToken(t)
            && |st1.mapping| <= |st.mapping| + 1
            && (|kind| <= 53 && LettersAtMost(st, 53) ==> LettersAtMost(st1, 53))
  {
    if value in st.tokenOf {
      var k, n :| Numbered(st, st.tokenOf[value], k, n);
      PrintedIsToken(k, n);
    } else {
      NewTokenKeeps(st, kind, value);
    }
  }

  lemma ExtendsByOne(a: SessionState, b: SessionState, t: Bytes, v: Bytes)
    requires t !in a.mapping && v !in a.tokenOf
    requires b.mapping == a.mapping[t := v] && b.tokenOf == a.tokenOf[v := t]
    ensures Extends(a, b) && |b.mapping| == |a.mapping| + 1
  {
  }

  lemma BoundKeeps(st: SessionState, st1: SessionState, kind: Bytes, value: Bytes, t: Bytes)
    requires Consistent(st) && value !in st.tokenOf && Bound(st, st1, kind, t)
    requires st1.mapping == st.mapping[t := value] && st1.tokenOf == st.tokenOf[value := t]
    ensures Consistent(st1) && Extends(st, st1) && |st1.mapping| == |st.mapping| + 1
  {
    NextTokenIsNew(st, kind);
    NumbersGrow(st, st1, kind, t, value);
    InversesGrow(st.mapping, st.tokenOf, t, value);
    ExtendsByOne(st, st1, t, value);
  }

  lemma AllotBinds(st: SessionState, kind: Bytes, value: Bytes)
    requires IsKind(kind) && value !in st.tokenOf
    ensures var (st1, t) := Allot(st, kind, value);
            && Bound(st, st1, kind, t) && IsToken(t)
            && st1.mapping == st.mapping[t := value] && st1.tokenOf == st.tokenOf[value := t]
  {
    PrintedIsToken(kind, Count(st, kind) + 1);
  }

  lemma NewTokenKeeps(st: SessionState, kind: Bytes, value: Bytes)
    requires Consistent(st) && IsKind(kind) && value !in st.tokenOf
    ensures var (st1, t) := Allot(st, kind, value);
            && Consistent(st1) && Extends(st, st1)
            && t in st1.mapping && st1.mapping[t] == value && IsToken(t)
            && |st1.mapping| == |st.mapping| + 1
  {
    var (st1, t) := Allot(st, kind, value);
    AllotBinds(st, kind, value);
    BoundKeeps(st, st1, kind, value, t);
  }

  ghost predicate LettersAtMost(st: SessionState, max: nat) {
    forall kind | kind in st.counters :: |kind| <= max
  }

  /** With short kinds and at most 2^24 values every token is short enough to be recognised. */
  lemma TokensFit(st: SessionState, t: Bytes)
    requires Consistent(st) && t in st.mapping
    requires LettersAtMost(st, 53) && |st.mapping| <= 0x100_0000
    ensures IsToken(t) && |t| <= MAX_TOKEN_LEN
  {
    var k, n :| Numbered(st, t, k, n);
    PrintedIsToken(k, n);
    PrintedFits(k, n);
  }

  // ---------------------------------------------------------------- whole runs

  datatype Call = Call(kind: Bytes, value: Bytes)

  function RunCalls(st: SessionState, calls: seq<Call>): SessionState
    decreases |calls|
  {
    if calls == [] then st else RunCalls(Allot(st, calls[0].kind, calls[0].value).0, calls[1..])
  }

  /** Any sequence of requests keeps the invariant and every binding made so far. */
  lemma {:induction false} RunKeeps(st: SessionState, calls: seq<Call>)
    requires Consistent(st) && forall i | 0 <= i < |calls| :: IsKind(calls[i].kind)
    ensures Consistent(RunCalls(st, calls)) && Extends(st, RunCalls(st, calls))
    decreases |calls|
  {
    if calls == [] {
    } else {
      TokenForKeeps(st, calls[0].kind, calls[0].value);
      var st1 := Allot(st, calls[0].kind, calls[0].value).0;
      RunKeeps(st1, calls[1..]);
      ExtendsTransitive(st, st1, RunCalls(st, calls));
    }
  }

  // ---------------------------------------------------------------- what tokens look like

  /**
   A new value gets the next token of the kind asked for, and only that kind's counter moves;
   a value that is already bound keeps its token and changes nothing.
   */
  lemma TokenOfKind(st: SessionState, kind: Bytes, value: Bytes)
    ensures var (st1, t) := Allot(st, kind, value);
            if value in st.tokenOf then t == st.tokenOf[value] && st1 == st
            else
              && t == PrintToken(kind, Count(st, kind) + 1)
              && forall k :: Count(st1, k) == if k == kind then Count(st, k) + 1 else Count(st, k)
  {
  }

  /** Call i is the first to name its value, which was not bound before. */
  ghost predicate Names(st: SessionState, calls: seq<Call>, i: nat)
    requires i < |calls|
  {
    calls[i].value !in st.tokenOf && forall j | 0 <= j < i :: calls[j].value != calls[i].value
  }

  /** How many values the calls name with that kind. */
  ghost function Named(st: SessionState, calls: seq<Call>, kind: Bytes): nat {
    if calls == [] then 0
    else
      var n := |calls| - 1;
      Named(st, calls[..n], kind) + if Names(st, calls, n) && calls[n].kind == kind then 1 else 0
  }

  lemma {:induction false} RunAppend(st: SessionState, a: seq<Call>, b: seq<Call>)
    ensures RunCalls(st, a + b) == RunCalls(RunCalls(st, a), b)
    decreases |a|
  {
    if a == [] {
      assert a + b == b;
    } else {
      assert (a + b)[0] == a[0] && (a + b)[1..] == a[1..] + b;
      RunAppend(Allot(st, a[0].kind, a[0].value).0, a[1..], b);
    }
  }

  lemma RunLast(st: SessionState, calls: seq<Call>)
    requires calls != []
    ensures var n := |calls| - 1;
            RunCalls(st, calls) == Allot(RunCalls(st, calls[..n]), calls[n].kind, calls[n].value).0
  {
    var n := |calls| - 1;
    RunAppend(st, calls[..n], [calls[n]]);
    assert calls == calls[..n] + [calls[n]] && [calls[n]][1..] == [];
  }

  /** The values bound are those bound before, with their tokens, and those asked for. */
  lemma {:induction false} RunBinds(st: SessionState, calls: seq<Call>)
    ensures forall v | v in st.tokenOf ::
              v in RunCalls(st, calls).tokenOf && RunCalls(st, calls).tokenOf[v] == st.tokenOf[v]
    ensures forall v :: v in RunCalls(st, calls).tokenOf
              <==> v in st.tokenOf || exists i :: 0 <= i < |calls| && calls[i].value == v
  {
    if calls == [] {
    } else {
      var n := |calls| - 1;
      RunLast(st, calls);
      RunBinds(st, calls[..n]);
      assert forall i | 0 <= i < n :: calls[..n][i] == calls[i];
    }
  }

  /** Each kind's counter has moved by the number of values named with it. */
  lemma {:induction false} RunCounts(st: SessionState, calls: seq<Call>, kind: Bytes)
    ensures Count(RunCalls(st, calls), kind) == Count(st, kind) + Named(st, calls, kind)
  {
    if calls == [] {
    } else {
      var n := |calls| - 1;
      RunLast(st, calls);
      RunCounts(st, calls[..n], kind);
      RunBinds(st, calls[..n]);
      LastNames(st, calls);
    }
  }

  lemma LastNames(st: SessionState, calls: seq<Call>)
    requires calls != []
    ensures var n := |calls| - 1; Names(st, calls, n) <==> calls[n].value !in RunCalls(st, calls[..n]).tokenOf
  {
    var n := |calls| - 1;
    RunBinds(st, calls[..n]);
    assert forall i | 0 <= i < n :: calls[..n][i] == calls[i];
  }

  /**
   Over any sequence of requests: the token of a value is printed with the kind of the request
   that first named it, and numbered by how many values had been named with that kind before.
   */
  lemma {:induction false} RunNames(st: SessionState, calls: seq<Call>, i: nat)
    requires i < |calls| && Names(st, calls, i)
    ensures calls[i].value in RunCalls(st, calls).tokenOf
    ensures RunCalls(st, calls).tokenOf[calls[i].value]
         == PrintToken(calls[i].kind, Count(st, calls[i].kind) + Named(st, calls[..i], calls[i].kind) + 1)
    decreases |calls|
  {
    var n := |calls| - 1;
    RunLast(st, calls);
    if i == n {
      LastNames(st, calls);
      RunCounts(st, calls[..n], calls[n].kind);
    } else {
      assert calls[..n][..i] == calls[..i];
      RunNames(st, calls[..n], i);
    }
  }

  /** The token has the kind of call i, and is numbered by how many values had been named with that kind before it. */
  ghost predicate NumberedByCall(st: SessionState, calls: seq<Call>, i: nat, t: Bytes)
    requires i < |calls|
  {
    t == PrintToken(calls[i].kind, Count(st, calls[i].kind) + Named(st, calls[..i], calls[i].kind) + 1)
  }

  /** The same of a token, read back from the mapping of the session that the requests leave. */
  lemma TokenNamed(st: SessionState, calls: seq<Call>, last: SessionState, i: nat, t: Bytes)
    requires last == RunCalls(st, calls) && Inverses(last.mapping, last.tokenOf)
    requires i < |calls| && Names(st, calls, i) && t in last.mapping && last.mapping[t] == calls[i].value
    ensures NumberedByCall(st, calls, i, t)
  {
    RunNames(st, calls, i);
  }
}
