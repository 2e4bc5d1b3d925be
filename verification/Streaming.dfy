/**
 The streaming writer: restores tokens in a response that arrives in arbitrary chunks,
 holding back the bytes that may still become a token.
 */
module Streaming {
  import opened ByteStrings
  import opened TokenGrammar
  import opened Rewriting
  import opened JsonString
  import V = Vault

  // ---------------------------------------------------------------- the byte machine

  /** The candidate held back, and everything delivered so far. */
  datatype Machine = Machine(buf: Bytes, out: Bytes)

  const START: Machine := Machine([], [])

  ghost function Step(sub: Substitution, st: Machine, b: Byte): Machine {
    if st.buf == [] then
      if b == OPEN then Machine([b], st.out) else Machine([], st.out + [b])
    else
      var c := st.buf + [b];
      if IsToken(c) then Machine([], st.out + Subst(sub, c))
      else if !CanGrow(c) then
        if b == OPEN then Machine([OPEN], st.out + st.buf) else Machine([], st.out + c)
      else if |c| >= MAX_TOKEN_LEN then Machine([], st.out + c)
      else Machine(c, st.out)
  }

  ghost function Feed(sub: Substitution, st: Machine, p: Bytes): Machine {
    if p == [] then st else Step(sub, Feed(sub, st, p[..|p| - 1]), p[|p| - 1])
  }

  /** What is held back after p, whatever is substituted. */
  ghost function Held(buf: Bytes, p: Bytes): Bytes { Feed(map[], Machine(buf, []), p).buf }

  ghost function CompletedBy(buf: Bytes, b: Byte): seq<Bytes> {
    if buf != [] && IsToken(buf + [b]) then [buf + [b]] else []
  }

  /** The tokens that are complete, and looked up, while p goes through. */
  ghost function Completed(buf: Bytes, p: Bytes): seq<Bytes> {
    if p == [] then []
    else
      var q := p[..|p| - 1];
      Completed(buf, q) + CompletedBy(Held(buf, q), p[|p| - 1])
  }

  lemma {:induction false} FeedHolds(sub: Substitution, st: Machine, p: Bytes)
    ensures Feed(sub, st, p).buf == Held(st.buf, p)
  {
    if p == [] {
    } else {
      FeedHolds(sub, st, p[..|p| - 1]);
    }
  }

  /** Only the tokens completed in p matter for what becomes of it. */
  lemma {:induction false} FeedAgree(f: Substitution, g: Substitution, st: Machine, p: Bytes)
    requires forall t | t in Completed(st.buf, p) :: Subst(f, t) == Subst(g, t)
    ensures Feed(f, st, p) == Feed(g, st, p)
  {
    if p == [] {
    } else {
      var q, b := p[..|p| - 1], p[|p| - 1];
      assert forall t | t in Completed(st.buf, q) :: t in Completed(st.buf, p);
      FeedAgree(f, g, st, q);
      FeedHolds(f, st, q);
      var c := Held(st.buf, q) + [b];
      assert Held(st.buf, q) != [] && IsToken(c) ==> c in CompletedBy(Held(st.buf, q), b);
    }
  }

  /** Between bytes the buffer is empty or a live candidate below the cap. */
  ghost predicate Sound(st: Machine) {
    st.buf == [] || (CanGrow(st.buf) && |st.buf| < MAX_TOKEN_LEN)
  }

  /** A held candidate has its only `[` at the front. */
  lemma OnlyOpen(st: Machine)
    requires Sound(st) && st.buf != []
    ensures st.buf[0] == OPEN && OPEN !in st.buf[1..]
  {
    GrowingBytes(st.buf);
  }

  /** A candidate that can grow has no token of admissible length at its front yet. */
  lemma NoTokenYet(c: Bytes, rest: Bytes)
    requires CanGrow(c) && (|c| >= MAX_TOKEN_LEN || rest == [])
    ensures forall n :: !StartsToken(c + rest, n)
  {
    if n :| StartsToken(c + rest, n) {
      TokenPrefixOfGrowing(c, (c + rest)[..n]);
    }
  }

  lemma TokenPrefixOfGrowing(c: Bytes, t: Bytes)
    requires CanGrow(c) && IsToken(t)
    ensures !(t <= c)
  {
    if t <= c {
      var u :| IsToken(u) && c < u;
      TokenEnds(t, u);
    }
  }

  lemma LongStartAlive(c: Bytes, rest: Bytes, n: int)
    requires StartsToken(c + rest, n) && |c| <= n
    ensures IsToken(c) || CanGrow(c)
  {
    var t := (c + rest)[..n];
    assert t == c + t[|c|..];
    PrefixAlive(c, t[|c|..]);
  }

  /** Nothing starts at the front of a candidate that has just died. */
  lemma DeadStartsNothing(buf: Bytes, b: Byte, rest: Bytes)
    requires CanGrow(buf) && !IsToken(buf + [b]) && !CanGrow(buf + [b])
    ensures forall n :: !StartsToken(buf + [b] + rest, n)
  {
    if n :| StartsToken(buf + [b] + rest, n) {
      if n <= |buf| {
        TokenPrefixOfGrowing(buf, (buf + [b] + rest)[..n]);
      } else {
        LongStartAlive(buf + [b], rest, n);
      }
    }
  }

  lemma RewriteReleased(sub: Substitution, buf: Bytes, b: Byte, rest: Bytes)
    requires buf != [] && CanGrow(buf) && !IsToken(buf + [b]) && !CanGrow(buf + [b])
    ensures Rewrite(sub, buf + [b] + rest)
         == if b == OPEN then buf + Rewrite(sub, [OPEN] + rest) else buf + [b] + Rewrite(sub, rest)
  {
    DeadStartsNothing(buf, b, rest);
    GrowingBytes(buf);
    if b == OPEN {
      assert buf + [b] + rest == buf + ([OPEN] + rest);
      RewriteDead(sub, buf, [OPEN] + rest);
    } else {
      RewriteDead(sub, buf + [b], rest);
    }
  }

  lemma RewriteCapped(sub: Substitution, c: Bytes, rest: Bytes)
    requires c != [] && CanGrow(c) && |c| >= MAX_TOKEN_LEN
    ensures Rewrite(sub, c + rest) == c + Rewrite(sub, rest)
  {
    NoTokenYet(c, rest);
    GrowingBytes(c);
    RewriteDead(sub, c, rest);
  }

  lemma StepSound(sub: Substitution, st: Machine, b: Byte)
    requires Sound(st)
    ensures Sound(Step(sub, st, b))
  {
    GrowFromKind([OPEN]);
  }

  /** What the byte lets through, so that the rest of the promise is about the new buffer. */
  lemma StepRewrites(sub: Substitution, buf: Bytes, b: Byte, rest: Bytes)
    requires Sound(Machine(buf, []))
    ensures var st := Step(sub, Machine(buf, []), b);
            Rewrite(sub, buf + [b] + rest) == st.out + Rewrite(sub, st.buf + rest)
  {
    var c := buf + [b];
    var st := Step(sub, Machine(buf, []), b);
    assert [] + rest == rest;
    var r := Rewrite(sub, rest);
    if buf == [] {
      assert c == [b];
      if b == OPEN {
        assert [] + Rewrite(sub, c + rest) == Rewrite(sub, c + rest);
      } else {
        RewritePlain(sub, [b], rest);
        assert st == Machine([], [b]);
      }
    } else if IsToken(c) {
      RewriteToken(sub, c, rest);
      assert st.out == Subst(sub, c);
    } else if !CanGrow(c) {
      RewriteReleased(sub, buf, b, rest);
      assert st.out == if b == OPEN then buf else c;
    } else if |c| >= MAX_TOKEN_LEN {
      RewriteCapped(sub, c, rest);
      assert st.out == c;
    } else {
      assert st == Machine(c, []);
      assert [] + Rewrite(sub, c + rest) == Rewrite(sub, c + rest);
    }
  }

  /** Earlier output never influences a step. */
  lemma StepShift(sub: Substitution, d: Bytes, st: Machine, b: Byte)
    ensures Step(sub, Machine(st.buf, d + st.out), b)
         == Machine(Step(sub, st, b).buf, d + Step(sub, st, b).out)
  {
  }

  lemma {:induction false} FeedShift(sub: Substitution, d: Bytes, st: Machine, p: Bytes)
    ensures Feed(sub, Machine(st.buf, d + st.out), p)
         == Machine(Feed(sub, st, p).buf, d + Feed(sub, st, p).out)
  {
    if p == [] {
    } else {
      FeedShift(sub, d, st, p[..|p| - 1]);
      StepShift(sub, d, Feed(sub, st, p[..|p| - 1]), p[|p| - 1]);
    }
  }

  /** One byte of progress keeps the promise about every possible continuation. */
  lemma StepRefines(sub: Substitution, st: Machine, b: Byte, rest: Bytes)
    requires Sound(st)
    ensures Sound(Step(sub, st, b))
    ensures st.out + Rewrite(sub, st.buf + [b] + rest)
         == Step(sub, st, b).out + Rewrite(sub, Step(sub, st, b).buf + rest)
  {
    StepSound(sub, st, b);
    StepRewrites(sub, st.buf, b, rest);
    assert st.out + [] == st.out;
    StepShift(sub, st.out, Machine(st.buf, []), b);
    var st1 := Step(sub, Machine(st.buf, []), b);
    Associate(st.out, st1.out, Rewrite(sub, st1.buf + rest));
  }

  lemma LastByteMoves(a: Bytes, p: Bytes, rest: Bytes)
    requires p != []
    ensures a + p + rest == a + p[..|p| - 1] + ([p[|p| - 1]] + rest)
  {
  }

  lemma {:induction false} FeedRefines(sub: Substitution, st: Machine, p: Bytes, rest: Bytes)
    requires Sound(st)
    ensures Sound(Feed(sub, st, p))
    ensures st.out + Rewrite(sub, st.buf + p + rest)
         == Feed(sub, st, p).out + Rewrite(sub, Feed(sub, st, p).buf + rest)
  {
    if p == [] {
      assert st.buf + p + rest == st.buf + rest;
    } else {
      var q, b := p[..|p| - 1], p[|p| - 1];
      FeedRefines(sub, st, q, [b] + rest);
      LastByteMoves(st.buf, p, rest);
      var mid := Feed(sub, st, q);
      Associate(mid.buf, [b], rest);
      StepRefines(sub, mid, b, rest);
    }
  }

  lemma {:induction false} FeedAppend(sub: Substitution, st: Machine, a: Bytes, b: Bytes)
    ensures Feed(sub, Feed(sub, st, a), b) == Feed(sub, st, a + b)
  {
    if b == [] {
      assert a + b == a;
    } else {
      FeedAppend(sub, st, a, b[..|b| - 1]);
      assert (a + b)[..|a + b| - 1] == a + b[..|b| - 1];
    }
  }

  /** What a closed stream has delivered. */
  function Closed(st: Machine): Bytes { st.out + st.buf }

  lemma CloseRefines(sub: Substitution, st: Machine)
    requires Sound(st)
    ensures Closed(st) == st.out + Rewrite(sub, st.buf)
  {
    if st.buf != [] {
      NoTokenYet(st.buf, []);
      OnlyOpen(st);
      assert st.buf + [] == st.buf;
      RewriteDead(sub, st.buf, []);
      assert Rewrite(sub, st.buf) == st.buf + [];
    }
  }

  ghost function FeedChunks(sub: Substitution, st: Machine, chunks: seq<Bytes>): Machine
    decreases |chunks|
  {
    if chunks == [] then st else FeedChunks(sub, Feed(sub, st, chunks[0]), chunks[1..])
  }

  lemma {:induction false} ChunksAreIrrelevant(sub: Substitution, st: Machine, chunks: seq<Bytes>)
    ensures FeedChunks(sub, st, chunks) == Feed(sub, st, Concat(chunks))
    decreases |chunks|
  {
    if chunks == [] {
    } else {
      ChunksAreIrrelevant(sub, Feed(sub, st, chunks[0]), chunks[1..]);
      FeedAppend(sub, st, chunks[0], Concat(chunks[1..]));
    }
  }

  /** One chunk, written and closed, is rewritten as a whole. */
  lemma OneChunk(sub: Substitution, s: Bytes)
    ensures Closed(Feed(sub, START, s)) == Rewrite(sub, s)
  {
    FeedRefines(sub, START, s, []);
    var st := Feed(sub, START, s);
    assert [] + s + [] == s && st.buf + [] == st.buf;
    CloseRefines(sub, st);
  }

  /** Streaming refines the whole-string rewrite: for every way of cutting the input into chunks. */
  lemma StreamingIsRewriting(sub: Substitution, chunks: seq<Bytes>)
    ensures Closed(FeedChunks(sub, START, chunks)) == Rewrite(sub, Concat(chunks))
  {
    ChunksAreIrrelevant(sub, START, chunks);
    OneChunk(sub, Concat(chunks));
  }

  // ---------------------------------------------------------------- what is held back

  lemma ByteAccountedFor(st: Machine, b: Byte)
    ensures Closed(Step(map[], st, b)) == Closed(st) + [b]
  {
  }

  /** No byte is lost or invented: with nothing to substitute, delivered plus held is the input. */
  lemma {:induction false} BytesAccountedFor(p: Bytes)
    ensures Closed(Feed(map[], START, p)) == p
  {
    if p == [] {
    } else {
      BytesAccountedFor(p[..|p| - 1]);
      ByteAccountedFor(Feed(map[], START, p[..|p| - 1]), p[|p| - 1]);
      assert p == p[..|p| - 1] + [p[|p| - 1]];
    }
  }

  /** The input ends in the candidate c. */
  ghost predicate Pending(p: Bytes, c: Bytes) {
    c != [] && |c| <= |p| && p[|p| - |c|..] == c && CanGrow(c) && |c| < MAX_TOKEN_LEN
  }

  ghost predicate HoldsExactly(p: Bytes, buf: Bytes) {
    (buf != [] ==> Pending(p, buf)) && (forall c :: Pending(p, c) ==> c == buf)
  }

  lemma ShorterPending(q: Bytes, b: Byte, c: Bytes)
    requires Pending(q + [b], c)
    ensures c[|c| - 1] == b && c[..|c| - 1] + [b] == c
    ensures |c| > 1 ==> Pending(q, c[..|c| - 1])
  {
    if |c| > 1 {
      var d := c[..|c| - 1];
      var t :| IsToken(t) && c < t;
      assert IsToken(t) && d < t;
      assert q[|q| - |d|..] == d;
    }
  }

  lemma LongerPending(q: Bytes, b: Byte, d: Bytes)
    requires d == [] || Pending(q, d)
    requires CanGrow(d + [b]) && |d| + 1 < MAX_TOKEN_LEN
    ensures Pending(q + [b], d + [b])
  {
    var p, c := q + [b], d + [b];
    assert p[|p| - |c|..] == c;
  }

  lemma OpenAfterOpen(c: Bytes)
    requires c != []
    ensures !IsToken(c + [OPEN]) && !CanGrow(c + [OPEN])
  {
    var d := c + [OPEN];
    assert d[|d| - 1] == OPEN;
    if IsToken(d) {
      TokenBytes(d);
    }
    if CanGrow(d) {
      GrowingBytes(d);
    }
  }

  lemma StepHoldsPending(sub: Substitution, q: Bytes, b: Byte, st: Machine)
    requires Sound(st) && (st.buf != [] ==> Pending(q, st.buf))
    ensures var buf := Step(sub, st, b).buf; buf != [] ==> Pending(q + [b], buf)
  {
    var buf := Step(sub, st, b).buf;
    if buf == [OPEN] {
      GrowFromKind([OPEN]);
      assert [] + [OPEN] == [OPEN];
      LongerPending(q, OPEN, []);
    } else if buf != [] {
      assert buf == st.buf + [b];
      LongerPending(q, b, st.buf);
    }
  }

  lemma StepHoldsAll(sub: Substitution, q: Bytes, b: Byte, st: Machine, c: Bytes)
    requires Sound(st) && HoldsExactly(q, st.buf) && Pending(q + [b], c)
    ensures c == Step(sub, st, b).buf
  {
    ShorterPending(q, b, c);
    GrowingBytes(c);
    if |c| > 1 {
      var d := c[..|c| - 1];
      assert d == st.buf;
      if IsToken(c) { TokenCannotGrow(c); }
    } else {
      assert c == [OPEN];
      if st.buf != [] { OpenAfterOpen(st.buf); }
    }
  }

  lemma StepHolds(sub: Substitution, q: Bytes, b: Byte, st: Machine)
    requires Sound(st) && HoldsExactly(q, st.buf)
    ensures HoldsExactly(q + [b], Step(sub, st, b).buf)
  {
    StepHoldsPending(sub, q, b, st);
    forall c | Pending(q + [b], c)
      ensures c == Step(sub, st, b).buf
    {
      StepHoldsAll(sub, q, b, st, c);
    }
  }

  /** The buffer holds back exactly the candidate the input ends in, and nothing when there is none. */
  lemma {:induction false} HeldExactly(sub: Substitution, p: Bytes)
    ensures HoldsExactly(p, Feed(sub, START, p).buf)
  {
    if p == [] {
    } else {
      var q := p[..|p| - 1];
      HeldExactly(sub, q);
      FeedRefines(sub, START, q, []);
      StepHolds(sub, q, p[|p| - 1], Feed(sub, START, q));
      assert p == q + [p[|p| - 1]];
    }
  }

  // ---------------------------------------------------------------- the writer

  /** Known tokens and the JSON-escaped values that are spliced in for them. */
  ghost function Spliced(view: map<Bytes, Bytes>): Substitution {
    map t | t in view :: Escape(true, view[t])
  }

  lemma FeedNext(sub: Substitution, st: Machine, p: Bytes, i: nat)
    requires i < |p|
    ensures Feed(sub, st, p[..i + 1]) == Step(sub, Feed(sub, st, p[..i]), p[i])
  {
    assert p[..i + 1][..i] == p[..i];
  }

  lemma LooksUpNext(items: V.Store, ctx: V.Context, id: Bytes, sub: Substitution, buf: Bytes, p: Bytes, i: nat)
    requires i < |p|
    ensures V.Renewed(items, ctx, id, Completed(buf, p[..i + 1]))
         == V.Renewed(V.Renewed(items, ctx, id, Completed(buf, p[..i])), ctx, id,
                      CompletedBy(Feed(sub, Machine(buf, []), p[..i]).buf, p[i]))
  {
    assert p[..i + 1][..i] == p[..i];
    FeedHolds(sub, Machine(buf, []), p[..i]);
    V.RenewedAppend(items, ctx, id, Completed(buf, p[..i]), CompletedBy(Held(buf, p[..i]), p[i]));
  }

  /** The in-memory response writer that collects output. */
  class BufferSink {
    var data: Bytes

    constructor ()
      ensures data == []
    {
      data := [];
    }

    method Write(p: Bytes)
      modifies this
      ensures data == old(data) + p
    {
      data := data + p;
    }
  }

  class StreamingResponseWriter {
    const sink: BufferSink
    const vault: V.InMemoryVault
    const reqID: Bytes
    var buf: Bytes

    constructor (sink: BufferSink, vault: V.InMemoryVault, reqID: Bytes)
      ensures this.sink == sink && this.vault == vault && this.reqID == reqID
      ensures buf == []
    {
      this.sink := sink;
      this.vault := vault;
      this.reqID := reqID;
      buf := [];
    }

    ghost predicate Valid()
      reads this
    {
      buf == [] || (CanGrow(buf) && |buf| < MAX_TOKEN_LEN)
    }

    /** The state of the byte machine this writer implements. */
    ghost function State(): Machine
      reads this, sink
    {
      Machine(buf, sink.data)
    }

    ghost function Sub(ctx: V.Context): Substitution
      reads vault
    {
      Spliced(V.View(vault.items, ctx, reqID))
    }

    method Resolve(ctx: V.Context, token: Bytes) returns (r: Bytes)
      modifies vault
      ensures r == Subst(old(Sub(ctx)), token)
      ensures vault.items == V.RenewedOne(old(vault.items), ctx, reqID, token)
      ensures forall id :: V.View(vault.items, ctx, id) == V.View(old(vault.items), ctx, id)
    {
      var answer := vault.GetMapping(ctx, reqID, token);
      if answer.Found? {
        return Escape(true, answer.value);
      }
      return token;
    }

    /** Drains a dead candidate; only its last byte can open the next one. */
    method Release(out: Bytes) returns (out': Bytes)
      requires buf != []
      modifies this
      ensures if old(buf)[|old(buf)| - 1] == OPEN
              then buf == [OPEN] && out' == out + old(buf)[..|old(buf)| - 1]
              else buf == [] && out' == out + old(buf)
    {
      var last := |buf| - 1;
      if buf[last] == OPEN {
        out' := out + buf[..last];
        buf := [OPEN];
        return;
      }
      out' := out + buf;
      buf := [];
    }

    /** The loop body of Write: one byte of input. */
    method Accept(ctx: V.Context, b: Byte, out: Bytes) returns (out': Bytes)
      requires Valid()
      modifies this, vault
      ensures Valid()
      ensures Machine(buf, out') == Step(old(Sub(ctx)), Machine(old(buf), out), b)
      ensures vault.items == V.Renewed(old(vault.items), ctx, reqID, CompletedBy(old(buf), b))
      ensures forall id :: V.View(vault.items, ctx, id) == V.View(old(vault.items), ctx, id)
    {
      StepRefines(Sub(ctx), Machine(buf, out), b, []);
      if |buf| == 0 {
        if b == OPEN {
          buf := buf + [b];
          return out;
        } else {
          return out + [b];
        }
      }
      GrowingBytes(buf);
      buf := buf + [b];
      var state := Classify(buf);
      match state {
        case CompleteToken =>
          V.RenewedSingle(vault.items, ctx, reqID, buf);
          var value := Resolve(ctx, buf);
          out' := out + value;
          buf := [];
        case DeadToken =>
          out' := Release(out);
        case PartialToken =>
          if |buf| >= MAX_TOKEN_LEN {
            out' := out + buf;
            buf := [];
          } else {
            out' := out;
          }
      }
    }

    /**
     Writing a chunk takes the machine through its bytes and looks up the tokens completed
     there; the vault shows every request what it showed before.
     */
    method Write(ctx: V.Context, p: Bytes) returns (n: nat)
      requires Valid()
      modifies this, sink, vault
      ensures Valid() && n == |p|
      ensures State() == Feed(old(Sub(ctx)), old(State()), p)
      ensures vault.items == V.Renewed(old(vault.items), ctx, reqID, Completed(old(buf), p))
      ensures forall id :: V.View(vault.items, ctx, id) == V.View(old(vault.items), ctx, id)
    {
      ghost var sub, st0 := Sub(ctx), Machine(buf, []);
      var out: Bytes := [];
      for i := 0 to |p|
        invariant Valid() && sink.data == old(sink.data)
        invariant forall id :: V.View(vault.items, ctx, id) == V.View(old(vault.items), ctx, id)
        invariant Machine(buf, out) == Feed(sub, st0, p[..i])
        invariant vault.items == V.Renewed(old(vault.items), ctx, reqID, Completed(old(buf), p[..i]))
      {
        LooksUpNext(old(vault.items), ctx, reqID, sub, st0.buf, p, i);
        FeedNext(sub, st0, p, i);
        out := Accept(ctx, p[i], out);
      }
      assert p[..|p|] == p;
      FeedShift(sub, sink.data, st0, p);
      assert sink.data + [] == sink.data;
      if |out| > 0 {
        sink.Write(out);
      }
      n := |p|;
    }

    /** Closing delivers a candidate the stream ended in the middle of. */
    method Close()
      requires Valid()
      modifies this, sink
      ensures Valid() && State() == Machine([], Closed(old(State())))
    {
      if |buf| > 0 {
        sink.Write(buf);
        buf := [];
      } else {
        assert sink.data + buf == sink.data;
      }
    }
  }
}
