/**
 The two ways a response body is restored: in one shot, and through a reader that pulls
 from upstream only as far as it must to have something to hand back.
 */
module Demask {
  import opened ByteStrings
  import opened Rewriting
  import opened Streaming
  import V = Vault

  /** Restores a complete body in one shot. */
  method OneShot(ctx: V.Context, vault: V.InMemoryVault, reqID: Bytes, body: Bytes) returns (restored: Bytes)
    modifies vault
    ensures restored == Rewrite(Spliced(V.View(old(vault.items), ctx, reqID)), body)
    ensures vault.items == V.Renewed(old(vault.items), ctx, reqID, Completed([], body))
    ensures forall id :: V.View(vault.items, ctx, id) == V.View(old(vault.items), ctx, id)
  {
    var sink := new BufferSink();
    var w := new StreamingResponseWriter(sink, vault, reqID);
    ghost var sub := w.Sub(ctx);
    var _ := w.Write(ctx, body);
    w.Close();
    OneChunk(sub, body);
    return sink.data;
  }

  // ---------------------------------------------------------------- upstream

  datatype Ending = Eof | Broken(code: int)

  /** One upstream read: some bytes, possibly together with the end of the stream. */
  datatype Delivery = Delivery(data: Bytes, end: Option<Ending>)

  /** The source of a response body: the reads it will answer, then the end of the file. */
  class Upstream {
    var script: seq<Delivery>

    constructor (script: seq<Delivery>)
      ensures this.script == script
    {
      this.script := script;
    }

    method Read() returns (d: Delivery)
      modifies this
      ensures d == First(old(script)) && script == Later(old(script))
    {
      if |script| == 0 {
        return Delivery([], Some(Eof));
      }
      d := script[0];
      script := script[1..];
    }
  }

  function First(script: seq<Delivery>): Delivery {
    if script == [] then Delivery([], Some(Eof)) else script[0]
  }

  function Later(script: seq<Delivery>): seq<Delivery> {
    if script == [] then [] else script[1..]
  }

  /** All bytes upstream delivers up to its end, and how it ends. */
  function Body(script: seq<Delivery>): Bytes {
    if script == [] then []
    else if script[0].end.Some? then script[0].data
    else script[0].data + Body(script[1..])
  }

  function EndingOf(script: seq<Delivery>): Ending {
    if script == [] then Eof
    else if script[0].end.Some? then script[0].end.value
    else EndingOf(script[1..])
  }

  // ---------------------------------------------------------------- the reader, as a function

  datatype Reader = Reader(script: seq<Delivery>, st: Machine, drain: bool, failure: Option<int>)

  datatype Reply = Served(data: Bytes) | Ended(ending: Ending)

  function PullsLeft(r: Reader): nat { |r.script| + if r.drain then 0 else 1 }

  /** One upstream read pushed through the writer; at the end the dangling candidate is released. */
  ghost function Pull(sub: Substitution, r: Reader): (r': Reader)
    requires !r.drain
    ensures PullsLeft(r') < PullsLeft(r)
  {
    var d := First(r.script);
    var st := Feed(sub, r.st, d.data);
    if d.end.None? then Reader(Later(r.script), st, false, r.failure)
    else Reader(Later(r.script), Machine([], Closed(st)), true,
                if d.end.value.Broken? then Some(d.end.value.code) else r.failure)
  }

  ghost function Fill(sub: Substitution, r: Reader): (r': Reader)
    ensures r'.st.out != [] || r'.drain
    decreases PullsLeft(r)
  {
    if r.st.out != [] || r.drain then r else Fill(sub, Pull(sub, r))
  }

  /** The tokens looked up while the reader pulls until it has something to hand back. */
  ghost function FillTokens(sub: Substitution, r: Reader): seq<Bytes>
    decreases PullsLeft(r)
  {
    if r.st.out != [] || r.drain then []
    else Completed(r.st.buf, First(r.script).data) + FillTokens(sub, Pull(sub, r))
  }

  /** Only those tokens matter for what it then has. */
  lemma {:induction false} FillAgree(f: Substitution, g: Substitution, r: Reader)
    requires forall t | t in FillTokens(f, r) :: Subst(f, t) == Subst(g, t)
    ensures Fill(f, r) == Fill(g, r) && FillTokens(f, r) == FillTokens(g, r)
    decreases PullsLeft(r)
  {
    if r.st.out != [] || r.drain {
    } else {
      var now, later := Completed(r.st.buf, First(r.script).data), FillTokens(f, Pull(f, r));
      assert forall t | t in now :: t in now + later;
      assert forall t | t in later :: t in now + later;
      FeedAgree(f, g, r.st, First(r.script).data);
      FillAgree(f, g, Pull(f, r));
    }
  }

  function Min(a: nat, b: nat): nat { if a < b then a else b }

  /** The client asks for at most cap bytes. */
  ghost function ReadStep(sub: Substitution, r: Reader, cap: nat): (Reader, Reply) {
    var f := Fill(sub, r);
    if f.st.out != [] then
      var n := Min(cap, |f.st.out|);
      (f.(st := Machine(f.st.buf, f.st.out[n..])), Served(f.st.out[..n]))
    else if f.failure.Some? then (f.(failure := None), Ended(Broken(f.failure.value)))
    else (f, Ended(Eof))
  }

  /** What a client collects that reads with these buffer sizes until the first end it is told of. */
  ghost function Collect(sub: Substitution, r: Reader, caps: seq<nat>): (Bytes, Option<Ending>)
    decreases |caps|
  {
    if caps == [] then ([], None)
    else
      var (r', reply) := ReadStep(sub, r, caps[0]);
      match reply
      case Ended(e) => ([], Some(e))
      case Served(data) => var (more, end) := Collect(sub, r', caps[1..]); (data + more, end)
  }

  /** What the reader still owes its client: bytes, then an ending. */
  ghost function Owed(sub: Substitution, r: Reader): Bytes {
    if r.drain then r.st.out else r.st.out + Rewrite(sub, r.st.buf + Body(r.script))
  }

  function Outcome(r: Reader): Ending {
    if r.failure.Some? then Broken(r.failure.value)
    else if r.drain then Eof
    else EndingOf(r.script)
  }

  ghost predicate Running(r: Reader) {
    Sound(r.st) && (!r.drain ==> r.failure.None?) && (r.drain ==> r.st.buf == [])
  }

  /** Feeding the last chunk and closing delivers what restoring it gives. */
  lemma LastChunk(sub: Substitution, st: Machine, p: Bytes)
    requires Sound(st)
    ensures Sound(Feed(sub, st, p)) && Closed(Feed(sub, st, p)) == st.out + Rewrite(sub, st.buf + p)
  {
    FeedRefines(sub, st, p, []);
    var end := Feed(sub, st, p);
    assert st.buf + p + [] == st.buf + p && end.buf + [] == end.buf;
    CloseRefines(sub, end);
  }

  lemma PullOwes(sub: Substitution, r: Reader)
    requires Running(r) && !r.drain
    ensures Running(Pull(sub, r))
    ensures Owed(sub, Pull(sub, r)) == Owed(sub, r) && Outcome(Pull(sub, r)) == Outcome(r)
  {
    var d, later := First(r.script), Later(r.script);
    var st := Feed(sub, r.st, d.data);
    if d.end.None? {
      FeedRefines(sub, r.st, d.data, Body(later));
      Associate(r.st.buf, d.data, Body(later));
    } else {
      LastChunk(sub, r.st, d.data);
      assert Body(r.script) == d.data;
    }
  }

  lemma {:induction false} FillOwes(sub: Substitution, r: Reader)
    requires Running(r)
    ensures Running(Fill(sub, r))
    ensures Owed(sub, Fill(sub, r)) == Owed(sub, r) && Outcome(Fill(sub, r)) == Outcome(r)
    decreases PullsLeft(r)
  {
    if r.st.out != [] || r.drain {
    } else {
      PullOwes(sub, r);
      FillOwes(sub, Pull(sub, r));
    }
  }

  /** A read hands over the next bytes owed, and an end only when no byte is owed any more. */
  lemma ReadOwes(sub: Substitution, r: Reader, cap: nat)
    requires Running(r)
    ensures var (r', reply) := ReadStep(sub, r, cap);
            && Running(r')
            && (reply.Served? ==> Owed(sub, r) == reply.data + Owed(sub, r') && Outcome(r') == Outcome(r))
            && (reply.Served? ==> |reply.data| <= cap && (cap > 0 ==> reply.data != []))
            && (reply.Ended? ==> Owed(sub, r) == [] && reply.ending == Outcome(r))
  {
    FillOwes(sub, r);
    var f := Fill(sub, r);
    if f.st.out != [] {
      var n := Min(cap, |f.st.out|);
      assert f.st.out == f.st.out[..n] + f.st.out[n..];
      if !f.drain {
        var tail := Rewrite(sub, f.st.buf + Body(f.script));
        assert f.st.out[..n] + (f.st.out[n..] + tail) == f.st.out + tail;
      }
    }
  }

  lemma {:induction false} CollectOwes(sub: Substitution, r: Reader, caps: seq<nat>)
    requires Running(r)
    ensures Collect(sub, r, caps).0 <= Owed(sub, r)
    ensures Collect(sub, r, caps).1.Some? ==> Collect(sub, r, caps) == (Owed(sub, r), Some(Outcome(r)))
    ensures (forall i | 0 <= i < |caps| :: caps[i] > 0) && |caps| > |Owed(sub, r)| ==> Collect(sub, r, caps).1.Some?
    decreases |caps|
  {
    if caps == [] {
    } else {
      ReadOwes(sub, r, caps[0]);
      var (r', reply) := ReadStep(sub, r, caps[0]);
      if reply.Served? {
        CollectOwes(sub, r', caps[1..]);
      }
    }
  }

  function NewReader(script: seq<Delivery>): Reader { Reader(script, START, false, None) }

  /**
   The pull reader agrees with the one-shot restore: whatever the upstream reads and the
   client's buffer sizes, the bytes served before the end are the whole restored body, the
   end is upstream's own, and a client that asks for at least one byte at a time gets there.
   */
  lemma PullReaderIsOneShot(sub: Substitution, script: seq<Delivery>, caps: seq<nat>)
    ensures var (data, end) := Collect(sub, NewReader(script), caps);
            && data <= Rewrite(sub, Body(script))
            && (end.Some? ==> data == Rewrite(sub, Body(script)) && end.value == EndingOf(script))
            && ((forall i | 0 <= i < |caps| :: caps[i] > 0) && |caps| > |Rewrite(sub, Body(script))| ==> end.Some?)
  {
    var r := NewReader(script);
    CollectOwes(sub, r, caps);
    assert [] + Body(script) == Body(script);
    assert Owed(sub, r) == [] + Rewrite(sub, Body(script)) == Rewrite(sub, Body(script));
  }

  /**
   The failure is not sticky: it is reported once, and every read after the end says that
   the stream has ended well.
   */
  lemma FailureReportedOnce(sub: Substitution, r: Reader, cap: nat, again: nat)
    requires ReadStep(sub, r, cap).1.Ended?
    ensures ReadStep(sub, ReadStep(sub, r, cap).0, again).1 == Ended(Eof)
  {
    var f := Fill(sub, r);
    assert Fill(sub, f) == f;
  }

  /** A body of one byte whose source then breaks: served, broken, and then, wrongly, ended well. */
  lemma BrokenThenWell(sub: Substitution, code: int)
    ensures var r0 := NewReader([Delivery([0x61], None), Delivery([], Some(Broken(code)))]);
            var (r1, first) := ReadStep(sub, r0, 1);
            var (r2, second) := ReadStep(sub, r1, 1);
            first == Served([0x61]) && second == Ended(Broken(code)) && ReadStep(sub, r2, 1).1 == Ended(Eof)
  {
    var last := Delivery([], Some(Broken(code)));
    var r0 := NewReader([Delivery([0x61], None), last]);
    assert [0x61][..0] == [] && r0.script[1..] == [last] && [last][1..] == [];
    assert Feed(sub, START, [0x61]) == Machine([], [0x61]);
    var r1 := Reader([last], Machine([], [0x61]), false, None);
    assert Pull(sub, r0) == r1 && Fill(sub, r0) == r1;
    assert [0x61][1..] == [] && [0x61][..1] == [0x61];
    var r2 := Reader([last], START, false, None);
    assert ReadStep(sub, r0, 1) == (r2, Served([0x61]));
    assert Closed(START) == [];
    var r3 := Reader([], START, true, Some(code));
    assert Pull(sub, r2) == r3 && Fill(sub, r2) == Fill(sub, r3) == r3;
    FailureReportedOnce(sub, r2, 1, 1);
  }

  // ---------------------------------------------------------------- the reader

  class DemaskReader {
    const src: Upstream
    const sink: BufferSink
    const w: StreamingResponseWriter
    var drain: bool
    var readErr: Option<int>

    constructor (src: Upstream, vault: V.InMemoryVault, reqID: Bytes)
      ensures Valid() && fresh(w) && fresh(sink) && this.src == src && w.vault == vault && w.reqID == reqID
      ensures State() == NewReader(src.script)
    {
      var s := new BufferSink();
      this.src := src;
      sink := s;
      w := new StreamingResponseWriter(s, vault, reqID);
      drain := false;
      readErr := None;
    }

    ghost predicate Valid()
      reads this, w
    {
      w.sink == sink && w.Valid()
    }

    ghost function State(): Reader
      reads this, src, sink, w
    {
      Reader(src.script, Machine(w.buf, sink.data), drain, readErr)
    }

    /** Each read ends, and hands back what the reader function says. */
    method Read(ctx: V.Context, cap: nat) returns (reply: Reply)
      requires Valid()
      modifies this, src, sink, w, w.vault
      ensures Valid()
      ensures (State(), reply) == ReadStep(old(w.Sub(ctx)), old(State()), cap)
      ensures w.vault.items == V.Renewed(old(w.vault.items), ctx, w.reqID, FillTokens(old(w.Sub(ctx)), old(State())))
      ensures forall id :: V.View(w.vault.items, ctx, id) == V.View(old(w.vault.items), ctx, id)
    {
      ghost var sub := w.Sub(ctx);
      while |sink.data| == 0
        invariant Valid()
        invariant forall id :: V.View(w.vault.items, ctx, id) == V.View(old(w.vault.items), ctx, id)
        invariant Fill(sub, State()) == Fill(sub, old(State()))
        invariant V.Renewed(w.vault.items, ctx, w.reqID, FillTokens(sub, State()))
               == V.Renewed(old(w.vault.items), ctx, w.reqID, FillTokens(sub, old(State())))
        decreases PullsLeft(State())
      {
        if drain {
          if readErr.Some? {
            reply := Ended(Broken(readErr.value));
            readErr := None;
            return;
          }
          return Ended(Eof);
        }
        ghost var r := State();
        V.RenewedAppend(w.vault.items, ctx, w.reqID, Completed(r.st.buf, First(r.script).data),
            FillTokens(sub, Pull(sub, r)));
        var d := src.Read();
        if |d.data| > 0 {
          var _ := w.Write(ctx, d.data);
        }
        if d.end.Some? {
          drain := true;
          w.Close();
          if d.end.value.Broken? {
            readErr := Some(d.end.value.code);
          }
        }
        assert State() == Pull(sub, r);
      }
      var n := Min(cap, |sink.data|);
      reply := Served(sink.data[..n]);
      sink.data := sink.data[n..];
    }
  }
}
