/**
 The pull reader over any length of time: before each read of the client anything may happen
 on the shared vault, and every token pulled by the read is looked up there and renewed.
 */
module LongReads {
  import opened ByteStrings
  import opened Rewriting
  import opened Streaming
  import opened Masking
  import opened LongStreams
  import D = Demask
  import V = Vault
  import R = VaultRuns

  /** What happens on the vault before the client reads again, and how much it asks for. */
  datatype ReadCall = ReadCall(before: seq<R.Event>, cap: nat)

  function Caps(calls: seq<ReadCall>): seq<nat> {
    if calls == [] then [] else [calls[0].cap] + Caps(calls[1..])
  }

  /** The client asks for at least one byte at a time, and more often than there are bytes. */
  predicate KeepsAsking(calls: seq<ReadCall>, n: nat) {
    |calls| > n && forall i | 0 <= i < |calls| :: calls[i].cap > 0
  }

  lemma {:induction false} CapsAre(calls: seq<ReadCall>)
    ensures |Caps(calls)| == |calls| && forall i | 0 <= i < |calls| :: Caps(calls)[i] == calls[i].cap
  {
    if calls == [] {
    } else {
      CapsAre(calls[1..]);
    }
  }

  ghost predicate CallsFit(calls: seq<ReadCall>, r: Bytes, m: map<Bytes, Bytes>) {
    forall i | 0 <= i < |calls| :: AllFit(calls[i].before, r, m)
  }

  /** What a client collects from the pull reader until the first end it is told of. */
  ghost function ReadAll(w: R.World, es: seq<R.Event>, who: R.Thread, calls: seq<ReadCall>, reader: D.Reader)
    : (Bytes, Option<D.Ending>)
    decreases |calls|
  {
    if calls == [] then ([], None)
    else
      var sub := Shown(R.Run(w, es + calls[0].before), who.reqID);
      var (next, reply) := D.ReadStep(sub, reader, calls[0].cap);
      match reply
      case Ended(e) => ([], Some(e))
      case Served(data) =>
        var es1 := Visited(w, es, who, Visit(calls[0].before, D.FillTokens(sub, reader)));
        var (more, end) := ReadAll(w, es1, who, calls[1..], next);
        (data + more, end)
  }

  /** The tokens the reader looks up, read by read, while it restores by sub. */
  ghost function ReadVisits(sub: Substitution, calls: seq<ReadCall>, reader: D.Reader): seq<Visit>
    decreases |calls|
  {
    if calls == [] then []
    else
      [Visit(calls[0].before, D.FillTokens(sub, reader))]
      + ReadVisits(sub, calls[1..], D.ReadStep(sub, reader, calls[0].cap).0)
  }

  lemma ReadInTimeStep(w: R.World, es: seq<R.Event>, who: R.Thread, m: map<Bytes, Bytes>, sub: Substitution,
                       calls: seq<ReadCall>, reader: D.Reader)
    requires calls != []
    ensures var v := Visit(calls[0].before, D.FillTokens(sub, reader));
            var rest := ReadVisits(sub, calls[1..], D.ReadStep(sub, reader, calls[0].cap).0);
            InTime(w, es, who, m, ReadVisits(sub, calls, reader))
            <==> AllRecent(w, es + v.before, who.reqID, m, v.tokens) && InTime(w, Visited(w, es, who, v), who, m, rest)
  {
    var vs := ReadVisits(sub, calls, reader);
    var rest := ReadVisits(sub, calls[1..], D.ReadStep(sub, reader, calls[0].cap).0);
    assert vs[0] == Visit(calls[0].before, D.FillTokens(sub, reader)) && vs[1..] == rest;
  }

  /** While every known token that comes by is recent, the client collects what it would with the mapping in hand. */
  lemma {:induction false} ReadInTime(w: R.World, es: seq<R.Event>, who: R.Thread, m: map<Bytes, Bytes>,
                                      calls: seq<ReadCall>, reader: D.Reader)
    requires Filed(R.Run(w, es), who.reqID, m) && CallsFit(calls, who.reqID, m)
    requires InTime(w, es, who, m, ReadVisits(Spliced(m), calls, reader))
    ensures ReadAll(w, es, who, calls, reader) == D.Collect(Spliced(m), reader, Caps(calls))
    decreases |calls|
  {
    if calls == [] {
    } else {
      var v := Visit(calls[0].before, D.FillTokens(Spliced(m), reader));
      var sub := Shown(R.Run(w, es + v.before), who.reqID);
      VisitFiled(w, es, who, m, v);
      ReadInTimeStep(w, es, who, m, Spliced(m), calls, reader);
      ShownAgrees(w, es + v.before, who.reqID, m, v.tokens);
      StepsAgree(Spliced(m), sub, reader, calls[0].cap);
      var next := D.ReadStep(Spliced(m), reader, calls[0].cap).0;
      ReadInTime(w, Visited(w, es, who, v), who, m, calls[1..], next);
      assert Caps(calls)[0] == calls[0].cap && Caps(calls)[1..] == Caps(calls[1..]);
    }
  }

  lemma StepsAgree(f: Substitution, g: Substitution, reader: D.Reader, cap: nat)
    requires forall t | t in D.FillTokens(f, reader) :: Subst(f, t) == Subst(g, t)
    ensures D.ReadStep(f, reader, cap) == D.ReadStep(g, reader, cap)
    ensures D.FillTokens(f, reader) == D.FillTokens(g, reader)
  {
    D.FillAgree(f, g, reader);
  }

  // ---------------------------------------------------------------- what the reader object does

  /**
   One read of the reader object, at the moment when the vault has come through the run so
   far: it takes the step of ReadAll, and leaves the vault as the history after the visit does.
   */
  method ReadAt(reader: D.DemaskReader, now: int, call: ReadCall, ghost w: R.World, ghost es: seq<R.Event>,
                ghost who: R.Thread)
    returns (reply: D.Reply)
    requires reader.Valid() && who.reqID == reader.w.reqID
    requires var here := R.Run(w, es + call.before); now == here.now && reader.w.vault.items == here.items
    modifies reader, reader.src, reader.sink, reader.w, reader.w.vault
    ensures reader.Valid()
    ensures var sub := Shown(R.Run(w, es + call.before), who.reqID);
            var v := Visit(call.before, D.FillTokens(sub, old(reader.State())));
            && (reader.State(), reply) == D.ReadStep(sub, old(reader.State()), call.cap)
            && reader.w.vault.items == R.Run(w, Visited(w, es, who, v)).items
  {
    ghost var here := R.Run(w, es + call.before);
    ghost var tokens := D.FillTokens(Shown(here, who.reqID), reader.State());
    reply := reader.Read(V.Context(now, false), call.cap);
    R.RunAppend(w, es + call.before, Lookups(here, who, tokens));
    LookupsRenew(here, who, tokens);
  }

  /** The time and the store at the moment of a read. */
  datatype Moment = Moment(now: int, items: V.Store)

  /** The moments of the reads, as the surroundings and the reads before leave them. */
  ghost function Moments(w: R.World, es: seq<R.Event>, who: R.Thread, calls: seq<ReadCall>, reader: D.Reader)
    : (ms: seq<Moment>)
    ensures |ms| == |calls|
    decreases |calls|
  {
    if calls == [] then []
    else
      var here := R.Run(w, es + calls[0].before);
      var sub := Shown(here, who.reqID);
      var es1 := Visited(w, es, who, Visit(calls[0].before, D.FillTokens(sub, reader)));
      [Moment(here.now, here.items)] + Moments(w, es1, who, calls[1..], D.ReadStep(sub, reader, calls[0].cap).0)
  }

  /** A client that reads until it is told of an end; before each read the vault becomes what it is by then. */
  method Client(reader: D.DemaskReader, calls: seq<ReadCall>, moments: seq<Moment>,
                ghost w: R.World, ghost es: seq<R.Event>, ghost who: R.Thread)
    returns (data: Bytes, end: Option<D.Ending>)
    requires reader.Valid() && who.reqID == reader.w.reqID
    requires moments == Moments(w, es, who, calls, reader.State())
    modifies reader, reader.src, reader.sink, reader.w, reader.w.vault
    ensures (data, end) == ReadAll(w, es, who, calls, old(reader.State()))
    decreases |calls|
  {
    if |calls| == 0 {
      return [], None;
    }
    ghost var sub := Shown(R.Run(w, es + calls[0].before), who.reqID);
    ghost var v := Visit(calls[0].before, D.FillTokens(sub, reader.State()));
    reader.w.vault.items := moments[0].items;
    var reply := ReadAt(reader, moments[0].now, calls[0], w, es, who);
    match reply {
      case Ended(e) =>
        return [], Some(e);
      case Served(got) =>
        var more;
        more, end := Client(reader, calls[1..], moments[1..], w, Visited(w, es, who, v), who);
        data := got + more;
    }
  }

  // ---------------------------------------------------------------- too late

  /** A client that reads on to the end gets all that the reader has ready now. */
  lemma {:induction false} ReadingDelivers(w: R.World, es: seq<R.Event>, who: R.Thread, calls: seq<ReadCall>,
                                           reader: D.Reader)
    requires calls != [] && ReadAll(w, es, who, calls, reader).1.Some?
    ensures D.Fill(Shown(R.Run(w, es + calls[0].before), who.reqID), reader).st.out
         <= ReadAll(w, es, who, calls, reader).0
    decreases |calls|
  {
    var sub := Shown(R.Run(w, es + calls[0].before), who.reqID);
    var (next, reply) := D.ReadStep(sub, reader, calls[0].cap);
    if reply.Served? {
      var out := D.Fill(sub, reader).st.out;
      var es1 := Visited(w, es, who, Visit(calls[0].before, D.FillTokens(sub, reader)));
      if calls[1..] == [] { assert false; }
      ReadingDelivers(w, es1, who, calls[1..], next);
      ReadyStays(Shown(R.Run(w, es1 + calls[1..][0].before), who.reqID), next);
      assert out == reply.data + next.st.out;
    }
  }

  lemma ReadyStays(sub: Substitution, reader: D.Reader)
    ensures reader.st.out <= D.Fill(sub, reader).st.out
  {
  }

  lemma OwedStarts(sub: Substitution, reader: D.Reader)
    requires D.Running(reader)
    ensures D.Fill(sub, reader).st.out <= D.Owed(sub, reader)
  {
    D.FillOwes(sub, reader);
  }

  /** A token left alone makes what the reader has ready differ. */
  lemma {:induction false} FillDiffers(f: Substitution, g: Substitution, r: D.Reader)
    requires forall t | t in D.FillTokens(g, r) :: AgreeOrLeave(f, g, t)
    requires exists t :: t in D.FillTokens(g, r) && Leaves(f, g, t)
    ensures Differ(D.Fill(f, r).st.out, D.Fill(g, r).st.out)
    decreases D.PullsLeft(r)
  {
    var data := D.First(r.script).data;
    var now, later := Completed(r.st.buf, data), D.FillTokens(g, D.Pull(g, r));
    assert forall t | t in now :: t in now + later;
    assert forall t | t in later :: t in now + later;
    if exists t :: t in now && Leaves(f, g, t) {
      PullDiffers(f, g, r);
    } else {
      assert forall t | t in now :: Subst(f, t) == Subst(g, t);
      FeedAgree(f, g, r.st, data);
      assert D.Pull(f, r) == D.Pull(g, r);
      FillDiffers(f, g, D.Pull(g, r));
    }
  }

  lemma PullDiffers(f: Substitution, g: Substitution, r: D.Reader)
    requires r.st.out == [] && !r.drain
    requires forall t | t in Completed(r.st.buf, D.First(r.script).data) :: AgreeOrLeave(f, g, t)
    requires exists t :: t in Completed(r.st.buf, D.First(r.script).data) && Leaves(f, g, t)
    ensures Differ(D.Fill(f, r).st.out, D.Fill(g, r).st.out)
  {
    var data := D.First(r.script).data;
    FeedDiffers(f, g, r.st, data);
    DifferLater(Feed(f, r.st, data).out, Feed(g, r.st, data).out, D.Pull(f, r).st.out, D.Pull(g, r).st.out);
    var i :| DifferAt(D.Pull(f, r).st.out, D.Pull(g, r).st.out, i);
    ReadyAlready(f, D.Pull(f, r));
    ReadyAlready(g, D.Pull(g, r));
  }

  lemma ReadyAlready(sub: Substitution, r: D.Reader)
    requires r.st.out != []
    ensures D.Fill(sub, r) == r
  {
  }

  /** A reader that has seen the end looks up nothing more. */
  lemma {:induction false} DrainedInTime(w: R.World, es: seq<R.Event>, who: R.Thread, m: map<Bytes, Bytes>,
                                         sub: Substitution,
                                         calls: seq<ReadCall>, reader: D.Reader)
    requires reader.drain
    ensures InTime(w, es, who, m, ReadVisits(sub, calls, reader))
    decreases |calls|
  {
    if calls == [] {
    } else {
      var next := D.ReadStep(sub, reader, calls[0].cap).0;
      var vs := ReadVisits(sub, calls, reader);
      assert vs[0].tokens == [] && vs[1..] == ReadVisits(sub, calls[1..], next);
      DrainedInTime(w, Visited(w, es, who, vs[0]), who, m, sub, calls[1..], next);
    }
  }

  lemma DifferAfter(a: Bytes, b: Bytes, c: Bytes)
    requires Differ(b, c)
    ensures Differ(a + b, a + c)
  {
    var i :| DifferAt(b, c, i);
    assert DifferAt(a + b, a + c, |a| + i);
  }

  lemma LateFill(w: R.World, es: seq<R.Event>, r: Bytes, m: map<Bytes, Bytes>, reader: D.Reader)
    requires Filed(R.Run(w, es), r, m) && Blunt(m)
    requires !AllRecent(w, es, r, m, D.FillTokens(Spliced(m), reader))
    ensures Differ(D.Fill(Shown(R.Run(w, es), r), reader).st.out, D.Fill(Spliced(m), reader).st.out)
  {
    var sub, tokens := Shown(R.Run(w, es), r), D.FillTokens(Spliced(m), reader);
    forall t | t in tokens
      ensures AgreeOrLeave(sub, Spliced(m), t)
      ensures t in m && !Recent(w, es, r, t) ==> Leaves(sub, Spliced(m), t)
    {
      LateLeaves(w, es, r, m, t);
    }
    FillDiffers(sub, Spliced(m), reader);
  }

  /** The read that comes too late makes what the client collects differ. */
  lemma LateNow(w: R.World, es: seq<R.Event>, who: R.Thread, m: map<Bytes, Bytes>,
                calls: seq<ReadCall>, reader: D.Reader)
    requires calls != [] && Blunt(m) && D.Running(reader)
    requires var now := es + calls[0].before;
             && Filed(R.Run(w, now), who.reqID, m)
             && !AllRecent(w, now, who.reqID, m, D.FillTokens(Spliced(m), reader))
    requires ReadAll(w, es, who, calls, reader).1.Some?
    ensures Differ(ReadAll(w, es, who, calls, reader).0, D.Owed(Spliced(m), reader))
  {
    var sub := Shown(R.Run(w, es + calls[0].before), who.reqID);
    LateFill(w, es + calls[0].before, who.reqID, m, reader);
    ReadingDelivers(w, es, who, calls, reader);
    OwedStarts(Spliced(m), reader);
    DifferLater(D.Fill(sub, reader).st.out, D.Fill(Spliced(m), reader).st.out,
                ReadAll(w, es, who, calls, reader).0, D.Owed(Spliced(m), reader));
  }

  /** A read in time, after which some later one is too late. */
  lemma LateNext(w: R.World, es: seq<R.Event>, who: R.Thread, m: map<Bytes, Bytes>,
                 calls: seq<ReadCall>, reader: D.Reader)
    requires calls != [] && Filed(R.Run(w, es + calls[0].before), who.reqID, m)
    requires !InTime(w, es, who, m, ReadVisits(Spliced(m), calls, reader))
    requires AllRecent(w, es + calls[0].before, who.reqID, m, D.FillTokens(Spliced(m), reader))
    ensures var v := Visit(calls[0].before, D.FillTokens(Spliced(m), reader));
            var (next, reply) := D.ReadStep(Spliced(m), reader, calls[0].cap);
            && reply.Served?
            && !InTime(w, Visited(w, es, who, v), who, m, ReadVisits(Spliced(m), calls[1..], next))
            && ReadAll(w, es, who, calls, reader).0
               == reply.data + ReadAll(w, Visited(w, es, who, v), who, calls[1..], next).0
            && ReadAll(w, es, who, calls, reader).1 == ReadAll(w, Visited(w, es, who, v), who, calls[1..], next).1
  {
    var g, v := Spliced(m), Visit(calls[0].before, D.FillTokens(Spliced(m), reader));
    ReadInTimeStep(w, es, who, m, g, calls, reader);
    ShownAgrees(w, es + v.before, who.reqID, m, v.tokens);
    StepsAgree(g, Shown(R.Run(w, es + v.before), who.reqID), reader, calls[0].cap);
    if D.ReadStep(g, reader, calls[0].cap).1.Ended? {
      DrainedInTime(w, Visited(w, es, who, v), who, m, g, calls[1..], D.ReadStep(g, reader, calls[0].cap).0);
    }
  }

  /** If a known token comes by too late, a client that reads to the end gets something else. */
  lemma {:induction false} ReadLate(w: R.World, es: seq<R.Event>, who: R.Thread, m: map<Bytes, Bytes>,
                                    calls: seq<ReadCall>, reader: D.Reader)
    requires Filed(R.Run(w, es), who.reqID, m) && CallsFit(calls, who.reqID, m) && Blunt(m) && D.Running(reader)
    requires !InTime(w, es, who, m, ReadVisits(Spliced(m), calls, reader)) && ReadAll(w, es, who, calls, reader).1.Some?
    ensures Differ(ReadAll(w, es, who, calls, reader).0, D.Owed(Spliced(m), reader))
    decreases |calls|
  {
    var v := Visit(calls[0].before, D.FillTokens(Spliced(m), reader));
    VisitFiled(w, es, who, m, v);
    if AllRecent(w, es + v.before, who.reqID, m, v.tokens) {
      var (next, reply) := D.ReadStep(Spliced(m), reader, calls[0].cap);
      LateNext(w, es, who, m, calls, reader);
      D.ReadOwes(Spliced(m), reader, calls[0].cap);
      ReadLate(w, Visited(w, es, who, v), who, m, calls[1..], next);
      DifferAfter(reply.data, ReadAll(w, Visited(w, es, who, v), who, calls[1..], next).0, D.Owed(Spliced(m), next));
    } else {
      LateNow(w, es, who, m, calls, reader);
    }
  }

  lemma ReadTooLate(w: R.World, es: seq<R.Event>, who: R.Thread, m: map<Bytes, Bytes>,
                    calls: seq<ReadCall>, script: seq<D.Delivery>)
    requires Filed(R.Run(w, es), who.reqID, m) && CallsFit(calls, who.reqID, m) && Blunt(m)
    requires !InTime(w, es, who, m, ReadVisits(Spliced(m), calls, D.NewReader(script)))
    requires ReadAll(w, es, who, calls, D.NewReader(script)).1.Some?
    ensures ReadAll(w, es, who, calls, D.NewReader(script)).0 != Rewrite(Spliced(m), D.Body(script))
  {
    var reader, g := D.NewReader(script), Spliced(m);
    ReadLate(w, es, who, m, calls, reader);
    assert [] + D.Body(script) == D.Body(script);
    assert D.Owed(g, reader) == [] + Rewrite(g, D.Body(script)) == Rewrite(g, D.Body(script));
    var i :| DifferAt(ReadAll(w, es, who, calls, reader).0, D.Owed(g, reader), i);
  }

  /**
   The pull reader over the shared vault: whatever the upstream reads, the client's buffer
   sizes and the time between reads, a client that reads to the end gets the body restored
   by the filed mapping, and upstream's ending, if every known token that comes by is
   recent, and, when no masked value starts with `[`, only then. In time, it gets to the end
   if it keeps asking.
   */
  lemma ReadRestoredIffInTime(w: R.World, es: seq<R.Event>, who: R.Thread, m: map<Bytes, Bytes>,
                              calls: seq<ReadCall>, script: seq<D.Delivery>)
    requires Filed(R.Run(w, es), who.reqID, m) && CallsFit(calls, who.reqID, m)
    ensures var (data, end) := ReadAll(w, es, who, calls, D.NewReader(script));
            var timely := InTime(w, es, who, m, ReadVisits(Spliced(m), calls, D.NewReader(script)));
            && (timely ==> data <= Rewrite(Spliced(m), D.Body(script)))
            && (timely && end.Some? ==> data == Rewrite(Spliced(m), D.Body(script)) && end.value == D.EndingOf(script))
            && (timely && KeepsAsking(calls, |Rewrite(Spliced(m), D.Body(script))|) ==> end.Some?)
            && (Blunt(m) && end.Some? ==> (data == Rewrite(Spliced(m), D.Body(script)) <==> timely))
  {
    if InTime(w, es, who, m, ReadVisits(Spliced(m), calls, D.NewReader(script))) {
      ReadInTime(w, es, who, m, calls, D.NewReader(script));
      CapsAre(calls);
      D.PullReaderIsOneShot(Spliced(m), script, Caps(calls));
    } else if Blunt(m) && ReadAll(w, es, who, calls, D.NewReader(script)).1.Some? {
      ReadTooLate(w, es, who, m, calls, script);
    }
  }
}
