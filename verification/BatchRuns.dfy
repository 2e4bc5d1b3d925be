/**
 The sidecar's worker over whole runs: jobs arrive in any order, the worker takes batches at
 any moment, and the model may raise or miscount.
 */
module BatchRuns {
  import opened ByteStrings
  import opened Batching

  /** A job arrives, or the worker takes the first n queued jobs and flushes them. */
  datatype Event = Arrive(job: Job) | Cut(n: nat)

  datatype Engine<F> = Engine(queue: seq<Job>, futures: Futures<F>)

  function Take(n: nat, queue: seq<Job>): nat { if n <= |queue| then n else |queue| }

  function QueueAfter(queue: seq<Job>, event: Event): seq<Job> {
    match event
    case Arrive(job) => queue + [job]
    case Cut(n) => queue[Take(n, queue)..]
  }

  function Advance<F>(model: Model<F>, e: Engine<F>, event: Event): Engine<F> {
    var queue := QueueAfter(e.queue, event);
    match event
    case Arrive(job) => e.(queue := queue)
    case Cut(n) => Engine(queue, Flushed(model, e.futures, e.queue[..Take(n, e.queue)]))
  }

  function Run<F>(model: Model<F>, e: Engine<F>, events: seq<Event>): Engine<F>
    decreases |events|
  {
    if events == [] then e else Run(model, Advance(model, e, events[0]), events[1..])
  }

  function Arrivals(events: seq<Event>): seq<Job> {
    if events == [] then []
    else if events[0].Arrive? then [events[0].job] + Arrivals(events[1..])
    else Arrivals(events[1..])
  }

  /** The batch the event takes off the queue, if it does. */
  function CutOff(queue: seq<Job>, event: Event): seq<seq<Job>> {
    match event
    case Arrive(job) => []
    case Cut(n) => [queue[..Take(n, queue)]]
  }

  /** The batches of a run, in the order in which they are flushed. */
  function Batches(queue: seq<Job>, events: seq<Event>): seq<seq<Job>>
    decreases |events|
  {
    if events == [] then []
    else CutOff(queue, events[0]) + Batches(QueueAfter(queue, events[0]), events[1..])
  }

  ghost predicate Share<F>(model: Model<F>, peers: seq<Job>, job: Job, j: nat, outcome: Outcome<F>) {
    j < |peers| && peers[j] == job && ToldFrom(Infer(model, Texts(peers), job.key), |peers|, j, outcome)
  }

  /** The job's future holds its share of the reply to its own group in the batch. */
  ghost predicate Told<F>(model: Model<F>, batch: seq<Job>, job: Job, futures: Futures<F>) {
    job.id in futures && exists j: nat :: Share(model, Peers(batch, job.key), job, j, futures[job.id])
  }

  ghost predicate AllTold<F>(model: Model<F>, batches: seq<seq<Job>>, futures: Futures<F>) {
    forall batch, job | batch in batches && job in batch :: Told(model, batch, job, futures)
  }

  /**
   The jobs that have arrived are those of the batches flushed so far, in order, and then
   those that wait; each flushed job has been told its share of the reply to its own group in
   its own batch, whatever that is, and no other future is set.
   */
  ghost predicate InOrder<F>(model: Model<F>, e: Engine<F>, log: seq<Job>, batches: seq<seq<Job>>) {
    && log == Concat(batches) + e.queue
    && AllTold(model, batches, e.futures)
    && forall id | id in e.futures :: HasId(Concat(batches), id)
  }

  lemma IdsApart(a: seq<Job>, b: seq<Job>, id: nat)
    requires DistinctIds(a + b) && HasId(a, id)
    ensures !HasId(b, id)
  {
    var i :| 0 <= i < |a| && a[i].id == id;
    assert (a + b)[i] == a[i];
    assert forall j | 0 <= j < |b| :: (a + b)[|a| + j] == b[j];
  }

  lemma EitherId(a: seq<Job>, b: seq<Job>, id: nat)
    ensures HasId(a + b, id) <==> HasId(a, id) || HasId(b, id)
  {
    var c := a + b;
    assert forall i | 0 <= i < |a| :: c[i] == a[i];
    assert forall j | 0 <= j < |b| :: c[|a| + j] == b[j];
  }

  /** The first queued jobs are distinct, and none of them has been flushed. */
  lemma BatchOf<F>(model: Model<F>, e: Engine<F>, log: seq<Job>, batches: seq<seq<Job>>, k: nat)
    requires DistinctIds(log) && InOrder(model, e, log, batches) && k <= |e.queue|
    ensures DistinctIds(e.queue[..k])
    ensures forall id | HasId(Concat(batches), id) :: !HasId(e.queue[..k], id)
  {
    var flushed := Concat(batches);
    assert forall i | 0 <= i < k :: e.queue[..k][i] == log[|flushed| + i];
    forall id | HasId(flushed, id)
      ensures !HasId(e.queue[..k], id)
    {
      IdsApart(flushed, e.queue, id);
    }
  }

  lemma {:induction false} FlushedIds(batches: seq<seq<Job>>, batch: seq<Job>, job: Job)
    requires batch in batches && job in batch
    ensures HasId(Concat(batches), job.id)
  {
    EitherId(batches[0], Concat(batches[1..]), job.id);
    if batch == batches[0] {
      var i :| 0 <= i < |batch| && batch[i] == job;
      assert HasId(batch, job.id);
    } else {
      FlushedIds(batches[1..], batch, job);
    }
  }

  /** A flush tells each job of the batch its share. */
  lemma FlushShares<F>(model: Model<F>, futures: Futures<F>, batch: seq<Job>, job: Job)
    requires DistinctIds(batch) && job in batch
    ensures Told(model, batch, job, Flushed(model, futures, batch))
  {
    PeersMembers(batch, job.key);
    FlushTells(model, futures, batch);
    var ps := Peers(batch, job.key);
    var j :| 0 <= j < |ps| && ps[j] == job;
    assert Share(model, ps, job, j, Flushed(model, futures, batch)[job.id]);
  }

  /** A flush of other jobs leaves a job told. */
  lemma StaysTold<F>(model: Model<F>, futures: Futures<F>, next: seq<Job>, batch: seq<Job>, job: Job)
    requires DistinctIds(next) && !HasId(next, job.id) && Told(model, batch, job, futures)
    ensures Told(model, batch, job, Flushed(model, futures, next))
  {
    FlushTells(model, futures, next);
  }

  lemma CutTells<F>(model: Model<F>, e: Engine<F>, log: seq<Job>, batches: seq<seq<Job>>, k: nat)
    requires DistinctIds(log) && InOrder(model, e, log, batches) && k <= |e.queue|
    ensures AllTold(model, batches + [e.queue[..k]], Flushed(model, e.futures, e.queue[..k]))
  {
    var next := e.queue[..k];
    BatchOf(model, e, log, batches, k);
    forall batch, job | batch in batches + [next] && job in batch
      ensures Told(model, batch, job, Flushed(model, e.futures, next))
    {
      if batch in batches {
        FlushedIds(batches, batch, job);
        StaysTold(model, e.futures, next, batch, job);
      } else {
        FlushShares(model, e.futures, next, job);
      }
    }
  }

  lemma CutIds<F>(model: Model<F>, e: Engine<F>, log: seq<Job>, batches: seq<seq<Job>>, k: nat)
    requires DistinctIds(log) && InOrder(model, e, log, batches) && k <= |e.queue|
    ensures forall id | id in Flushed(model, e.futures, e.queue[..k]) :: HasId(Concat(batches) + e.queue[..k], id)
  {
    BatchOf(model, e, log, batches, k);
    FlushTells(model, e.futures, e.queue[..k]);
    forall id | id in Flushed(model, e.futures, e.queue[..k])
      ensures HasId(Concat(batches) + e.queue[..k], id)
    {
      EitherId(Concat(batches), e.queue[..k], id);
    }
  }

  lemma CutInOrder<F>(model: Model<F>, e: Engine<F>, log: seq<Job>, batches: seq<seq<Job>>, n: nat)
    requires DistinctIds(log) && InOrder(model, e, log, batches)
    ensures InOrder(model, Advance(model, e, Cut(n)), log, batches + CutOff(e.queue, Cut(n)))
  {
    var k := Take(n, e.queue);
    CutTells(model, e, log, batches, k);
    CutIds(model, e, log, batches, k);
    ConcatMore(batches, e.queue[..k]);
    assert e.queue == e.queue[..k] + e.queue[k..];
    Associate(Concat(batches), e.queue[..k], e.queue[k..]);
  }

  lemma ArriveInOrder<F>(model: Model<F>, e: Engine<F>, log: seq<Job>, batches: seq<seq<Job>>, job: Job)
    requires InOrder(model, e, log, batches)
    ensures InOrder(model, Advance(model, e, Arrive(job)), log + [job], batches)
  {
    Associate(Concat(batches), e.queue, [job]);
  }

  /** The jobs that have arrived once the event has happened. */
  function LogAfter(log: seq<Job>, event: Event): seq<Job> {
    if event.Arrive? then log + [event.job] else log
  }

  lemma LogStep(log: seq<Job>, events: seq<Event>)
    requires events != []
    ensures LogAfter(log, events[0]) + Arrivals(events[1..]) == log + Arrivals(events)
  {
    if events[0].Arrive? { Associate(log, [events[0].job], Arrivals(events[1..])); }
  }

  lemma NewIds(log: seq<Job>, events: seq<Event>)
    requires events != [] && DistinctIds(log + Arrivals(events))
    ensures DistinctIds(log) && (events[0].Arrive? ==> !HasId(log, events[0].job.id))
  {
    var all := log + Arrivals(events);
    assert forall i | 0 <= i < |log| :: all[i] == log[i];
    assert events[0].Arrive? ==> all[|log|] == events[0].job;
  }

  lemma StepInOrder<F>(model: Model<F>, e: Engine<F>, log: seq<Job>, batches: seq<seq<Job>>, event: Event)
    requires DistinctIds(log) && InOrder(model, e, log, batches)
    ensures InOrder(model, Advance(model, e, event), LogAfter(log, event), batches + CutOff(e.queue, event))
  {
    match event
    case Arrive(job) =>
      ArriveInOrder(model, e, log, batches, job);
      assert batches + [] == batches;
    case Cut(n) =>
      CutInOrder(model, e, log, batches, n);
  }

  lemma {:induction false} RunInOrder<F>(model: Model<F>, e: Engine<F>, events: seq<Event>,
                                         log: seq<Job>, batches: seq<seq<Job>>)
    requires InOrder(model, e, log, batches) && DistinctIds(log + Arrivals(events))
    ensures InOrder(model, Run(model, e, events), log + Arrivals(events), batches + Batches(e.queue, events))
    decreases |events|
  {
    if events == [] {
      assert log + [] == log && batches + [] == batches;
    } else {
      var event := events[0];
      LogStep(log, events);
      NewIds(log, events);
      StepInOrder(model, e, log, batches, event);
      Associate(batches, CutOff(e.queue, event), Batches(QueueAfter(e.queue, event), events[1..]));
      RunInOrder(model, Advance(model, e, event), events[1..], LogAfter(log, event), batches + CutOff(e.queue, event));
    }
  }

  function NewEngine<F>(): Engine<F> { Engine([], map[]) }

  /** The futures of the first queued jobs are still to be set. */
  lemma BatchUnset<F>(model: Model<F>, e: Engine<F>, log: seq<Job>, batches: seq<seq<Job>>, k: nat)
    requires DistinctIds(log) && InOrder(model, e, log, batches) && k <= |e.queue|
    ensures DistinctIds(e.queue[..k]) && Unset(e.futures, e.queue[..k])
  {
    BatchOf(model, e, log, batches, k);
    forall i | 0 <= i < k
      ensures e.queue[..k][i].id !in e.futures
    {
      assert HasId(e.queue[..k], e.queue[..k][i].id);
    }
  }

  /**
   Batching over whole runs, for every model, failing ones included: for any order of
   arrivals and any cuts, the arrivals are the run's batches in order and then the jobs that
   wait, and each job of a batch holds its share of the reply to the jobs of that batch with
   its labels and threshold.
   */
  lemma RunSettles<F>(model: Model<F>, events: seq<Event>)
    requires DistinctIds(Arrivals(events))
    ensures InOrder(model, Run(model, NewEngine(), events), Arrivals(events), Batches([], events))
  {
    assert [] + Arrivals(events) == Arrivals(events);
    assert [] + Batches([], events) == Batches([], events);
    RunInOrder(model, NewEngine(), events, [], []);
  }

  /** A job gets the answer for its own text if no job of its group raises. */
  lemma ToldAnswer<F>(model: Model<F>, batch: seq<Job>, job: Job, futures: Futures<F>)
    requires Pointwise(model) && Told(model, batch, job, futures)
    requires forall p | p in batch && p.key == job.key :: model.one(p.text, p.key).Found?
    ensures Answered(model, job, futures)
  {
    var ps := Peers(batch, job.key);
    PeersMembers(batch, job.key);
    var j: nat :| Share(model, ps, job, j, futures[job.id]);
    forall x | 0 <= x < |ps|
      ensures model.one(Texts(ps)[x], job.key).Found?
    {
      assert ps[x] in ps;
    }
    InferEachFinds(model, Texts(ps), job.key);
    assert Infer(model, Texts(ps), job.key) == InferEach(model, Texts(ps), job.key);
  }

  /**
   Batching is transparent, job by job: a job of one of the run's batches holds the model's
   answer for its own text, labels and threshold if no job of its group in that batch raises,
   whatever happens to all other jobs.
   */
  lemma RunTransparent<F>(model: Model<F>, events: seq<Event>, batch: seq<Job>, job: Job)
    requires Pointwise(model) && DistinctIds(Arrivals(events))
    requires batch in Batches([], events) && job in batch
    requires forall p | p in batch && p.key == job.key :: model.one(p.text, p.key).Found?
    ensures Answered(model, job, Run(model, NewEngine(), events).futures)
  {
    RunSettles(model, events);
    ToldAnswer(model, batch, job, Run(model, NewEngine(), events).futures);
  }

  lemma StepKeepsOutcomes<F>(model: Model<F>, e: Engine<F>, log: seq<Job>, batches: seq<seq<Job>>, event: Event)
    requires DistinctIds(log) && InOrder(model, e, log, batches)
    ensures forall id | id in e.futures ::
              id in Advance(model, e, event).futures && Advance(model, e, event).futures[id] == e.futures[id]
  {
    if event.Cut? {
      var k := Take(event.n, e.queue);
      BatchOf(model, e, log, batches, k);
      FlushTells(model, e.futures, e.queue[..k]);
    }
  }

  /** Each future is completed once: what a job has been told stays so in every continuation of the run. */
  lemma {:induction false} OutcomesStay<F>(model: Model<F>, e: Engine<F>, events: seq<Event>,
                                           log: seq<Job>, batches: seq<seq<Job>>)
    requires InOrder(model, e, log, batches) && DistinctIds(log + Arrivals(events))
    ensures forall id | id in e.futures ::
              id in Run(model, e, events).futures && Run(model, e, events).futures[id] == e.futures[id]
    decreases |events|
  {
    if events == [] {
    } else {
      var event := events[0];
      LogStep(log, events);
      NewIds(log, events);
      StepInOrder(model, e, log, batches, event);
      StepKeepsOutcomes(model, e, log, batches, event);
      OutcomesStay(model, Advance(model, e, event), events[1..], LogAfter(log, event),
          batches + CutOff(e.queue, event));
    }
  }

  /** The two engines have told the jobs with this key the same. */
  ghost predicate SameFor<F>(f: Futures<F>, g: Futures<F>, log: seq<Job>, key: Key) {
    forall i | 0 <= i < |log| && log[i].key == key ::
      (log[i].id in f <==> log[i].id in g) && (log[i].id in f ==> f[log[i].id] == g[log[i].id])
  }

  lemma CutSameFor<F>(m1: Model<F>, m2: Model<F>, f: Futures<F>, g: Futures<F>, batch: seq<Job>, log: seq<Job>,
                      key: Key)
    requires DistinctIds(log) && DistinctIds(batch) && (forall p | p in batch :: p in log) && SameFor(f, g, log, key)
    requires forall texts :: Infer(m1, texts, key) == Infer(m2, texts, key)
    ensures SameFor(Flushed(m1, f, batch), Flushed(m2, g, batch), log, key)
  {
    FlushTells(m1, f, batch);
    FlushTells(m2, g, batch);
    forall i | 0 <= i < |log| && log[i].key == key
      ensures var f1, g1, id := Flushed(m1, f, batch), Flushed(m2, g, batch), log[i].id;
              (id in f1 <==> id in g1) && (id in f1 ==> f1[id] == g1[id])
    {
      if HasId(batch, log[i].id) {
        var x :| 0 <= x < |batch| && batch[x].id == log[i].id;
        assert batch[x] in batch;
        SameIdSameJob(log, batch[x], log[i]);
        FailuresContained(m1, m2, f, g, batch, log[i]);
      }
    }
  }

  lemma {:induction false} RunSameFor<F>(m1: Model<F>, m2: Model<F>, e1: Engine<F>, e2: Engine<F>, events: seq<Event>,
                                         log: seq<Job>, batches: seq<seq<Job>>, key: Key)
    requires DistinctIds(log + Arrivals(events)) && e1.queue == e2.queue
    requires InOrder(m1, e1, log, batches) && InOrder(m2, e2, log, batches)
    requires SameFor(e1.futures, e2.futures, log, key)
    requires forall texts :: Infer(m1, texts, key) == Infer(m2, texts, key)
    ensures Run(m1, e1, events).queue == Run(m2, e2, events).queue
    ensures SameFor(Run(m1, e1, events).futures, Run(m2, e2, events).futures, log + Arrivals(events), key)
    decreases |events|
  {
    if events == [] {
      assert log + [] == log;
    } else {
      var event, cut := events[0], batches + CutOff(e1.queue, events[0]);
      LogStep(log, events);
      NewIds(log, events);
      StepInOrder(m1, e1, log, batches, event);
      StepInOrder(m2, e2, log, batches, event);
      StepSameFor(m1, m2, e1, e2, event, log, batches, key);
      RunSameFor(m1, m2, Advance(m1, e1, event), Advance(m2, e2, event), events[1..], LogAfter(log, event), cut, key);
    }
  }

  lemma StepSameFor<F>(m1: Model<F>, m2: Model<F>, e1: Engine<F>, e2: Engine<F>, event: Event,
                       log: seq<Job>, batches: seq<seq<Job>>, key: Key)
    requires DistinctIds(log) && e1.queue == e2.queue
    requires InOrder(m1, e1, log, batches) && InOrder(m2, e2, log, batches) && SameFor(e1.futures, e2.futures, log, key)
    requires event.Arrive? ==> !HasId(log, event.job.id)
    requires forall texts :: Infer(m1, texts, key) == Infer(m2, texts, key)
    ensures Advance(m1, e1, event).queue == Advance(m2, e2, event).queue
    ensures SameFor(Advance(m1, e1, event).futures, Advance(m2, e2, event).futures, LogAfter(log, event), key)
  {
    match event
    case Arrive(job) =>
      NewcomerUnset(m1, e1, log, batches, job);
      NewcomerUnset(m2, e2, log, batches, job);
    case Cut(n) =>
      var k := Take(n, e1.queue);
      BatchOf(m1, e1, log, batches, k);
      assert forall p | p in e1.queue[..k] :: p in log;
      CutSameFor(m1, m2, e1.futures, e2.futures, e1.queue[..k], log, key);
  }

  lemma NewcomerUnset<F>(model: Model<F>, e: Engine<F>, log: seq<Job>, batches: seq<seq<Job>>, job: Job)
    requires InOrder(model, e, log, batches) && !HasId(log, job.id)
    ensures job.id !in e.futures
  {
    EitherId(Concat(batches), e.queue, job.id);
  }

  /**
   A failing group affects only its own jobs, over whole runs: two models that reply alike
   for some labels and threshold tell all jobs with these the same, whatever they do, raise
   or miscount for any others.
   */
  lemma FailuresContainedInRuns<F>(m1: Model<F>, m2: Model<F>, events: seq<Event>, key: Key)
    requires DistinctIds(Arrivals(events))
    requires forall texts :: Infer(m1, texts, key) == Infer(m2, texts, key)
    ensures Run(m1, NewEngine(), events).queue == Run(m2, NewEngine(), events).queue
    ensures SameFor(Run(m1, NewEngine(), events).futures, Run(m2, NewEngine(), events).futures, Arrivals(events), key)
  {
    assert [] + Arrivals(events) == Arrivals(events);
    RunSameFor(m1, m2, NewEngine(), NewEngine(), events, [], [], key);
  }

  // ---------------------------------------------------------------- the engine

  /** A first job and those that come in time, up to the limit. */
  function BatchSize(maxBatch: nat, inTime: nat): nat {
    if 1 + inTime <= maxBatch then 1 + inTime else if maxBatch == 0 then 1 else maxBatch
  }

  /** A batch is never empty nor over the limit, and short of it only when no further job came in time. */
  lemma BatchSizeMeans(maxBatch: nat, inTime: nat, n: nat)
    ensures n == BatchSize(maxBatch, inTime)
            <==> 1 <= n <= 1 + inTime && (n <= maxBatch || n == 1) && (n < maxBatch ==> n == 1 + inTime)
  {
  }

  class InferenceEngine<!F> {
    const model: Model<F>
    const maxBatch: nat
    var queue: seq<Job>
    var futures: Futures<F>
    ghost var log: seq<Job> // all jobs submitted so far
    ghost var batches: seq<seq<Job>> // all batches flushed so far

    ghost function State(): Engine<F>
      reads this
    {
      Engine(queue, futures)
    }

    ghost predicate Valid()
      reads this
    {
      DistinctIds(log) && InOrder(model, State(), log, batches)
    }

    constructor (model: Model<F>, maxBatch: nat)
      ensures Valid() && log == [] && batches == [] && State() == NewEngine()
      ensures this.model == model && this.maxBatch == maxBatch
    {
      this.model := model;
      this.maxBatch := maxBatch;
      queue := [];
      futures := map[];
      log := [];
      batches := [];
    }

    /** A future is completed once: completing it again would be an error. */
    method SetOutcome(job: Job, outcome: Outcome<F>)
      requires job.id !in futures
      modifies this`futures
      ensures futures == old(futures)[job.id := outcome]
    {
      futures := futures[job.id := outcome];
    }

    /** A job with a future of its own joins the end of the queue. */
    method Submit(job: Job)
      requires Valid() && !HasId(log, job.id)
      modifies this`queue, this`log
      ensures Valid() && log == old(log) + [job] && batches == old(batches)
      ensures State() == Advance(model, old(State()), Arrive(job))
    {
      ArriveInOrder(model, State(), log, batches, job);
      queue := queue + [job];
      log := log + [job];
    }

    /** Completes the jobs of one group from one model reply. */
    method Settle(g: Group, reply: Reply<F>)
      requires reply == Infer(model, Texts(g.jobs), g.key)
      requires DistinctIds(g.jobs) && Unset(futures, g.jobs)
      modifies this`futures
      ensures futures == Complete(model, old(futures), g, 0)
    {
      for i := 0 to |g.jobs|
        invariant Complete(model, futures, g, i) == Complete(model, old(futures), g, 0)
        invariant forall j | i <= j < |g.jobs| :: g.jobs[j].id !in futures
      {
        var job := g.jobs[i];
        match reply {
          case Raised(e) => SetOutcome(job, Failed(e));
          case Results(vs) =>
            if |vs| != |g.jobs| {
              SetOutcome(job, Miscounted(|vs|, |g.jobs|));
            } else {
              SetOutcome(job, Done(vs[i]));
            }
        }
      }
    }

    /** Groups the batch, runs the model once per group, and completes every job exactly once. */
    method Flush(batch: seq<Job>)
      requires DistinctIds(batch) && Unset(futures, batch)
      modifies this`futures
      ensures futures == Flushed(model, old(futures), batch)
    {
      var groups: seq<Group> := [];
      for i := 0 to |batch|
        invariant groups == Grouped(batch[..i])
      {
        assert batch[..i + 1][..i] == batch[..i];
        groups := AddTo(groups, batch[i]);
      }
      assert batch[..|batch|] == batch;
      GroupedApart(batch);
      UnsetGroups(batch, futures);
      for i := 0 to |groups|
        invariant CompleteAll(model, futures, groups[i..]) == Flushed(model, old(futures), batch)
        invariant forall k | i <= k < |groups| :: Unset(futures, groups[k].jobs)
      {
        var g := groups[i];
        assert groups[i..][0] == g && groups[i..][1..] == groups[i + 1..];
        CompleteSets(model, futures, g, 0);
        OthersUnset(model, futures, groups, i);
        Settle(g, Infer(model, Texts(g.jobs), g.key));
      }
      assert groups[|groups|..] == [];
    }

    lemma UnsetGroups(batch: seq<Job>, f: Futures<F>)
      requires DistinctIds(batch) && Unset(f, batch)
      ensures forall k | 0 <= k < |Grouped(batch)| :: Unset(f, Grouped(batch)[k].jobs)
    {
      GroupedApart(batch);
      forall k | 0 <= k < |Grouped(batch)|
        ensures Unset(f, Grouped(batch)[k].jobs)
      {
        var ps := Grouped(batch)[k].jobs;
        PeersMembers(batch, Grouped(batch)[k].key);
        forall i | 0 <= i < |ps|
          ensures ps[i].id !in f
        {
          assert ps[i] in ps;
          var j :| 0 <= j < |batch| && batch[j] == ps[i];
        }
      }
    }

    lemma OthersUnset(model: Model<F>, f: Futures<F>, groups: seq<Group>, i: nat)
      requires i < |groups| && ApartGroups(groups) && forall k | i <= k < |groups| :: Unset(f, groups[k].jobs)
      ensures forall k | i < k < |groups| :: Unset(Complete(model, f, groups[i], 0), groups[k].jobs)
    {
      var g := groups[i];
      CompleteSets(model, f, g, 0);
      assert g.jobs[0..] == g.jobs;
      forall k, j | i < k < |groups| && 0 <= j < |groups[k].jobs|
        ensures groups[k].jobs[j].id !in Complete(model, f, g, 0)
      {
        var id := groups[k].jobs[j].id;
        assert HasId(groups[k].jobs, id);
        assert !HasId(g.jobs, id);
      }
    }

    /** The worker's batch: a first job, and then those that come in time until it is full. */
    method TakeBatch(inTime: nat) returns (batch: seq<Job>)
      requires inTime < |queue|
      modifies this`queue
      ensures |batch| == BatchSize(maxBatch, inTime)
      ensures 1 <= |batch| && (|batch| <= maxBatch || |batch| == 1)
      ensures |batch| < maxBatch ==> |batch| == 1 + inTime
      ensures old(queue) == batch + queue
    {
      batch := [queue[0]];
      queue := queue[1..];
      while |batch| < maxBatch && |batch| <= inTime
        invariant 1 <= |batch| <= 1 + inTime && (|batch| <= maxBatch || |batch| == 1)
        invariant old(queue) == batch + queue
      {
        batch := batch + [queue[0]];
        queue := queue[1..];
      }
    }

    /** One turn of the worker: it takes a batch and flushes it. */
    method Work(inTime: nat)
      requires Valid() && inTime < |queue|
      modifies this`queue, this`futures, this`batches
      ensures Valid() && log == old(log)
      ensures var cut := Cut(BatchSize(maxBatch, inTime));
              State() == Advance(model, old(State()), cut) && batches == old(batches) + CutOff(old(queue), cut)
    {
      var batch := TakeBatch(inTime);
      assert old(queue)[..|batch|] == batch && old(queue)[|batch|..] == queue;
      BatchUnset(model, old(State()), log, batches, |batch|);
      CutInOrder(model, old(State()), log, batches, |batch|);
      Flush(batch);
      batches := batches + [batch];
    }
  }
}
