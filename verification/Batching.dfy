/**
 The sidecar's inference engine: one worker takes queued jobs in batches, runs each group
 of jobs with the same labels and threshold through the model, and completes their futures.
 */
module Batching {
  import opened ByteStrings

  datatype Key = Key(tags: seq<Bytes>, threshold: real)

  datatype Job = Job(id: nat, text: Bytes, key: Key)

  /** What one model call on several texts yields: results, or an exception. */
  datatype Reply<F> = Results(found: seq<F>) | Raised(error: nat)

  datatype Single<F> = Found(value: F) | Threw(error: nat)

  /** The model: a call for one text, and possibly one for many. */
  datatype Model<!F> = Model(one: (Bytes, Key) -> Single<F>, many: Option<(seq<Bytes>, Key) -> Reply<F>>)

  datatype Outcome<F> = Done(value: F) | Failed(error: nat) | Miscounted(got: nat, wanted: nat)

  // ---------------------------------------------------------------- inference

  /** The list comprehension over single calls: the first exception ends it. */
  function InferEach<F>(model: Model<F>, texts: seq<Bytes>, key: Key): Reply<F> {
    if texts == [] then Results([])
    else
      match model.one(texts[0], key)
      case Threw(e) => Raised(e)
      case Found(v) =>
        match InferEach(model, texts[1..], key) case Raised(e) => Raised(e) case Results(vs) => Results([v] + vs)
  }

  function Infer<F>(model: Model<F>, texts: seq<Bytes>, key: Key): Reply<F> {
    if model.many.Some? && |texts| > 1 then model.many.value(texts, key) else InferEach(model, texts, key)
  }

  function Texts(jobs: seq<Job>): seq<Bytes> { seq(|jobs|, i requires 0 <= i < |jobs| => jobs[i].text) }

  /** What the i-th job of a group is told. */
  function OutcomeAt<F>(model: Model<F>, jobs: seq<Job>, key: Key, i: nat): Outcome<F>
    requires i < |jobs|
  {
    match Infer(model, Texts(jobs), key)
    case Raised(e) => Failed(e)
    case Results(vs) => if |vs| != |jobs| then Miscounted(|vs|, |jobs|) else Done(vs[i])
  }

  // ---------------------------------------------------------------- groups

  datatype Group = Group(key: Key, jobs: seq<Job>)

  /** Appends the job to the group of its key, which is opened at the end when there is none. */
  function AddTo(groups: seq<Group>, job: Job): seq<Group> {
    if groups == [] then [Group(job.key, [job])]
    else if groups[0].key == job.key then [Group(job.key, groups[0].jobs + [job])] + groups[1..]
    else [groups[0]] + AddTo(groups[1..], job)
  }

  function Grouped(batch: seq<Job>): seq<Group> {
    if batch == [] then [] else AddTo(Grouped(batch[..|batch| - 1]), batch[|batch| - 1])
  }

  /** The jobs of a batch with a given key, in order of arrival. */
  function Peers(batch: seq<Job>, key: Key): seq<Job> {
    if batch == [] then []
    else
      var n := |batch| - 1;
      Peers(batch[..n], key) + if batch[n].key == key then [batch[n]] else []
  }

  function JobsOf(groups: seq<Group>, key: Key): seq<Job> {
    if groups == [] then [] else if groups[0].key == key then groups[0].jobs else JobsOf(groups[1..], key)
  }

  ghost predicate DistinctKeys(groups: seq<Group>) {
    forall i, j | 0 <= i < j < |groups| :: groups[i].key != groups[j].key
  }

  lemma {:induction false} AddToKeys(groups: seq<Group>, job: Job)
    requires DistinctKeys(groups)
    ensures DistinctKeys(AddTo(groups, job))
    ensures forall k :: JobsOf(AddTo(groups, job), k) == JobsOf(groups, k) + if k == job.key then [job] else []
    ensures forall g | g in AddTo(groups, job) :: g.key == job.key || exists h :: h in groups && h.key == g.key
  {
    if groups != [] && groups[0].key != job.key {
      var t := groups[1..];
      AddToKeys(t, job);
      var u := AddTo(t, job);
      assert forall h | h in t :: h in groups && h.key != groups[0].key;
      forall j | 0 <= j < |u|
        ensures groups[0].key != u[j].key
      {
        assert u[j] in u;
      }
      assert ([groups[0]] + u)[1..] == u;
    } else if groups != [] {
      var a := AddTo(groups, job);
      assert a[1..] == groups[1..];
      assert forall i | 0 <= i < |groups| :: groups[i] in groups && a[i].key == groups[i].key;
    } else {
      assert [Group(job.key, [job])][1..] == [];
    }
  }

  lemma {:induction false} GroupedIsPeers(batch: seq<Job>)
    ensures DistinctKeys(Grouped(batch))
    ensures forall k :: JobsOf(Grouped(batch), k) == Peers(batch, k)
  {
    if batch == [] {
    } else {
      GroupedIsPeers(batch[..|batch| - 1]);
      AddToKeys(Grouped(batch[..|batch| - 1]), batch[|batch| - 1]);
    }
  }

  // ---------------------------------------------------------------- flushing

  type Futures<F> = map<nat, Outcome<F>>

  /** The futures after a group's jobs from the i-th on have been completed. */
  function Complete<F>(model: Model<F>, futures: Futures<F>, g: Group, i: nat): Futures<F>
    requires i <= |g.jobs|
    decreases |g.jobs| - i
  {
    if i == |g.jobs| then futures
    else Complete(model, futures[g.jobs[i].id := OutcomeAt(model, g.jobs, g.key, i)], g, i + 1)
  }

  function CompleteAll<F>(model: Model<F>, futures: Futures<F>, groups: seq<Group>): Futures<F>
    decreases |groups|
  {
    if groups == [] then futures else CompleteAll(model, Complete(model, futures, groups[0], 0), groups[1..])
  }

  function Flushed<F>(model: Model<F>, futures: Futures<F>, batch: seq<Job>): Futures<F> {
    CompleteAll(model, futures, Grouped(batch))
  }

  ghost predicate DistinctIds(jobs: seq<Job>) {
    forall i, j | 0 <= i < j < |jobs| :: jobs[i].id != jobs[j].id
  }

  ghost predicate Unset<F>(futures: Futures<F>, jobs: seq<Job>) {
    forall i | 0 <= i < |jobs| :: jobs[i].id !in futures
  }

  ghost predicate HasId(jobs: seq<Job>, id: nat) {
    exists i :: 0 <= i < |jobs| && jobs[i].id == id
  }

  lemma {:induction false} CompleteSets<F>(model: Model<F>, futures: Futures<F>, g: Group, i: nat)
    requires i <= |g.jobs| && DistinctIds(g.jobs)
    ensures forall j | i <= j < |g.jobs| ::
              g.jobs[j].id in Complete(model, futures, g, i)
              && Complete(model, futures, g, i)[g.jobs[j].id] == OutcomeAt(model, g.jobs, g.key, j)
    ensures forall id | !HasId(g.jobs[i..], id) ::
              (id in Complete(model, futures, g, i) <==> id in futures)
              && (id in futures ==> Complete(model, futures, g, i)[id] == futures[id])
    decreases |g.jobs| - i
  {
    if i == |g.jobs| {
    } else {
      var job := g.jobs[i];
      var f := futures[job.id := OutcomeAt(model, g.jobs, g.key, i)];
      CompleteSets(model, f, g, i + 1);
      NotLater(g.jobs, i);
      forall id | !HasId(g.jobs[i..], id)
        ensures !HasId(g.jobs[i + 1..], id) && id != job.id
      {
        LaterIds(g.jobs, i, id);
      }
    }
  }

  lemma NotLater(jobs: seq<Job>, i: nat)
    requires i < |jobs| && DistinctIds(jobs)
    ensures !HasId(jobs[i + 1..], jobs[i].id)
  {
    var t := jobs[i + 1..];
    forall j | 0 <= j < |t|
      ensures t[j].id != jobs[i].id
    {
      assert t[j] == jobs[i + 1 + j];
    }
  }

  lemma LaterIds(jobs: seq<Job>, i: nat, id: nat)
    requires i < |jobs|
    ensures HasId(jobs[i..], id) <==> jobs[i].id == id || HasId(jobs[i + 1..], id)
  {
    var s, t := jobs[i..], jobs[i + 1..];
    assert s[0] == jobs[i];
    if HasId(t, id) {
      var j :| 0 <= j < |t| && t[j].id == id;
      assert s[j + 1].id == id;
    }
    if HasId(s, id) && jobs[i].id != id {
      var j :| 0 <= j < |s| && s[j].id == id;
      assert t[j - 1].id == id;
    }
  }

  /** Each group is about jobs of its own: no id occurs in two of them. */
  ghost predicate ApartGroups(groups: seq<Group>) {
    && (forall i | 0 <= i < |groups| :: DistinctIds(groups[i].jobs))
    && forall i, j, id | 0 <= i < j < |groups| && HasId(groups[i].jobs, id) :: !HasId(groups[j].jobs, id)
  }

  lemma {:induction false} CompleteAllSets<F>(model: Model<F>, futures: Futures<F>, groups: seq<Group>)
    requires ApartGroups(groups)
    ensures forall i, j | 0 <= i < |groups| && 0 <= j < |groups[i].jobs| ::
              groups[i].jobs[j].id in CompleteAll(model, futures, groups)
              && CompleteAll(model, futures, groups)[groups[i].jobs[j].id]
                 == OutcomeAt(model, groups[i].jobs, groups[i].key, j)
    ensures forall id | (forall i | 0 <= i < |groups| :: !HasId(groups[i].jobs, id)) ::
              (id in CompleteAll(model, futures, groups) <==> id in futures)
              && (id in futures ==> CompleteAll(model, futures, groups)[id] == futures[id])
    decreases |groups|
  {
    if groups == [] {
    } else {
      var g, t := groups[0], groups[1..];
      var f := Complete(model, futures, g, 0);
      CompleteSets(model, futures, g, 0);
      assert g.jobs[0..] == g.jobs;
      assert forall i | 0 <= i < |t| :: t[i] == groups[i + 1];
      CompleteAllSets(model, f, t);
      forall j | 0 <= j < |g.jobs|
        ensures forall i | 0 <= i < |t| :: !HasId(t[i].jobs, g.jobs[j].id)
      {
        assert HasId(g.jobs, g.jobs[j].id);
      }
    }
  }

  // ---------------------------------------------------------------- what a flush tells each job

  lemma {:induction false} PeersMembers(batch: seq<Job>, key: Key)
    ensures forall p :: p in Peers(batch, key) <==> p in batch && p.key == key
    ensures DistinctIds(batch) ==> DistinctIds(Peers(batch, key))
  {
    if batch == [] {
    } else {
      var n := |batch| - 1;
      var init, last := batch[..n], batch[n];
      PeersMembers(init, key);
      assert batch == init + [last];
      if DistinctIds(batch) {
        forall p | p in init
          ensures p.id != last.id
        {
          var i :| 0 <= i < n && init[i] == p;
          assert batch[i].id != batch[n].id;
        }
        var ps := Peers(init, key);
        assert forall i | 0 <= i < |ps| :: ps[i] in init;
      }
    }
  }

  lemma {:induction false} JobsOfGroup(groups: seq<Group>, i: nat)
    requires i < |groups| && DistinctKeys(groups)
    ensures JobsOf(groups, groups[i].key) == groups[i].jobs
  {
    if i == 0 {
    } else {
      assert groups[0].key != groups[i].key;
      JobsOfGroup(groups[1..], i - 1);
    }
  }

  lemma {:induction false} GroupOfKey(groups: seq<Group>, key: Key) returns (i: nat)
    requires JobsOf(groups, key) != []
    ensures i < |groups| && groups[i].key == key && groups[i].jobs == JobsOf(groups, key)
  {
    if groups[0].key == key {
      return 0;
    }
    var j := GroupOfKey(groups[1..], key);
    return j + 1;
  }

  lemma {:induction false} SameIdSameJob(jobs: seq<Job>, a: Job, b: Job)
    requires DistinctIds(jobs) && a in jobs && b in jobs && a.id == b.id
    ensures a == b
  {
    var i :| 0 <= i < |jobs| && jobs[i] == a;
    var j :| 0 <= j < |jobs| && jobs[j] == b;
    assert i == j;
  }

  lemma GroupedApart(batch: seq<Job>)
    requires DistinctIds(batch)
    ensures ApartGroups(Grouped(batch))
    ensures forall i | 0 <= i < |Grouped(batch)| :: Grouped(batch)[i].jobs == Peers(batch, Grouped(batch)[i].key)
  {
    var groups := Grouped(batch);
    GroupedIsPeers(batch);
    forall i | 0 <= i < |groups|
      ensures groups[i].jobs == Peers(batch, groups[i].key) && DistinctIds(groups[i].jobs)
      ensures forall p | p in groups[i].jobs :: p in batch && p.key == groups[i].key
    {
      JobsOfGroup(groups, i);
      PeersMembers(batch, groups[i].key);
    }
    forall i, j, id | 0 <= i < j < |groups| && HasId(groups[i].jobs, id)
      ensures !HasId(groups[j].jobs, id)
    {
      GroupsShareNoId(batch, groups[i], groups[j], id);
    }
  }

  lemma GroupsShareNoId(batch: seq<Job>, g: Group, h: Group, id: nat)
    requires DistinctIds(batch) && g.key != h.key && HasId(g.jobs, id)
    requires forall p | p in g.jobs :: p in batch && p.key == g.key
    requires forall p | p in h.jobs :: p in batch && p.key == h.key
    ensures !HasId(h.jobs, id)
  {
    var a :| 0 <= a < |g.jobs| && g.jobs[a].id == id;
    assert g.jobs[a] in g.jobs;
    forall b | 0 <= b < |h.jobs|
      ensures h.jobs[b].id != id
    {
      assert h.jobs[b] in h.jobs;
      if h.jobs[b].id == id { SameIdSameJob(batch, g.jobs[a], h.jobs[b]); }
    }
  }

  /**
   A flush completes every job of the batch with its own share of the answer the model gives
   for the jobs of the batch that have its labels and threshold, and touches no other future.
   */
  lemma FlushTells<F>(model: Model<F>, futures: Futures<F>, batch: seq<Job>)
    requires DistinctIds(batch)
    ensures forall key, i | 0 <= i < |Peers(batch, key)| ::
              var id := Peers(batch, key)[i].id;
              id in Flushed(model, futures, batch)
              && Flushed(model, futures, batch)[id] == OutcomeAt(model, Peers(batch, key), key, i)
    ensures forall id | !HasId(batch, id) ::
              (id in Flushed(model, futures, batch) <==> id in futures)
              && (id in futures ==> Flushed(model, futures, batch)[id] == futures[id])
  {
    var groups := Grouped(batch);
    GroupedApart(batch);
    GroupedIsPeers(batch);
    CompleteAllSets(model, futures, groups);
    forall key, i | 0 <= i < |Peers(batch, key)|
      ensures var id := Peers(batch, key)[i].id;
              id in Flushed(model, futures, batch)
              && Flushed(model, futures, batch)[id] == OutcomeAt(model, Peers(batch, key), key, i)
    {
      var g := GroupOfKey(groups, key);
    }
    forall id | !HasId(batch, id)
      ensures forall i | 0 <= i < |groups| :: !HasId(groups[i].jobs, id)
    {
      forall i | 0 <= i < |groups|
        ensures !HasId(groups[i].jobs, id)
      {
        NotInPeers(batch, groups[i].key, id);
      }
    }
  }

  lemma NotInPeers(batch: seq<Job>, key: Key, id: nat)
    requires !HasId(batch, id)
    ensures !HasId(Peers(batch, key), id)
  {
    PeersMembers(batch, key);
    var ps := Peers(batch, key);
    forall i | 0 <= i < |ps|
      ensures ps[i].id != id
    {
      assert ps[i] in ps;
      var j :| 0 <= j < |batch| && batch[j] == ps[i];
    }
  }

  // ---------------------------------------------------------------- failures, spelled out

  /** The first text that makes the model raise, and with what. */
  ghost predicate FirstThrow<F>(model: Model<F>, texts: seq<Bytes>, key: Key, i: nat, error: nat) {
    && i < |texts| && model.one(texts[i], key) == Threw(error)
    && forall j | 0 <= j < i :: model.one(texts[j], key).Found?
  }

  /** Asking text by text: one result for each text, unless one raises; then the first exception. */
  lemma {:induction false} InferEachExact<F>(model: Model<F>, texts: seq<Bytes>, key: Key)
    ensures match InferEach(model, texts, key)
            case Results(vs) =>
              |vs| == |texts| && forall i | 0 <= i < |texts| :: model.one(texts[i], key) == Found(vs[i])
            case Raised(e) => exists i: nat :: FirstThrow(model, texts, key, i, e)
  {
    if texts == [] {
      assert InferEach(model, texts, key) == Results([]);
    } else {
      var t := texts[1..];
      InferEachExact(model, t, key);
      match model.one(texts[0], key)
      case Threw(e) =>
        assert InferEach(model, texts, key) == Raised(e);
        assert FirstThrow(model, texts, key, 0, e);
      case Found(v) =>
        match InferEach(model, t, key)
        case Raised(e) =>
          assert InferEach(model, texts, key) == Raised(e);
          var i: nat :| FirstThrow(model, t, key, i, e);
          ThrowsLater(model, texts, key, i, e);
        case Results(vs) =>
          var all := [v] + vs;
          assert InferEach(model, texts, key) == Results(all);
          forall i | 0 <= i < |texts| ensures model.one(texts[i], key) == Found(all[i]) {
            if i > 0 {
              assert texts[i] == t[i - 1];
            }
          }
    }
  }

  lemma ThrowsLater<F>(model: Model<F>, texts: seq<Bytes>, key: Key, i: nat, e: nat)
    requires texts != [] && model.one(texts[0], key).Found? && FirstThrow(model, texts[1..], key, i, e)
    ensures FirstThrow(model, texts, key, i + 1, e)
  {
    assert forall j | 0 < j <= i + 1 :: texts[j] == texts[1..][j - 1];
  }

  /** What the job at place i of a group is told, when the group's jobs are these. */
  ghost predicate ToldFrom<F>(reply: Reply<F>, size: nat, i: nat, outcome: Outcome<F>) {
    match reply
    case Raised(e) => outcome == Failed(e)
    case Results(vs) =>
      if |vs| == size then i < |vs| && outcome == Done(vs[i]) else outcome == Miscounted(|vs|, size)
  }

  /** The reply to a group: of the batch call when there is one and the group has several jobs. */
  ghost predicate ReplyTo<F>(model: Model<F>, group: seq<Job>, key: Key, reply: Reply<F>) {
    if |group| > 1 && model.many.Some? then reply == model.many.value(Texts(group), key)
    else reply == InferEach(model, Texts(group), key)
  }

  /**
   After a flush every job of a group has been told from one reply: the exception, if the
   reply is one; that the counts differ, if they do; and else the result at its own place.
   */
  lemma GroupTold<F>(model: Model<F>, futures: Futures<F>, batch: seq<Job>, key: Key) returns (reply: Reply<F>)
    requires DistinctIds(batch)
    ensures var group := Peers(batch, key);
            && ReplyTo(model, group, key, reply)
            && forall i | 0 <= i < |group| ::
                 group[i].id in Flushed(model, futures, batch)
                 && ToldFrom(reply, |group|, i, Flushed(model, futures, batch)[group[i].id])
  {
    FlushTells(model, futures, batch);
    reply := Infer(model, Texts(Peers(batch, key)), key);
  }

  /** Asked text by text, one text that raises fails its whole group with the first such exception. */
  lemma OneThrowFailsGroup<F>(model: Model<F>, futures: Futures<F>, batch: seq<Job>, key: Key, p: Job) returns (e: nat)
    requires DistinctIds(batch) && model.many.None?
    requires p in batch && p.key == key && model.one(p.text, key).Threw?
    ensures exists i: nat :: FirstThrow(model, Texts(Peers(batch, key)), key, i, e)
    ensures forall job | job in batch && job.key == key ::
              job.id in Flushed(model, futures, batch) && Flushed(model, futures, batch)[job.id] == Failed(e)
  {
    var ps := Peers(batch, key);
    PeersMembers(batch, key);
    var reply := GroupTold(model, futures, batch, key);
    InferEachExact(model, Texts(ps), key);
    var i :| 0 <= i < |ps| && ps[i] == p;
    assert Texts(ps)[i] == p.text;
    e := reply.error;
    forall job | job in batch && job.key == key
      ensures job.id in Flushed(model, futures, batch) && Flushed(model, futures, batch)[job.id] == Failed(e)
    {
      var j :| 0 <= j < |ps| && ps[j] == job;
    }
  }

  // ---------------------------------------------------------------- transparency

  /** A batch call gives each text what a call for that text alone gives. */
  ghost predicate Pointwise<F>(model: Model<F>) {
    model.many.Some? ==> forall texts, key | |texts| > 1 :: model.many.value(texts, key) == InferEach(model, texts, key)
  }

  lemma {:induction false} InferEachFinds<F>(model: Model<F>, texts: seq<Bytes>, key: Key)
    requires forall i | 0 <= i < |texts| :: model.one(texts[i], key).Found?
    ensures var r := InferEach(model, texts, key);
            && r.Results? && |r.found| == |texts|
            && forall i | 0 <= i < |texts| :: model.one(texts[i], key) == Found(r.found[i])
  {
    if texts == [] {
    } else {
      InferEachFinds(model, texts[1..], key);
      var vs := InferEach(model, texts[1..], key).found;
      assert forall i | 0 < i < |texts| :: texts[1..][i - 1] == texts[i];
      assert forall i | 0 < i < |texts| :: InferEach(model, texts, key).found[i] == vs[i - 1];
    }
  }

  /** The future holds what the model gives for the job alone. */
  ghost predicate Answered<F>(model: Model<F>, job: Job, futures: Futures<F>) {
    && job.id in futures && model.one(job.text, job.key).Found?
    && futures[job.id] == Done(model.one(job.text, job.key).value)
  }

  /** However the batch is cut, a job whose group raises nothing gets the answer for its own text. */
  lemma BatchingTransparent<F>(model: Model<F>, futures: Futures<F>, batch: seq<Job>, job: Job)
    requires Pointwise(model) && DistinctIds(batch) && job in batch
    requires forall p | p in batch && p.key == job.key :: model.one(p.text, p.key).Found?
    ensures Answered(model, job, Flushed(model, futures, batch))
  {
    var ps := Peers(batch, job.key);
    PeersMembers(batch, job.key);
    FlushTells(model, futures, batch);
    var i :| 0 <= i < |ps| && ps[i] == job;
    forall j | 0 <= j < |ps|
      ensures model.one(Texts(ps)[j], job.key).Found?
    {
      assert ps[j] in ps;
    }
    InferEachFinds(model, Texts(ps), job.key);
    assert Infer(model, Texts(ps), job.key) == InferEach(model, Texts(ps), job.key);
  }

  /** A failing group is nobody else's problem: models that agree on a job's own group tell it the same. */
  lemma FailuresContained<F>(m1: Model<F>, m2: Model<F>, f: Futures<F>, g: Futures<F>, batch: seq<Job>, job: Job)
    requires DistinctIds(batch) && job in batch
    requires Infer(m1, Texts(Peers(batch, job.key)), job.key) == Infer(m2, Texts(Peers(batch, job.key)), job.key)
    ensures job.id in Flushed(m1, f, batch) && job.id in Flushed(m2, g, batch)
    ensures Flushed(m1, f, batch)[job.id] == Flushed(m2, g, batch)[job.id]
  {
    var ps := Peers(batch, job.key);
    PeersMembers(batch, job.key);
    FlushTells(m1, f, batch);
    FlushTells(m2, g, batch);
    var i :| 0 <= i < |ps| && ps[i] == job;
  }
}
