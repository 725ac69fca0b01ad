/** The audit log: producers, a bounded queue, one batching worker, and the shutdown that flushes the
    queue and then cancels the worker. */
module AuditPipeline {
  /** A batch the worker was done with: written in one transaction, or lost when that failed. */
  datatype Batch<E> = Batch(entries: seq<E>, written: bool)

  datatype Phase = Collecting | Writing | Stopped

  /** The shutdown flush: what it drained, and whether its transaction succeeded. */
  datatype Flush<E> = NotStarted | Draining(entries: seq<E>) | Finished(entries: seq<E>, written: bool)

  datatype Pipeline<E> = Pipeline(
    queue: seq<E>,
    waiting: seq<E>,              // producers blocked on a full queue
    dropped: nat,                 // audit_logs_dropped_total
    phase: Phase,
    batch: seq<E>,                // the worker's batch in hand
    processed: seq<Batch<E>>,
    flush: Flush<E>,
    abandoned: seq<E>,            // the batch in hand when the worker was cancelled
    accepted: seq<E>,             // entries in the order the queue took them
    taken: seq<E>)                // entries in the order they left the queue

  datatype Step<E> =
    | PutNowait(entry: E)
    | Wait(entry: E)              // queue full, AUDIT_QUEUE_TIMEOUT > 0
    | Refuse(entry: E)            // queue full, no timeout
    | PutAfterWait(i: nat)
    | WaitTimeout(i: nat)
    | Take
    | BatchTimeout
    | WriteBatch(ok: bool)
    | Drain
    | WriteFlush(ok: bool)
    | Cancel

  ghost function Initial<E>(): Pipeline<E> {
    Pipeline([], [], 0, Collecting, [], [], NotStarted, [], [], [])
  }

  datatype Settings = Settings(maxSize: int, batchSize: int) {

    /** A maximum of zero or less means an unbounded queue. */
    predicate Full<E>(queue: seq<E>) {
      maxSize > 0 && |queue| >= maxSize
    }

    predicate Enabled<E>(s: Pipeline<E>, step: Step<E>) {
      match step
      case PutNowait(_) => !Full(s.queue)
      case Wait(_) => Full(s.queue)
      case Refuse(_) => Full(s.queue)
      case PutAfterWait(i) => i < |s.waiting| && !Full(s.queue)
      case WaitTimeout(i) => i < |s.waiting|
      case Take => s.phase.Collecting? && |s.batch| < batchSize && s.queue != []
      case BatchTimeout => s.phase.Collecting?
      case WriteBatch(_) => s.phase.Writing?
      case Drain => s.flush.NotStarted?
      case WriteFlush(_) => s.flush.Draining?
      case Cancel => !s.phase.Stopped?
    }

    function Enqueue<E>(s: Pipeline<E>, entry: E): Pipeline<E> {
      s.(queue := s.queue + [entry], accepted := s.accepted + [entry])
    }

    /** A full batch goes to the database at once. */
    function Dequeue<E>(s: Pipeline<E>): Pipeline<E>
      requires s.queue != []
    {
      var batch := s.batch + [s.queue[0]];
      s.(queue := s.queue[1..], batch := batch, taken := s.taken + [s.queue[0]],
         phase := if |batch| >= batchSize then Writing else Collecting)
    }

    function Apply<E>(s: Pipeline<E>, step: Step<E>): Pipeline<E>
      requires Enabled(s, step)
    {
      match step
      case PutNowait(entry) => Enqueue(s, entry)
      case Wait(entry) => s.(waiting := s.waiting + [entry])
      case Refuse(_) => s.(dropped := s.dropped + 1)
      case PutAfterWait(i) => Enqueue(s, s.waiting[i]).(waiting := s.waiting[..i] + s.waiting[i + 1..])
      case WaitTimeout(i) => s.(waiting := s.waiting[..i] + s.waiting[i + 1..], dropped := s.dropped + 1)
      case Take => Dequeue(s)
      case BatchTimeout => s.(phase := if s.batch == [] then Collecting else Writing)
      case WriteBatch(ok) => s.(processed := s.processed + [Batch(s.batch, ok)], batch := [], phase := Collecting)
      case Drain => s.(queue := [], taken := s.taken + s.queue, flush := Draining(s.queue))
      case WriteFlush(ok) => s.(flush := Finished(s.flush.entries, ok))
      case Cancel => s.(abandoned := s.batch, batch := [], phase := Stopped)
    }
  }

  // ----- runs -----

  datatype Run<E> = Run(cfg: Settings, states: seq<Pipeline<E>>, steps: seq<Step<E>>) {

    ghost predicate Stepped(i: nat)
      requires i < |steps| && |states| == |steps| + 1
    {
      cfg.Enabled(states[i], steps[i]) && states[i + 1] == cfg.Apply(states[i], steps[i])
    }

    /** Any interleaving of producers, worker and shutdown. */
    ghost predicate Valid() {
      && |states| == |steps| + 1 && states[0] == Initial()
      && forall i: nat {:trigger Stepped(i)} :: i < |steps| ==> Stepped(i)
    }

    /** How many of the first n steps gave up on an entry because of a full queue. */
    ghost function Rejections(n: nat): nat
      requires n <= |steps|
    {
      if n == 0 then 0 else Rejections(n - 1) + if steps[n - 1].Refuse? || steps[n - 1].WaitTimeout? then 1 else 0
    }

    /** No entry reaches the queue in steps m to n. */
    ghost predicate NoProducer(m: nat, n: nat)
      requires n <= |steps|
    {
      forall i :: m <= i < n ==> !steps[i].PutNowait? && !steps[i].PutAfterWait?
    }
  }

  ghost function Entries<E>(batches: seq<Batch<E>>): seq<E> {
    if batches == [] then [] else Entries(batches[..|batches| - 1]) + batches[|batches| - 1].entries
  }

  /** The entries of the batches that were written, or of those that were lost. */
  ghost function EntriesOf<E>(batches: seq<Batch<E>>, written: bool): seq<E> {
    if batches == [] then []
    else
      var last := batches[|batches| - 1];
      EntriesOf(batches[..|batches| - 1], written) + if last.written == written then last.entries else []
  }

  function Flushed<E>(f: Flush<E>): seq<E> {
    if f.NotStarted? then [] else f.entries
  }

  /** The queue is first in, first out. */
  ghost predicate Fifo<E>(s: Pipeline<E>) {
    s.accepted == s.taken + s.queue
  }

  /** What left the queue went, in order, through finished batches, the batch in hand (or abandoned)
      and the flush. */
  ghost predicate InOrder<E>(s: Pipeline<E>) {
    s.taken == Entries(s.processed) + s.batch + s.abandoned + Flushed(s.flush)
  }

  /** The same without the order, for runs whose producers outlive the flush. */
  ghost predicate AllThere<E>(s: Pipeline<E>) {
    multiset(s.taken) == multiset(Entries(s.processed)) + multiset(s.batch) + multiset(s.abandoned) +
        multiset(Flushed(s.flush))
  }

  ghost predicate Bounded<E>(cfg: Settings, s: Pipeline<E>) {
    && (cfg.maxSize > 0 ==> |s.queue| <= cfg.maxSize)
    && (s.batch == [] || |s.batch| <= cfg.batchSize)
    && (s.abandoned == [] || |s.abandoned| <= cfg.batchSize)
    && (s.phase.Stopped? ==> s.batch == []) && (!s.phase.Stopped? ==> s.abandoned == [])
  }

  lemma StepKeepsFifo<E>(cfg: Settings, s: Pipeline<E>, step: Step<E>)
    requires Fifo(s) && cfg.Enabled(s, step)
    ensures Fifo(cfg.Apply(s, step))
  {
    if step.Take? {
      assert s.queue == [s.queue[0]] + s.queue[1..];
    }
  }

  lemma StepKeepsBounds<E>(cfg: Settings, s: Pipeline<E>, step: Step<E>)
    requires Bounded(cfg, s) && cfg.Enabled(s, step)
    ensures Bounded(cfg, cfg.Apply(s, step))
  {
  }

  lemma EntriesSnoc<E>(batches: seq<Batch<E>>, b: Batch<E>)
    ensures Entries(batches + [b]) == Entries(batches) + b.entries
  {
    assert (batches + [b])[..|batches|] == batches;
  }

  /** Order is only lost when the worker takes entries after the flush has drained the queue. */
  lemma StepKeepsOrder<E>(cfg: Settings, s: Pipeline<E>, step: Step<E>)
    requires InOrder(s) && Bounded(cfg, s) && cfg.Enabled(s, step)
    requires step.Take? ==> s.flush.NotStarted?
    ensures InOrder(cfg.Apply(s, step))
  {
    match step
    case WriteBatch(ok) => WriteMovesBatch(cfg, s, ok);
    case Take => TakeKeepsOrder(cfg, s);
    case Cancel => CancelMovesBatch(cfg, s);
    case _ => assert SameStages(s, cfg.Apply(s, step)) || step.Drain?;
  }

  /** The step touches nothing beyond the queue. */
  ghost predicate SameStages<E>(s: Pipeline<E>, t: Pipeline<E>) {
    && t.taken == s.taken && t.processed == s.processed && t.batch == s.batch && t.abandoned == s.abandoned
    && Flushed(t.flush) == Flushed(s.flush)
  }

  lemma TakeKeepsOrder<E>(cfg: Settings, s: Pipeline<E>)
    requires InOrder(s) && Bounded(cfg, s) && cfg.Enabled(s, Take) && s.flush.NotStarted?
    ensures InOrder(cfg.Apply(s, Take))
  {
    var x := s.queue[0];
    assert s.abandoned == [] && Flushed(s.flush) == [];
    assert Entries(s.processed) + (s.batch + [x]) == Entries(s.processed) + s.batch + [x];
  }

  /** Writing a batch moves it from the hand to the end of what is done. */
  lemma WriteMovesBatch<E>(cfg: Settings, s: Pipeline<E>, ok: bool)
    requires cfg.Enabled(s, WriteBatch(ok))
    ensures
      var t := cfg.Apply(s, WriteBatch(ok));
      && Entries(t.processed) + t.batch == Entries(s.processed) + s.batch
      && multiset(Entries(t.processed)) == multiset(Entries(s.processed)) + multiset(s.batch)
  {
    EntriesSnoc(s.processed, Batch(s.batch, ok));
  }

  lemma CancelMovesBatch<E>(cfg: Settings, s: Pipeline<E>)
    requires Bounded(cfg, s) && cfg.Enabled(s, Cancel)
    ensures
      var t := cfg.Apply(s, Cancel);
      t.batch == [] && s.abandoned == [] && t.abandoned == s.batch
  {
  }

  lemma StepKeepsAll<E>(cfg: Settings, s: Pipeline<E>, step: Step<E>)
    requires AllThere(s) && Bounded(cfg, s) && cfg.Enabled(s, step)
    ensures AllThere(cfg.Apply(s, step))
  {
    match step
    case WriteBatch(ok) => WriteMovesBatch(cfg, s, ok);
    case Take => TakeKeepsAll(cfg, s);
    case Drain => DrainKeepsAll(cfg, s);
    case Cancel => CancelMovesBatch(cfg, s);
    case _ => assert SameStages(s, cfg.Apply(s, step));
  }

  lemma TakeKeepsAll<E>(cfg: Settings, s: Pipeline<E>)
    requires AllThere(s) && cfg.Enabled(s, Take)
    ensures AllThere(cfg.Apply(s, Take))
  {
    var x := s.queue[0];
    assert multiset(s.batch + [x]) == multiset(s.batch) + multiset{x};
    assert multiset(s.taken + [x]) == multiset(s.taken) + multiset{x};
  }

  lemma DrainKeepsAll<E>(cfg: Settings, s: Pipeline<E>)
    requires AllThere(s) && cfg.Enabled(s, Drain)
    ensures AllThere(cfg.Apply(s, Drain))
  {
    assert multiset(s.taken + s.queue) == multiset(s.taken) + multiset(s.queue);
  }

  /** Over every interleaving and every database failure: accepted entries leave the queue in the
      order it took them and none disappears, queue and batch stay within their sizes, and the dropped
      counter is the number of rejections. */
  lemma {:induction false} PipelineConserves<E>(r: Run<E>, n: nat)
    requires r.Valid() && n <= |r.steps|
    ensures Fifo(r.states[n]) && AllThere(r.states[n]) && Bounded(r.cfg, r.states[n])
    ensures r.states[n].dropped == r.Rejections(n)
  {
    if n > 0 {
      var s, step := r.states[n - 1], r.steps[n - 1];
      PipelineConserves(r, n - 1);
      assert r.Stepped(n - 1);
      StepKeepsFifo(r.cfg, s, step);
      StepKeepsAll(r.cfg, s, step);
      StepKeepsBounds(r.cfg, s, step);
      CountsRejection(r.cfg, s, step);
    }
  }

  lemma CountsRejection<E>(cfg: Settings, s: Pipeline<E>, step: Step<E>)
    requires cfg.Enabled(s, step)
    ensures cfg.Apply(s, step).dropped == s.dropped + if step.Refuse? || step.WaitTimeout? then 1 else 0
  {
  }

  /** The entry that a producer brings in this step. */
  ghost function BroughtBy<E>(step: Step<E>): multiset<E> {
    match step
    case PutNowait(entry) => multiset{entry}
    case Wait(entry) => multiset{entry}
    case Refuse(entry) => multiset{entry}
    case _ => multiset{}
  }

  /** The entry given up in this step because the queue is full, at once or after a timeout. */
  ghost function GivenUpBy<E>(cfg: Settings, s: Pipeline<E>, step: Step<E>): multiset<E>
    requires cfg.Enabled(s, step)
  {
    match step
    case Refuse(entry) => multiset{entry}
    case WaitTimeout(i) => multiset{s.waiting[i]}
    case _ => multiset{}
  }

  ghost function Brought<E>(r: Run<E>, n: nat): multiset<E>
    requires n <= |r.steps|
  {
    if n == 0 then multiset{} else Brought(r, n - 1) + BroughtBy(r.steps[n - 1])
  }

  ghost function GivenUp<E>(r: Run<E>, n: nat): multiset<E>
    requires r.Valid() && n <= |r.steps|
  {
    if n == 0 then multiset{}
    else
      assert r.Stepped(n - 1);
      GivenUp(r, n - 1) + GivenUpBy(r.cfg, r.states[n - 1], r.steps[n - 1])
  }

  /** In the queue once, or waiting for room in it. */
  ghost function InOrBefore<E>(s: Pipeline<E>): multiset<E> {
    multiset(s.accepted) + multiset(s.waiting)
  }

  lemma WaiterLeaves<E>(waiting: seq<E>, i: nat)
    requires i < |waiting|
    ensures multiset(waiting[..i] + waiting[i + 1..]) + multiset{waiting[i]} == multiset(waiting)
  {
    assert waiting == waiting[..i] + [waiting[i]] + waiting[i + 1..];
  }

  lemma StepConservesEntries<E>(cfg: Settings, s: Pipeline<E>, step: Step<E>)
    requires cfg.Enabled(s, step)
    ensures InOrBefore(cfg.Apply(s, step)) + GivenUpBy(cfg, s, step) == InOrBefore(s) + BroughtBy(step)
    ensures cfg.Apply(s, step).dropped == s.dropped + |GivenUpBy(cfg, s, step)|
  {
    match step
    case PutNowait(entry) => assert multiset(s.accepted + [entry]) == multiset(s.accepted) + multiset{entry};
    case Wait(entry) => assert multiset(s.waiting + [entry]) == multiset(s.waiting) + multiset{entry};
    case PutAfterWait(i) => WaiterQueued(cfg, s, i);
    case WaitTimeout(i) => WaiterLeaves(s.waiting, i);
    case _ => assert cfg.Apply(s, step).accepted == s.accepted && cfg.Apply(s, step).waiting == s.waiting;
  }

  lemma WaiterQueued<E>(cfg: Settings, s: Pipeline<E>, i: nat)
    requires cfg.Enabled(s, PutAfterWait(i))
    ensures InOrBefore(cfg.Apply(s, PutAfterWait(i))) == InOrBefore(s)
  {
    WaiterLeaves(s.waiting, i);
    assert multiset(s.accepted + [s.waiting[i]]) == multiset(s.accepted) + multiset{s.waiting[i]};
  }

  /** What becomes of the entries before the queue: over every interleaving each one that a producer brought
      is accepted, still waiting for room, or given up, once, and the counter counts those given up. */
  lemma {:induction false} ProducersConserve<E>(r: Run<E>, n: nat)
    requires r.Valid() && n <= |r.steps|
    ensures Brought(r, n) == multiset(r.states[n].accepted) + multiset(r.states[n].waiting) + GivenUp(r, n)
    ensures r.states[n].dropped == |GivenUp(r, n)|
  {
    if n > 0 {
      assert r.Stepped(n - 1);
      ProducersConserve(r, n - 1);
      StepConservesEntries(r.cfg, r.states[n - 1], r.steps[n - 1]);
      Carry(Brought(r, n - 1), BroughtBy(r.steps[n - 1]), InOrBefore(r.states[n - 1]), InOrBefore(r.states[n]),
            GivenUp(r, n - 1), GivenUpBy(r.cfg, r.states[n - 1], r.steps[n - 1]));
    }
  }

  lemma Carry<E>(brought: multiset<E>, more: multiset<E>, before: multiset<E>, after: multiset<E>, lost: multiset<E>,
      now: multiset<E>)
    requires brought == before + lost && after + now == before + more
    ensures brought + more == after + (lost + now)
  {
    assert brought + more == (before + more) + lost;
  }

  ghost predicate Drained<E>(r: Run<E>, m: nat, n: nat)
    requires n <= |r.steps|
  {
    m < n && r.steps[m].Drain? && r.NoProducer(m, n)
  }

  lemma {:induction false} OrderedBeforeFlush<E>(r: Run<E>, n: nat)
    requires r.Valid() && n <= |r.steps| && r.states[n].flush.NotStarted?
    ensures InOrder(r.states[n])
  {
    if n > 0 {
      assert r.Stepped(n - 1);
      OrderedBeforeFlush(r, n - 1);
      PipelineConserves(r, n - 1);
      StepKeepsOrder(r.cfg, r.states[n - 1], r.steps[n - 1]);
    }
  }

  lemma {:induction false} OrderedAfterDrain<E>(r: Run<E>, m: nat, n: nat)
    requires r.Valid() && n <= |r.steps| && Drained(r, m, n)
    ensures InOrder(r.states[n]) && r.states[n].queue == [] && !r.states[n].flush.NotStarted?
  {
    assert r.Stepped(n - 1);
    PipelineConserves(r, n - 1);
    if n == m + 1 {
      OrderedBeforeFlush(r, m);
    } else {
      OrderedAfterDrain(r, m, n - 1);
    }
    StepKeepsOrder(r.cfg, r.states[n - 1], r.steps[n - 1]);
  }

  /** As long as the flush has not started, or no entry was queued since, the accepted entries are in
      order: those of the finished batches, the batch in hand, the flushed entries, the queue. */
  lemma AcceptedInOrder<E>(r: Run<E>, m: nat, n: nat)
    requires r.Valid() && n <= |r.steps| && (r.states[n].flush.NotStarted? || Drained(r, m, n))
    ensures
      var s := r.states[n];
      s.accepted == Entries(s.processed) + s.batch + s.abandoned + Flushed(s.flush) + s.queue
  {
    PipelineConserves(r, n);
    if r.states[n].flush.NotStarted? {
      OrderedBeforeFlush(r, n);
    } else {
      OrderedAfterDrain(r, m, n);
    }
  }

  // ----- shutdown -----

  /** The rows in the database once the given batches and flush are through. */
  ghost function Rows<E>(s: Pipeline<E>): multiset<E> {
    multiset(EntriesOf(s.processed, true)) +
    if s.flush.Finished? && s.flush.written then multiset(s.flush.entries) else multiset{}
  }

  lemma {:induction false} EntriesSplit<E>(batches: seq<Batch<E>>)
    ensures multiset(Entries(batches)) == multiset(EntriesOf(batches, true)) + multiset(EntriesOf(batches, false))
  {
    if batches != [] {
      EntriesSplit(batches[..|batches| - 1]);
    }
  }

  lemma {:induction false} StoppedForGood<E>(r: Run<E>, c: nat, n: nat)
    requires r.Valid() && c < n <= |r.steps| && r.steps[c].Cancel?
    ensures r.states[n].phase.Stopped? && r.states[n].abandoned == r.states[c].batch
  {
    assert r.Stepped(n - 1);
    if n > c + 1 {
      StoppedForGood(r, c, n - 1);
    }
  }

  /** Main result on shutdown. Whoever still queues entries, and whatever the database does, the accepted
      entries are exactly those written, those lost in failed batches, those the flush took, the batch
      the worker held when it was cancelled, which is at most one batch, and those still in the queue. */
  lemma ShutdownAccounts<E>(r: Run<E>, c: nat)
    requires r.Valid() && c < |r.steps| && r.steps[c].Cancel?
    ensures
      var s, held := r.states[|r.steps|], r.states[c].batch;
      && multiset(s.accepted)
         == multiset(EntriesOf(s.processed, true)) + multiset(EntriesOf(s.processed, false))
          + multiset(Flushed(s.flush)) + multiset(held) + multiset(s.queue)
      && |held| <= if r.cfg.batchSize < 0 then 0 else r.cfg.batchSize
  {
    var n := |r.steps|;
    PipelineConserves(r, n);
    PipelineConserves(r, c);
    StoppedForGood(r, c, n);
    EntriesSplit(r.states[n].processed);
    assert multiset(r.states[n].accepted) == multiset(r.states[n].taken) + multiset(r.states[n].queue);
  }

  /** With a flush that is written, what was neither written nor lost in a failed batch is the batch in
      hand just when the queue ends empty. */
  lemma HandAloneIsLost<E>(r: Run<E>, c: nat)
    requires r.Valid() && c < |r.steps| && r.steps[c].Cancel?
    requires r.states[|r.steps|].flush.Finished? && r.states[|r.steps|].flush.written
    ensures
      var s := r.states[|r.steps|];
      && s.abandoned == r.states[c].batch
      && (multiset(s.accepted) == Rows(s) + multiset(EntriesOf(s.processed, false)) + multiset(s.abandoned) <==>
          s.queue == [])
  {
    ShutdownAccounts(r, c);
    StoppedForGood(r, c, |r.steps|);
    var s := r.states[|r.steps|];
    var rest := Rows(s) + multiset(EntriesOf(s.processed, false)) + multiset(s.abandoned);
    assert multiset(s.accepted) == rest + multiset(s.queue);
    if s.queue != [] {
      assert |multiset(s.accepted)| == |rest| + |multiset(s.queue)|;
      assert |multiset(s.queue)| > 0;
    }
  }

  lemma Extend<E>(r: Run<E>, step: Step<E>) returns (r': Run<E>)
    requires r.Valid() && r.cfg.Enabled(r.states[|r.steps|], step)
    ensures r'.Valid() && r'.cfg == r.cfg && r'.steps == r.steps + [step]
    ensures r'.states == r.states + [r.cfg.Apply(r.states[|r.steps|], step)]
  {
    r' := Run(r.cfg, r.states + [r.cfg.Apply(r.states[|r.steps|], step)], r.steps + [step]);
    forall i: nat | i < |r'.steps|
      ensures r'.Stepped(i)
    {
      if i < |r.steps| {
        assert r.Stepped(i);
      }
    }
  }

  /** No producer comes along any more and no transaction fails. */
  predicate Orderly<E>(step: Step<E>) {
    match step
    case PutNowait(_) => false
    case Wait(_) => false
    case WriteBatch(ok) => ok
    case WriteFlush(ok) => ok
    case _ => true
  }

  /** `r` shuts down from the end of `p` on: it drains the queue at once, writes what it drained and
      cancels the worker, who may go on writing batches until then. */
  ghost predicate ShutsDown<E>(p: Run<E>, r: Run<E>) {
    && r.Valid() && r.cfg == p.cfg && p.steps < r.steps && r.steps[|p.steps|].Drain?
    && (forall i :: |p.steps| <= i < |r.steps| ==> Orderly(r.steps[i]))
    && (exists c :: |p.steps| <= c < |r.steps| && r.steps[c].Cancel?)
    && r.states[|r.steps|].flush.Finished?
  }

  /** Every accepted entry is in the database, but for `lost`. */
  ghost predicate AllButLost<E>(s: Pipeline<E>, lost: multiset<E>) {
    multiset(s.accepted) == Rows(s) + lost
  }

  ghost function LostBefore<E>(p: Run<E>): multiset<E>
    requires p.Valid()
  {
    multiset(EntriesOf(p.states[|p.steps|].processed, false))
  }

  lemma {:induction false} SameStart<E>(p: Run<E>, r: Run<E>, n: nat)
    requires p.Valid() && r.Valid() && r.cfg == p.cfg && p.steps <= r.steps && n <= |p.steps|
    ensures r.states[n] == p.states[n]
  {
    if n > 0 {
      SameStart(p, r, n - 1);
      assert p.Stepped(n - 1) && r.Stepped(n - 1);
    }
  }

  /** No batch is lost any more, and what is flushed is written. */
  lemma {:induction false} NoMoreLost<E>(p: Run<E>, r: Run<E>, n: nat)
    requires p.Valid() && ShutsDown(p, r) && |p.steps| <= n <= |r.steps| && p.states[|p.steps|].flush.NotStarted?
    ensures multiset(EntriesOf(r.states[n].processed, false)) == LostBefore(p)
    ensures r.states[n].flush.Finished? ==> r.states[n].flush.written
  {
    if n == |p.steps| {
      SameStart(p, r, n);
    } else {
      NoMoreLost(p, r, n - 1);
      var s, step := r.states[n - 1], r.steps[n - 1];
      assert r.Stepped(n - 1) && Orderly(step);
      if step.WriteBatch? {
        assert (s.processed + [Batch(s.batch, step.ok)])[..|s.processed|] == s.processed;
      }
    }
  }

  /** Without a waiting producer at the drain nothing reaches the queue, nor an idle worker. */
  lemma {:induction false} StaysEmpty<E>(p: Run<E>, r: Run<E>, n: nat)
    requires p.Valid() && ShutsDown(p, r) && |p.steps| < n <= |r.steps|
    requires p.states[|p.steps|].waiting == [] && !p.states[|p.steps|].phase.Stopped?
    ensures r.states[n].waiting == [] && r.states[n].queue == []
    ensures p.states[|p.steps|].batch == [] ==> r.states[n].batch == [] && r.states[n].abandoned == []
  {
    assert r.Stepped(n - 1) && Orderly(r.steps[n - 1]);
    if n == |p.steps| + 1 {
      SameStart(p, r, n - 1);
      PipelineConserves(r, n - 1);
    } else {
      StaysEmpty(p, r, n - 1);
    }
  }

  /** The three steps of a shutdown by which the worker loses the batch it holds. */
  lemma CancelAtOnce<E>(p: Run<E>) returns (r: Run<E>)
    requires p.Valid() && p.states[|p.steps|].flush.NotStarted? && !p.states[|p.steps|].phase.Stopped?
    ensures ShutsDown(p, r) && r.states[|r.steps|].abandoned == p.states[|p.steps|].batch
  {
    r := Extend(p, Drain);
    r := Extend(r, WriteFlush(true));
    r := Extend(r, Cancel);
    assert r.steps[|p.steps| + 2].Cancel?;
  }

  /** The room made by the drain lets a waiting producer in, too late for the flush. */
  lemma LateEntry<E>(p: Run<E>) returns (r: Run<E>)
    requires p.Valid() && p.states[|p.steps|].flush.NotStarted? && !p.states[|p.steps|].phase.Stopped?
    requires p.states[|p.steps|].waiting != []
    ensures ShutsDown(p, r) && r.states[|r.steps|].queue != []
  {
    r := Extend(p, Drain);
    r := Extend(r, PutAfterWait(0));
    r := Extend(r, WriteFlush(true));
    r := Extend(r, Cancel);
    assert r.steps[|p.steps| + 3].Cancel?;
  }

  lemma AccountedFor<E>(p: Run<E>, r: Run<E>)
    requires p.Valid() && ShutsDown(p, r) && p.states[|p.steps|].flush.NotStarted?
    ensures
      var s := r.states[|r.steps|];
      AllButLost(s, LostBefore(p) + multiset(s.abandoned)) <==> s.queue == []
  {
    var c :| |p.steps| <= c < |r.steps| && r.steps[c].Cancel?;
    NoMoreLost(p, r, |r.steps|);
    HandAloneIsLost(r, c);
    var s := r.states[|r.steps|];
    assert Rows(s) + (LostBefore(p) + multiset(s.abandoned)) == Rows(s) + LostBefore(p) + multiset(s.abandoned);
  }

  /** When it is exactly the batch in the worker's hand that a shutdown loses, whatever the order of its
      steps: if and only if no producer waits for room in the queue when the flush drains it. */
  lemma ShutdownLosesBatchInHand<E(!new)>(p: Run<E>)
    requires p.Valid() && p.states[|p.steps|].flush.NotStarted? && !p.states[|p.steps|].phase.Stopped?
    ensures
      (forall r :: ShutsDown(p, r) ==>
         AllButLost(r.states[|r.steps|], LostBefore(p) + multiset(r.states[|r.steps|].abandoned))) <==>
      p.states[|p.steps|].waiting == []
  {
    if p.states[|p.steps|].waiting == [] {
      forall r | ShutsDown(p, r)
        ensures AllButLost(r.states[|r.steps|], LostBefore(p) + multiset(r.states[|r.steps|].abandoned))
      {
        StaysEmpty(p, r, |r.steps|);
        AccountedFor(p, r);
      }
    } else {
      var r := LateEntry(p);
      AccountedFor(p, r);
    }
  }

  /** When the promise of the flush holds, that no log is lost: if and only if no producer waits at the
      drain and the worker holds no batch. */
  lemma ShutdownLosesNothing<E(!new)>(p: Run<E>)
    requires p.Valid() && p.states[|p.steps|].flush.NotStarted? && !p.states[|p.steps|].phase.Stopped?
    ensures
      (forall r :: ShutsDown(p, r) ==> AllButLost(r.states[|r.steps|], LostBefore(p))) <==>
      p.states[|p.steps|].waiting == [] && p.states[|p.steps|].batch == []
  {
    if p.states[|p.steps|].waiting != [] {
      var r := LateEntry(p);
      LostIsMissing(p, r);
    } else if p.states[|p.steps|].batch != [] {
      var r := CancelAtOnce(p);
      LostIsMissing(p, r);
    } else {
      forall r | ShutsDown(p, r)
        ensures AllButLost(r.states[|r.steps|], LostBefore(p))
      {
        StaysEmpty(p, r, |r.steps|);
        LostIsMissing(p, r);
      }
    }
  }

  /** Nothing is lost in a shutdown just when the queue and the hand end empty. */
  lemma LostIsMissing<E>(p: Run<E>, r: Run<E>)
    requires p.Valid() && ShutsDown(p, r) && p.states[|p.steps|].flush.NotStarted?
    ensures
      var s := r.states[|r.steps|];
      AllButLost(s, LostBefore(p)) <==> s.queue == [] && s.abandoned == []
  {
    var c :| |p.steps| <= c < |r.steps| && r.steps[c].Cancel?;
    NoMoreLost(p, r, |r.steps|);
    ShutdownAccounts(r, c);
    StoppedForGood(r, c, |r.steps|);
    var s := r.states[|r.steps|];
    assert multiset(s.accepted) == Rows(s) + LostBefore(p) + (multiset(s.abandoned) + multiset(s.queue));
    var more := multiset(s.abandoned) + multiset(s.queue);
    assert |multiset(s.accepted)| == |Rows(s) + LostBefore(p)| + |more|;
    assert |more| == |s.abandoned| + |s.queue|;
    if |more| == 0 {
      assert more == multiset{};
    }
  }

  /** An entry can be lost at shutdown although the database never fails: the flush sees an empty queue
      while the worker still waits for its batch to fill. */
  lemma AcceptedEntryLost<E>(cfg: Settings, entry: E) returns (r: Run<E>)
    requires cfg.batchSize >= 1
    ensures r.Valid() && r.cfg == cfg && |r.steps| == 5 && r.steps[4] == Cancel && Drained(r, 2, 5)
    ensures
      var s := r.states[5];
      s.accepted == [entry] && s.processed == [] && s.flush == Finished([], true) && s.abandoned == [entry]
  {
    r := Run(cfg, [Initial()], []);
    r := Extend(r, PutNowait(entry));
    r := Extend(r, Take);
    r := Extend(r, Drain);
    r := Extend(r, WriteFlush(true));
    r := Extend(r, Cancel);
  }

  /** A producer waits for room when the flush drains the queue. */
  lemma WaitsAtDrain<E>(cfg: Settings, first: E, second: E) returns (r: Run<E>)
    requires cfg.maxSize == 1
    ensures r.Valid() && r.cfg == cfg && |r.steps| == 3
    ensures
      var s := Initial().(waiting := [second], flush := Draining([first]));
      r.states[3] == s.(accepted := [first], taken := [first])
  {
    r := Run(cfg, [Initial()], []);
    r := Extend(r, PutNowait(first));
    assert r.states[1].queue == [first];
    r := Extend(r, Wait(second));
    r := Extend(r, Drain);
  }

  /** Backpressure loses one more: draining the queue lets a waiting producer in, whose entry then stays
      in the queue for good, without being counted as dropped. */
  lemma WaitingEntryLost<E>(cfg: Settings, first: E, second: E) returns (r: Run<E>)
    requires cfg.maxSize == 1
    ensures r.Valid() && r.cfg == cfg && |r.steps| == 6 && r.steps[5] == Cancel
    ensures
      var s := r.states[6];
      && s.accepted == [first, second] && s.flush == Finished([first], true)
      && s.abandoned == [] && s.processed == [] && s.queue == [second] && s.dropped == 0
  {
    r := WaitsAtDrain(cfg, first, second);
    r := Extend(r, PutAfterWait(0));
    r := Extend(r, WriteFlush(true));
    r := Extend(r, Cancel);
  }

  // ----- the code, one method for each stretch between two awaits -----

  datatype PutResult = Queued | MustWait | Dropped

  function PutStep<E>(r: PutResult, entry: E): Step<E> {
    match r case Queued => PutNowait(entry) case MustWait => Wait(entry) case Dropped => Refuse(entry)
  }

  /** These steps, one after the other, lead from one state to another. */
  ghost predicate Leads<E>(cfg: Settings, s: Pipeline<E>, steps: seq<Step<E>>, t: Pipeline<E>)
    decreases |steps|
  {
    if steps == [] then s == t else cfg.Enabled(s, steps[0]) && Leads(cfg, cfg.Apply(s, steps[0]), steps[1..], t)
  }

  lemma {:induction false} LeadsOn<E>(cfg: Settings, s: Pipeline<E>, steps: seq<Step<E>>, m: Pipeline<E>, step: Step<E>)
    requires Leads(cfg, s, steps, m) && cfg.Enabled(m, step)
    ensures Leads(cfg, s, steps + [step], cfg.Apply(m, step))
    decreases |steps|
  {
    if steps == [] {
      assert [] + [step] == [step] && [step][1..] == [];
    } else {
      LeadsOn(cfg, cfg.Apply(s, steps[0]), steps[1..], m, step);
      assert (steps + [step])[1..] == steps[1..] + [step];
    }
  }

  /** Hand and queue together are what was queued before, and what was accepted since. */
  ghost predicate Came<E>(before: Pipeline<E>, s: Pipeline<E>) {
    before.accepted <= s.accepted && s.batch + s.queue == before.queue + s.accepted[|before.accepted|..]
  }

  lemma PutKeepsCame<E>(cfg: Settings, before: Pipeline<E>, s: Pipeline<E>, r: PutResult, entry: E)
    requires Came(before, s) && cfg.Enabled(s, PutStep(r, entry))
    ensures Came(before, cfg.Apply(s, PutStep(r, entry)))
  {
    var n := |before.accepted|;
    assert (s.accepted + [entry])[n..] == s.accepted[n..] + [entry];
    assert s.batch + (s.queue + [entry]) == (s.batch + s.queue) + [entry];
  }

  lemma TakeKeepsCame<E>(cfg: Settings, before: Pipeline<E>, s: Pipeline<E>)
    requires Came(before, s) && cfg.Enabled(s, Take)
    ensures Came(before, cfg.Apply(s, Take))
  {
    assert (s.batch + [s.queue[0]]) + s.queue[1..] == s.batch + s.queue;
  }

  /** The entries that producers bring in these steps. */
  ghost function Offers<E>(steps: seq<Step<E>>): seq<E> {
    if steps == [] then []
    else
      (match steps[0]
       case PutNowait(entry) => [entry]
       case Wait(entry) => [entry]
       case Refuse(entry) => [entry]
       case _ => []) + Offers(steps[1..])
  }

  lemma {:induction false} OffersNext<E>(steps: seq<Step<E>>, step: Step<E>)
    ensures Offers(steps + [step]) == Offers(steps) + Offers([step])
  {
    if steps == [] {
      assert [] + [step] == [step];
    } else {
      OffersNext(steps[1..], step);
      assert (steps + [step])[1..] == steps[1..] + [step];
    }
  }

  /** Those of the first k arrivals. */
  ghost function Arrived<E>(arrivals: seq<seq<E>>, k: nat): seq<E> {
    if k == 0 then [] else Arrived(arrivals, k - 1) + if k - 1 < |arrivals| then arrivals[k - 1] else []
  }

  class AuditLogger<E> {
    const cfg: Settings
    const timeout: real
    var queue: seq<E>
    var dropped: nat
    var batch: seq<E>
    var table: seq<E>

    /** The pipeline state the fields are part of. */
    ghost var model: Pipeline<E>

    ghost predicate Valid()
      reads this
    {
      && model.queue == queue && model.dropped == dropped && model.batch == batch
      && multiset(table) == Rows(model)
    }

    constructor (cfg: Settings, timeout: real)
      ensures Valid() && model == Initial() && this.cfg == cfg && this.timeout == timeout
    {
      this.cfg, this.timeout := cfg, timeout;
      queue, dropped, batch, table := [], 0, [], [];
      model := Initial();
    }

    /** The put of log_user_action, up to the point where it may have to wait. */
    method LogUserAction(entry: E) returns (r: PutResult)
      requires Valid()
      modifies this
      ensures Valid()
      ensures r.Queued? <==> cfg.maxSize <= 0 || |old(queue)| < cfg.maxSize
      ensures !r.Queued? ==> r == if timeout > 0.0 then MustWait else Dropped
      ensures queue == old(queue) + (if r.Queued? then [entry] else [])
      ensures dropped == old(dropped) + if r.Dropped? then 1 else 0
      ensures cfg.Enabled(old(model), PutStep(r, entry)) && model == cfg.Apply(old(model), PutStep(r, entry))
    {
      if !cfg.Full(queue) {
        queue := queue + [entry];
        model := cfg.Apply(model, PutNowait(entry));
        return Queued;
      } else if timeout > 0.0 {
        model := cfg.Apply(model, Wait(entry));
        return MustWait;
      } else {
        dropped := dropped + 1;
        model := cfg.Apply(model, Refuse(entry));
        return Dropped;
      }
    }

    /** The end of that wait: room in the queue, or the timeout. */
    method EndWait(ghost i: nat, entry: E, timedOut: bool) returns (queued: bool)
      requires Valid() && i < |model.waiting| && model.waiting[i] == entry && (!timedOut ==> !cfg.Full(queue))
      modifies this
      ensures Valid() && queued == !timedOut
      ensures model == cfg.Apply(old(model), if timedOut then WaitTimeout(i) else PutAfterWait(i))
    {
      if timedOut {
        dropped := dropped + 1;
        model := cfg.Apply(model, WaitTimeout(i));
      } else {
        queue := queue + [entry];
        model := cfg.Apply(model, PutAfterWait(i));
      }
      return !timedOut;
    }

    /** The collecting loop of the worker. While it waits for the k-th entry the producers `arrivals[k]`
        come along; if the queue is empty even then, the wait times out. The entries taken are the oldest
        of those that were queued before or meanwhile. */
    method CollectBatch(arrivals: seq<seq<E>>) returns (ghost steps: seq<Step<E>>)
      requires Valid() && model.phase.Collecting? && batch == []
      modifies this
      ensures Valid() && Leads(cfg, old(model), steps, model)
      ensures Came(old(model), model)
      ensures |batch| < cfg.batchSize ==> queue == []
      ensures cfg.batchSize > 0 ==> |batch| <= cfg.batchSize
      ensures model.phase == if batch == [] then Collecting else Writing
      ensures
        var waits := |batch| + if |batch| < cfg.batchSize then 1 else 0;
        Offers(steps) == Arrived(arrivals, waits)
    {
      ghost var before := model;
      var k := 0;
      steps := [];
      while k < cfg.batchSize
        invariant 0 <= k == |batch| && (k == 0 || k <= cfg.batchSize)
        invariant Valid() && Leads(cfg, before, steps, model) && Came(before, model)
        invariant model.phase == if k > 0 && k == cfg.batchSize then Writing else Collecting
        invariant Offers(steps) == Arrived(arrivals, k)
      {
        var taken, later := CollectOne(if k < |arrivals| then arrivals[k] else [], before, steps);
        steps := steps + later;
        if !taken {
          return;
        }
        k := k + 1;
      }
    }

    /** One wait for an entry, in which these producers come along. */
    method CollectOne(entries: seq<E>, ghost before: Pipeline<E>, ghost steps: seq<Step<E>>)
        returns (taken: bool, ghost later: seq<Step<E>>)
      requires Valid() && model.phase.Collecting? && |batch| < cfg.batchSize
      requires Leads(cfg, before, steps, model) && Came(before, model)
      modifies this
      ensures Valid() && Leads(cfg, before, steps + later, model) && Came(before, model)
      ensures Offers(steps + later) == Offers(steps) + entries
      ensures |batch| == old(|batch|) + if taken then 1 else 0
      ensures taken ==> model.phase == if |batch| == cfg.batchSize then Writing else Collecting
      ensures !taken ==> queue == [] && model.phase == if batch == [] then Collecting else Writing
    {
      later := Arrive(entries, before, steps);
      taken := queue != [];
      ghost var step := if taken then Take else BatchTimeout;
      LeadsOn(cfg, before, steps + later, model, step);
      OffersNext(steps + later, step);
      if taken {
        TakeKeepsCame(cfg, before, model);
        batch, queue := batch + [queue[0]], queue[1..];
      }
      model := cfg.Apply(model, step);
      assert steps + later + [step] == steps + (later + [step]);
      later := later + [step];
    }

    /** Producers that find the worker waiting, one after the other. */
    method Arrive(entries: seq<E>, ghost before: Pipeline<E>, ghost steps: seq<Step<E>>)
        returns (ghost later: seq<Step<E>>)
      requires Valid() && Leads(cfg, before, steps, model) && Came(before, model)
      modifies this
      ensures Valid() && Leads(cfg, before, steps + later, model) && Came(before, model)
      ensures model.phase == old(model.phase) && batch == old(batch)
      ensures Offers(steps + later) == Offers(steps) + entries
    {
      ghost var start := model;
      later := [];
      assert steps + later == steps;
      for i := 0 to |entries|
        invariant Valid() && Leads(cfg, before, steps + later, model)
        invariant Came(before, model) && model.phase == start.phase && batch == start.batch
        invariant Offers(steps + later) == Offers(steps) + entries[..i]
      {
        ghost var m := model;
        var r := LogUserAction(entries[i]);
        ghost var step := PutStep(r, entries[i]);
        PutKeepsCame(cfg, before, m, r, entries[i]);
        LeadsOn(cfg, before, steps + later, m, step);
        OffersNext(steps + later, step);
        assert Offers([step]) == [entries[i]] by {
          assert [step][1..] == [];
        }
        assert steps + later + [step] == steps + (later + [step]);
        later := later + [step];
      }
    }

    /** One transaction for the whole batch; a failed one loses it. */
    method WriteBatch(ok: bool)
      requires Valid() && model.phase.Writing?
      modifies this
      ensures Valid() && model == cfg.Apply(old(model), Step.WriteBatch(ok))
      ensures table == (if ok then old(table) + old(batch) else old(table)) && batch == []
    {
      assert (model.processed + [Batch(batch, ok)])[..|model.processed|] == model.processed;
      if ok {
        table := table + batch;
      }
      model := cfg.Apply(model, Step.WriteBatch(ok));
      batch := [];
    }

    method DrainQueue() returns (remaining: seq<E>)
      modifies this`queue
      ensures queue == [] && remaining == old(queue)
    {
      remaining := [];
      while queue != []
        invariant remaining + queue == old(queue)
        decreases |queue|
      {
        remaining, queue := remaining + [queue[0]], queue[1..];
      }
    }

    /** Shutdown: empty the queue and write what was in it. */
    method FlushAuditQueue(ok: bool) returns (flushed: nat)
      requires Valid() && model.flush.NotStarted?
      modifies this
      ensures Valid() && model == cfg.Apply(cfg.Apply(old(model), Drain), WriteFlush(ok))
      ensures queue == [] && table == (if ok then old(table) + old(queue) else old(table))
      ensures flushed == if ok then |old(queue)| else 0
    {
      ghost var before := model;
      var remaining := DrainQueue();
      flushed := 0;
      if remaining != [] && ok {
        table := table + remaining;
        flushed := |remaining|;
      }
      model := cfg.Apply(cfg.Apply(model, Drain), WriteFlush(ok));
      assert multiset(table) == Rows(model) by {
        assert Rows(model) == Rows(before) + if ok then multiset(remaining) else multiset{};
      }
    }
  }
}
