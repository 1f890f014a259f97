/**
  The bounded worker pool of the collection planner, as a transition system.

  A producer goroutine offers the jobs one by one on an unbuffered channel, `limit` workers
  receive them and put one result each on a buffered channel, the caller waits for the
  workers, and the environment may cancel the context at any moment, once and for good.
  Jobs are numbered 0 .. jobs-1; O is the type of what a collector returns.
 */
module WorkerPool {
  import Sorting

  datatype Config<!O> = Config(jobs: nat, maxConcurrency: int, allowed: (nat, O) -> bool)

  /** `next` is the first job that has not been handed to a worker. */
  datatype Producer = Checking(next: nat) | Offering(next: nat) | Stopped(next: nat)

  datatype Worker<O> =
    | Receiving
    | Holding(job: nat)
    | Collecting(job: nat)
    | Reporting(job: nat, outcome: O)
    | Quit

  datatype BatchResult<O> = BatchResult(index: nat, outcome: O)

  datatype Caller<O> = Awaiting | ResultsClosed | ReturnedError | Returned(results: seq<BatchResult<O>>)

  /** `dropped` records the jobs that a worker received and then left because of cancellation. */
  datatype State<O> = State(
    cancelled: bool,
    producer: Producer,
    workers: seq<Worker<O>>,
    results: seq<BatchResult<O>>,
    dropped: seq<nat>,
    caller: Caller<O>)

  datatype Action<O> =
    | Cancel
    | ProducerCheck
    | ProducerAbort
    | Send(worker: nat)
    | WorkerSeesClosed(worker: nat)
    | WorkerCheck(worker: nat)
    | CollectReturns(worker: nat, outcome: O)
    | Report(worker: nat)
    | CloseResults
    | CallerReturns(results: seq<BatchResult<O>>)

  function Limit(cfg: Config): (limit: nat)
    ensures cfg.jobs > 0 ==> 1 <= limit <= cfg.jobs
  {
    var limit := if cfg.maxConcurrency < 1 then 1 else cfg.maxConcurrency;
    if limit > cfg.jobs then cfg.jobs else limit
  }

  function Init<O>(cfg: Config<O>): State<O> {
    State(false, Checking(0), seq(Limit(cfg), _ => Receiving), [], [], Awaiting)
  }

  function ByIndex<O>(): (BatchResult<O>, BatchResult<O>) -> bool {
    (a: BatchResult<O>, b: BatchResult<O>) => a.index < b.index
  }

  predicate Enabled<O(!new, ==)>(cfg: Config<O>, s: State<O>, a: Action<O>) {
    match a
    case Cancel => !s.cancelled
    case ProducerCheck => s.producer.Checking?
    case ProducerAbort => s.producer.Offering? && s.cancelled
    case Send(w) => s.producer.Offering? && w < |s.workers| && s.workers[w].Receiving?
    case WorkerSeesClosed(w) => s.producer.Stopped? && w < |s.workers| && s.workers[w].Receiving?
    case WorkerCheck(w) => w < |s.workers| && s.workers[w].Holding?
    case CollectReturns(w, outcome) =>
      w < |s.workers| && s.workers[w].Collecting? && cfg.allowed(s.workers[w].job, outcome)
    case Report(w) =>
      w < |s.workers| && s.workers[w].Reporting? && |s.results| < cfg.jobs   // room in the channel buffer
    case CloseResults => s.caller.Awaiting? && forall w | 0 <= w < |s.workers| :: s.workers[w].Quit?
    case CallerReturns(results) =>
      s.caller.ResultsClosed? &&
      (s.cancelled || (multiset(results) == multiset(s.results) && Sorting.SortedBy(results, ByIndex())))
  }

  function Apply<O(!new, ==)>(cfg: Config<O>, s: State<O>, a: Action<O>): State<O>
    requires Enabled(cfg, s, a)
  {
    match a
    case Cancel => s.(cancelled := true)
    case ProducerCheck =>
      var k := s.producer.next;
      if k >= cfg.jobs || s.cancelled then s.(producer := Stopped(k)) else s.(producer := Offering(k))
    case ProducerAbort => s.(producer := Stopped(s.producer.next))
    case Send(w) =>
      var k := s.producer.next;
      s.(producer := Checking(k + 1), workers := s.workers[w := Holding(k)])
    case WorkerSeesClosed(w) => s.(workers := s.workers[w := Quit])
    case WorkerCheck(w) =>
      var job := s.workers[w].job;
      if s.cancelled then s.(workers := s.workers[w := Quit], dropped := s.dropped + [job])
      else s.(workers := s.workers[w := Collecting(job)])
    case CollectReturns(w, outcome) =>
      s.(workers := s.workers[w := Reporting(s.workers[w].job, outcome)])
    case Report(w) =>
      var r := BatchResult(s.workers[w].job, s.workers[w].outcome);
      s.(workers := s.workers[w := Receiving], results := s.results + [r])
    case CloseResults => s.(caller := ResultsClosed)
    case CallerReturns(results) => s.(caller := if s.cancelled then ReturnedError else Returned(results))
  }

  /** An interleaving: any sequence of enabled actions from the initial state, stopped anywhere. */
  ghost predicate IsRun<O(!new)>(cfg: Config<O>, states: seq<State<O>>, actions: seq<Action<O>>) {
    && |states| == |actions| + 1
    && states[0] == Init(cfg)
    && forall i | 0 <= i < |actions| ::
         Enabled(cfg, states[i], actions[i]) && states[i + 1] == Apply(cfg, states[i], actions[i])
  }

  ghost predicate Terminal<O>(s: State<O>) {
    && (s.caller.ReturnedError? || s.caller.Returned?)
    && s.producer.Stopped?
    && forall w | 0 <= w < |s.workers| :: s.workers[w].Quit?
  }

  // ---- where each job is -------------------------------------------------------------------

  ghost predicate Busy<O>(w: Worker<O>) {
    w.Holding? || w.Collecting? || w.Reporting?
  }

  ghost predicate Holds<O>(w: Worker<O>, job: nat) {
    Busy(w) && w.job == job
  }

  ghost function Busies<O>(): Worker<O> -> bool {
    (w: Worker<O>) => Busy(w)
  }

  ghost function Holder<O>(job: nat): Worker<O> -> bool {
    (w: Worker<O>) => Holds(w, job)
  }

  ghost function Reports<O>(job: nat): BatchResult<O> -> bool {
    (r: BatchResult<O>) => r.index == job
  }

  ghost function Is(job: nat): nat -> bool {
    j => j == job
  }

  /** The number of places job `job` is in: workers, result channel, dropped. */
  ghost function Places<O>(s: State<O>, job: nat): nat {
    Sorting.Count(s.workers, Holder(job)) +
    Sorting.Count(s.results, Reports(job)) +
    Sorting.Count(s.dropped, Is(job))
  }

  ghost function InFlight<O>(s: State<O>): nat {
    Sorting.Count(s.workers, Busies())
  }

  /** What a caller that got results holds: job i's outcome at position i, for every job. */
  ghost predicate IsAnswer<O(!new)>(cfg: Config<O>, results: seq<BatchResult<O>>) {
    && |results| == cfg.jobs
    && forall i | 0 <= i < cfg.jobs :: results[i].index == i && cfg.allowed(i, results[i].outcome)
  }

  /** Every job handed out is in exactly one place. */
  ghost predicate Conserved<O(!new)>(cfg: Config<O>, s: State<O>) {
    && s.producer.next <= cfg.jobs
    && (forall job: nat :: Places(s, job) == if job < s.producer.next then 1 else 0)
    && InFlight(s) + |s.results| + |s.dropped| == s.producer.next
  }

  /** Who may be where, before and after cancellation. */
  ghost predicate InControl<O(!new)>(cfg: Config<O>, s: State<O>) {
    && |s.workers| == Limit(cfg)
    && (s.producer.Offering? ==> s.producer.next < cfg.jobs)
    && (s.producer.Stopped? && s.producer.next < cfg.jobs ==> s.cancelled)
    && (forall w | 0 <= w < |s.workers| :: s.workers[w].Quit? ==> s.producer.Stopped? || s.cancelled)
    && (s.dropped != [] ==> s.cancelled)
    && (!s.caller.Awaiting? ==> forall w | 0 <= w < |s.workers| :: s.workers[w].Quit?)
    && (s.caller.ReturnedError? ==> s.cancelled)
  }

  /** Every outcome on its way or handed back is one its collector may have. */
  ghost predicate Honest<O(!new)>(cfg: Config<O>, s: State<O>) {
    && (forall w | 0 <= w < |s.workers| ::
          s.workers[w].Reporting? ==> cfg.allowed(s.workers[w].job, s.workers[w].outcome))
    && (forall i | 0 <= i < |s.results| :: cfg.allowed(s.results[i].index, s.results[i].outcome))
    && (s.caller.Returned? ==> IsAnswer(cfg, s.caller.results))
  }

  ghost predicate Inv<O(!new)>(cfg: Config<O>, s: State<O>) {
    Conserved(cfg, s) && InControl(cfg, s) && Honest(cfg, s)
  }

  lemma {:induction false} CountUpdate<T>(xs: seq<T>, i: nat, x: T, p: T -> bool)
    requires i < |xs|
    ensures Sorting.Count(xs[i := x], p) + (if p(xs[i]) then 1 else 0) == Sorting.Count(xs, p) + (if p(x) then 1 else 0)
  {
    var rest := xs[..i] + xs[i + 1..];
    Sorting.CountDropAt(xs, i, p);
    Sorting.CountDropAt(xs[i := x], i, p);
    assert xs[i := x][..i] + xs[i := x][i + 1..] == rest;
  }

  lemma {:induction false} CountNone<T>(xs: seq<T>, p: T -> bool)
    requires forall i | 0 <= i < |xs| :: !p(xs[i])
    ensures Sorting.Count(xs, p) == 0
  {
    if xs != [] {
      CountNone(xs[..|xs| - 1], p);
    }
  }

  lemma {:induction false} CountSome<T>(xs: seq<T>, i: nat, p: T -> bool)
    requires i < |xs| && p(xs[i])
    ensures Sorting.Count(xs, p) > 0
  {
    Sorting.CountDropAt(xs, i, p);
  }

  lemma {:induction false} CountAtMostAll<T>(xs: seq<T>, p: T -> bool)
    ensures Sorting.Count(xs, p) <= |xs|
  {
    if xs != [] {
      CountAtMostAll(xs[..|xs| - 1], p);
    }
  }

  lemma CountPush<T>(xs: seq<T>, x: T, p: T -> bool)
    ensures Sorting.Count(xs + [x], p) == Sorting.Count(xs, p) + (if p(x) then 1 else 0)
  {
    assert (xs + [x])[..|xs|] == xs;
  }

  lemma InitInv<O(!new)>(cfg: Config<O>)
    ensures Inv(cfg, Init(cfg))
  {
    var s := Init(cfg);
    CountNone(s.workers, Busies());
    forall job: nat ensures Places(s, job) == 0 {
      CountNone(s.workers, Holder(job));
    }
  }

  /** Moving one worker moves exactly the job it held. */
  lemma PlacesStep<O(!new)>(s: State<O>, t: State<O>, w: nat, results: seq<BatchResult<O>>, dropped: seq<nat>)
    requires w < |s.workers| == |t.workers| && t.workers == s.workers[w := t.workers[w]]
    requires |results| + |dropped| <= 1 && t.results == s.results + results && t.dropped == s.dropped + dropped
    ensures forall job: nat ::
      Places(t, job) + (if Holds(s.workers[w], job) then 1 else 0) ==
      Places(s, job) + (if Holds(t.workers[w], job) then 1 else 0)
        + (if results != [] && results[0].index == job then 1 else 0)
        + (if dropped != [] && dropped[0] == job then 1 else 0)
    ensures InFlight(t) + (if Busy(s.workers[w]) then 1 else 0) == InFlight(s) + (if Busy(t.workers[w]) then 1 else 0)
  {
    CountUpdate(s.workers, w, t.workers[w], Busies());
    forall job: nat
      ensures Places(t, job) + (if Holds(s.workers[w], job) then 1 else 0) ==
        Places(s, job) + (if Holds(t.workers[w], job) then 1 else 0)
          + (if results != [] && results[0].index == job then 1 else 0)
          + (if dropped != [] && dropped[0] == job then 1 else 0)
    {
      CountUpdate(s.workers, w, t.workers[w], Holder(job));
      assert s.results + [] == s.results && s.dropped + [] == s.dropped;
      if results != [] {
        assert results == [results[0]] && dropped == [];
        CountPush(s.results, results[0], Reports(job));
      } else if dropped != [] {
        assert dropped == [dropped[0]] && results == [];
        CountPush(s.dropped, dropped[0], Is(job));
      }
    }
  }

  /** When the caller gets past its cancellation check, every job has reported. */
  lemma AllReported<O(!new)>(cfg: Config<O>, s: State<O>)
    requires Inv(cfg, s) && !s.cancelled && cfg.jobs > 0
    requires forall w | 0 <= w < |s.workers| :: s.workers[w].Quit?
    ensures |s.results| == cfg.jobs
    ensures forall job: nat ::
      Sorting.Count(s.results, Reports(job)) == if job < cfg.jobs then 1 else 0
  {
    assert s.workers[0].Quit?;
    assert s.dropped == [] && s.producer.next == cfg.jobs;
    CountNone(s.workers, Busies());
    forall job: nat
      ensures Sorting.Count(s.results, Reports(job)) == if job < cfg.jobs then 1 else 0
    {
      CountNone(s.workers, Holder(job));
      assert Places(s, job) == if job < cfg.jobs then 1 else 0;
    }
  }

  lemma TwoOccurrences<T>(xs: seq<T>, i: nat, k: nat, p: T -> bool)
    requires i < k < |xs| && p(xs[i]) && p(xs[k])
    ensures Sorting.Count(xs, p) >= 2
  {
    Sorting.CountDropAt(xs, k, p);
    CountSome(xs[..k] + xs[k + 1..], i, p);
  }

  /** Draining and sorting results that hold every index once puts job i at position i. */
  lemma {:induction false} SortedResultsAreInJobOrder<O(!new)>(n: nat, queue: seq<BatchResult<O>>, sorted: seq<BatchResult<O>>)
    requires multiset(sorted) == multiset(queue) && |queue| == n && Sorting.SortedBy(sorted, ByIndex())
    requires forall job: nat ::
      Sorting.Count(queue, Reports(job)) == if job < n then 1 else 0
    ensures |sorted| == n && forall i | 0 <= i < n :: sorted[i].index == i
  {
    Sorting.SameElements(sorted, queue);
    forall i, k | 0 <= i < k < n ensures sorted[i].index < sorted[k].index {
      assert !ByIndex<O>()(sorted[k], sorted[i]);
      var job := sorted[i].index;
      if sorted[k].index == job {
        var p := Reports<O>(job);
        TwoOccurrences(sorted, i, k, p);
        Sorting.CountPermutation(sorted, queue, p);
      }
    }
    var indices := seq(n, i requires 0 <= i < n => sorted[i].index);
    forall i | 0 <= i < n ensures indices[i] < n {
      var p := Reports<O>(sorted[i].index);
      CountSome(sorted, i, p);
      Sorting.CountPermutation(sorted, queue, p);
    }
    StrictlyIncreasingBelow(indices);
    assert forall i | 0 <= i < n :: indices[i] == sorted[i].index;
  }

  lemma {:induction false} StrictlyIncreasingBelow(xs: seq<nat>)
    requires forall i, k | 0 <= i < k < |xs| :: xs[i] < xs[k]
    requires forall i | 0 <= i < |xs| :: xs[i] < |xs|
    ensures forall i | 0 <= i < |xs| :: xs[i] == i
  {
    if xs != [] {
      var n := |xs| - 1;
      var front := xs[..n];
      forall i | 0 <= i < n ensures front[i] < n {
        assert xs[i] < xs[n];
      }
      StrictlyIncreasingBelow(front);
      forall i | 0 <= i < n ensures xs[i] == i {
        assert front[i] == xs[i];
      }
      if n > 0 {
        assert xs[n - 1] < xs[n];
      }
    }
  }

  // ---- the invariant is kept by every action -----------------------------------------------

  ghost predicate WorkerAction<O>(a: Action<O>) {
    a.Send? || a.WorkerSeesClosed? || a.WorkerCheck? || a.CollectReturns? || a.Report?
  }

  lemma WorkerStepConserves<O(!new)>(cfg: Config<O>, s: State<O>, a: Action<O>)
    requires cfg.jobs > 0 && Inv(cfg, s) && Enabled(cfg, s, a) && WorkerAction(a)
    ensures Conserved(cfg, Apply(cfg, s, a))
  {
    var t := Apply(cfg, s, a);
    var w := a.worker;
    var results := if a.Report? then [BatchResult(s.workers[w].job, s.workers[w].outcome)] else [];
    var dropped := if a.WorkerCheck? && s.cancelled then [s.workers[w].job] else [];
    PlacesStep(s, t, w, results, dropped);
  }

  lemma WorkerStepControl<O(!new)>(cfg: Config<O>, s: State<O>, a: Action<O>)
    requires cfg.jobs > 0 && Inv(cfg, s) && Enabled(cfg, s, a) && WorkerAction(a)
    ensures InControl(cfg, Apply(cfg, s, a)) && Honest(cfg, Apply(cfg, s, a))
  {
  }

  lemma WorkerStepInv<O(!new)>(cfg: Config<O>, s: State<O>, a: Action<O>)
    requires cfg.jobs > 0 && Inv(cfg, s) && Enabled(cfg, s, a) && WorkerAction(a)
    ensures Inv(cfg, Apply(cfg, s, a))
  {
    WorkerStepConserves(cfg, s, a);
    WorkerStepControl(cfg, s, a);
  }

  lemma StepInv<O(!new)>(cfg: Config<O>, s: State<O>, a: Action<O>)
    requires cfg.jobs > 0 && Inv(cfg, s) && Enabled(cfg, s, a)
    ensures Inv(cfg, Apply(cfg, s, a))
  {
    var t := Apply(cfg, s, a);
    match a
    case Send(_) => WorkerStepInv(cfg, s, a);
    case WorkerSeesClosed(_) => WorkerStepInv(cfg, s, a);
    case WorkerCheck(_) => WorkerStepInv(cfg, s, a);
    case CollectReturns(_, _) => WorkerStepInv(cfg, s, a);
    case Report(_) => WorkerStepInv(cfg, s, a);
    case CallerReturns(results) =>
      assert forall job: nat :: Places(t, job) == Places(s, job);
      if !s.cancelled {
        AllReported(cfg, s);
        SortedResultsAreInJobOrder(cfg.jobs, s.results, results);
        Sorting.SameElements(results, s.results);
        forall i | 0 <= i < cfg.jobs ensures cfg.allowed(i, results[i].outcome) {
          assert results[i] in s.results;
        }
      }
    case _ => assert forall job: nat :: Places(t, job) == Places(s, job);
  }

  lemma {:induction false} RunInv<O(!new)>(cfg: Config<O>, states: seq<State<O>>, actions: seq<Action<O>>)
    requires cfg.jobs > 0 && IsRun(cfg, states, actions)
    ensures forall i | 0 <= i < |states| :: Inv(cfg, states[i])
  {
    if actions == [] {
      InitInv(cfg);
    } else {
      var n := |actions| - 1;
      RunInv(cfg, states[..n + 1], actions[..n]);
      assert Inv(cfg, states[..n + 1][n]);
      StepInv(cfg, states[n], actions[n]);
    }
  }

  // ---- safety ------------------------------------------------------------------------------

  /** In every state of every interleaving: each job is in exactly one place or not yet sent, a job is
      dropped or left unsent by a stopped producer only after cancellation, at most Limit collectors
      run, a worker with a result to send finds room in the channel, and the channel is still open. */
  lemma Safety<O(!new)>(cfg: Config<O>, states: seq<State<O>>, actions: seq<Action<O>>, i: nat)
    requires cfg.jobs > 0 && IsRun(cfg, states, actions) && i < |states|
    ensures forall job: nat :: Places(states[i], job) == if job < states[i].producer.next then 1 else 0
    ensures states[i].producer.next <= cfg.jobs
    ensures !states[i].cancelled ==>
      states[i].dropped == [] && (states[i].producer.Stopped? ==> states[i].producer.next == cfg.jobs)
    ensures InFlight(states[i]) <= Limit(cfg)
    ensures forall w | 0 <= w < |states[i].workers| && states[i].workers[w].Reporting? ::
      Enabled(cfg, states[i], Report(w)) && states[i].caller.Awaiting?
  {
    RunInv(cfg, states, actions);
    var s := states[i];
    CountAtMostAll(s.workers, Busies());
    forall w | 0 <= w < |s.workers| && s.workers[w].Reporting?
      ensures Enabled(cfg, s, Report(w)) && s.caller.Awaiting?
    {
      CountSome(s.workers, w, Busies());
    }
  }

  /** The first k workers hold the first k jobs, and nothing else has happened. */
  function Filled<O>(cfg: Config<O>, k: nat): State<O> {
    State(false, Checking(k), seq(Limit(cfg), (w: nat) => if w < k then Holding(w) else Receiving), [], [], Awaiting)
  }

  lemma {:induction false} FillPool<O(!new)>(cfg: Config<O>, k: nat) returns (states: seq<State<O>>, actions: seq<Action<O>>)
    requires k <= Limit(cfg)
    ensures IsRun(cfg, states, actions) && states[|actions|] == Filled(cfg, k)
  {
    if k == 0 {
      states, actions := [Init(cfg)], [];
      assert Filled(cfg, 0).workers == Init(cfg).workers;
    } else {
      var front, done := FillPool(cfg, k - 1);
      var s := Filled(cfg, k - 1);
      var offering := s.(producer := Offering(k - 1));
      assert Apply(cfg, s, ProducerCheck) == offering;
      assert Apply(cfg, offering, Send(k - 1)).workers == Filled(cfg, k).workers;
      states, actions := front + [offering, Filled(cfg, k)], done + [ProducerCheck, Send(k - 1)];
    }
  }

  lemma {:induction false} CountAll<T>(xs: seq<T>, p: T -> bool)
    requires forall i | 0 <= i < |xs| :: p(xs[i])
    ensures Sorting.Count(xs, p) == |xs|
  {
    if xs != [] {
      CountAll(xs[..|xs| - 1], p);
    }
  }

  /** The bound of Safety is tight: some run has as many jobs in flight as the setting and the number of
      jobs allow. */
  lemma LimitIsReached<O(!new)>(cfg: Config<O>) returns (states: seq<State<O>>, actions: seq<Action<O>>)
    requires cfg.jobs > 0
    ensures IsRun(cfg, states, actions)
    ensures var most := if cfg.maxConcurrency < 1 then 1 else cfg.maxConcurrency;
      InFlight(states[|actions|]) == if most < cfg.jobs then most else cfg.jobs
  {
    states, actions := FillPool(cfg, Limit(cfg));
    CountAll(Filled(cfg, Limit(cfg)).workers, Busies());
  }

  /** Cancellation is never taken back. */
  lemma {:induction false} CancellationIsFinal<O(!new)>(cfg: Config<O>, states: seq<State<O>>, actions: seq<Action<O>>, i: nat, k: nat)
    requires IsRun(cfg, states, actions) && i <= k < |states| && states[i].cancelled
    ensures states[k].cancelled
  {
    if i < k {
      CancellationIsFinal(cfg, states, actions, i, k - 1);
      assert states[k - 1 + 1] == Apply(cfg, states[k - 1], actions[k - 1]);
    }
  }

  /** Jobs handed out, and the one on offer. */
  function Offered<O>(s: State<O>): nat {
    s.producer.next + (if s.producer.Offering? then 1 else 0)
  }

  /** In a cancelled pool no step offers another job or starts another collector. */
  lemma CancelledStep<O(!new)>(cfg: Config<O>, s: State<O>, a: Action<O>)
    requires s.cancelled && Enabled(cfg, s, a)
    ensures var t := Apply(cfg, s, a);
      && t.cancelled && Offered(t) <= Offered(s) && |t.workers| == |s.workers|
      && forall w | 0 <= w < |t.workers| && t.workers[w].Collecting? :: s.workers[w] == t.workers[w]
  {
  }

  /** From a cancellation on at most one more job is handed out, and no collector is started: a worker that
      collects was collecting the same job then. */
  lemma {:induction false} CancellationStopsWork<O(!new)>(cfg: Config<O>, states: seq<State<O>>, actions: seq<Action<O>>, i: nat, k: nat)
    requires IsRun(cfg, states, actions) && i <= k < |states| && states[i].cancelled
    ensures states[k].cancelled && Offered(states[k]) <= Offered(states[i]) <= states[i].producer.next + 1
    ensures |states[k].workers| == |states[i].workers|
    ensures forall w | 0 <= w < |states[k].workers| && states[k].workers[w].Collecting? :: states[i].workers[w] == states[k].workers[w]
  {
    if i < k {
      CancellationStopsWork(cfg, states, actions, i, k - 1);
      CancelledStep(cfg, states[k - 1], actions[k - 1]);
      assert states[k - 1 + 1] == Apply(cfg, states[k - 1], actions[k - 1]);
    }
  }

  // ---- progress ----------------------------------------------------------------------------

  ghost function WorkerWork<O>(w: Worker<O>): nat {
    match w
    case Receiving => 1
    case Holding(_) => 4
    case Collecting(_) => 3
    case Reporting(_, _) => 2
    case Quit => 0
  }

  ghost function WorkersWork<O>(ws: seq<Worker<O>>): nat {
    if ws == [] then 0 else WorkersWork(ws[..|ws| - 1]) + WorkerWork(ws[|ws| - 1])
  }

  ghost function ProducerWork<O>(cfg: Config<O>, p: Producer): int {
    match p
    case Checking(k) => 5 * (cfg.jobs - k) + 1
    case Offering(k) => 5 * (cfg.jobs - k)
    case Stopped(_) => 0
  }

  /** Steps that can still be taken, at most. */
  ghost function Measure<O>(cfg: Config<O>, s: State<O>): int {
    ProducerWork(cfg, s.producer) + WorkersWork(s.workers) + (if s.cancelled then 0 else 1) +
    (match s.caller case Awaiting => 2 case ResultsClosed => 1 case _ => 0)
  }

  lemma {:induction false} WorkUpdate<O>(ws: seq<Worker<O>>, i: nat, w: Worker<O>)
    requires i < |ws|
    ensures WorkersWork(ws[i := w]) == WorkersWork(ws) - WorkerWork(ws[i]) + WorkerWork(w)
  {
    var last := |ws| - 1;
    if i == last {
      assert ws[i := w][..last] == ws[..last];
    } else {
      WorkUpdate(ws[..last], i, w);
      assert ws[i := w][..last] == ws[..last][i := w];
    }
  }

  lemma {:induction false} WorkOfIdle<O>(ws: seq<Worker<O>>)
    requires forall w | 0 <= w < |ws| :: ws[w].Receiving?
    ensures WorkersWork(ws) == |ws|
  {
    if ws != [] {
      WorkOfIdle(ws[..|ws| - 1]);
    }
  }

  lemma StepDecreases<O(!new)>(cfg: Config<O>, s: State<O>, a: Action<O>)
    requires cfg.jobs > 0 && Inv(cfg, s) && Enabled(cfg, s, a)
    ensures 0 <= Measure(cfg, Apply(cfg, s, a)) < Measure(cfg, s)
  {
    var t := Apply(cfg, s, a);
    StepInv(cfg, s, a);
    match a
    case Send(w) => WorkUpdate(s.workers, w, t.workers[w]);
    case WorkerSeesClosed(w) => WorkUpdate(s.workers, w, t.workers[w]);
    case WorkerCheck(w) => WorkUpdate(s.workers, w, t.workers[w]);
    case CollectReturns(w, _) => WorkUpdate(s.workers, w, t.workers[w]);
    case Report(w) => WorkUpdate(s.workers, w, t.workers[w]);
    case _ =>
  }

  lemma {:induction false} MeasureAlongRun<O(!new)>(cfg: Config<O>, states: seq<State<O>>, actions: seq<Action<O>>)
    requires cfg.jobs > 0 && IsRun(cfg, states, actions)
    ensures 0 <= Measure(cfg, states[|actions|]) <= Measure(cfg, Init(cfg)) - |actions|
  {
    var n := |actions|;
    if n > 0 {
      MeasureAlongRun(cfg, states[..n], actions[..n - 1]);
      RunInv(cfg, states, actions);
      StepDecreases(cfg, states[n - 1], actions[n - 1]);
      assert states[n - 1 + 1] == Apply(cfg, states[n - 1], actions[n - 1]);
    }
  }

  /** No interleaving is longer than this. */
  lemma EveryRunIsBounded<O(!new)>(cfg: Config<O>, states: seq<State<O>>, actions: seq<Action<O>>)
    requires cfg.jobs > 0 && IsRun(cfg, states, actions)
    ensures |actions| <= 5 * cfg.jobs + Limit(cfg) + 4
  {
    MeasureAlongRun(cfg, states, actions);
    WorkOfIdle(Init(cfg).workers);
  }

  ghost predicate HasOutcome<O(!new)>(cfg: Config<O>, job: nat) {
    exists outcome :: cfg.allowed(job, outcome)
  }

  /** Every Collect returns something. */
  ghost predicate CollectorsReturn<O(!new)>(cfg: Config<O>) {
    forall job: nat | job < cfg.jobs :: HasOutcome(cfg, job)
  }

  lemma BusyWorkerHoldsSentJob<O(!new)>(cfg: Config<O>, s: State<O>, w: nat)
    requires Inv(cfg, s) && w < |s.workers| && Busy(s.workers[w])
    ensures s.workers[w].job < cfg.jobs
    ensures |s.results| < cfg.jobs
  {
    CountSome(s.workers, w, Holder(s.workers[w].job));
    CountSome(s.workers, w, Busies());
    assert Places(s, s.workers[w].job) > 0;
  }

  /** Until the caller has returned, the producer has stopped and every worker has quit, some action other
      than a cancellation can be taken: the pool neither deadlocks nor leaks a goroutine. */
  lemma SomeStepIsEnabled<O(!new)>(cfg: Config<O>, s: State<O>) returns (a: Action<O>)
    requires cfg.jobs > 0 && CollectorsReturn(cfg) && Inv(cfg, s) && !Terminal(s)
    ensures Enabled(cfg, s, a) && !a.Cancel?
  {
    if w :| 0 <= w < |s.workers| && Busy(s.workers[w]) {
      BusyWorkerHoldsSentJob(cfg, s, w);
      if s.workers[w].Holding? {
        a := WorkerCheck(w);
      } else if s.workers[w].Collecting? {
        assert HasOutcome(cfg, s.workers[w].job);
        var outcome :| cfg.allowed(s.workers[w].job, outcome);
        a := CollectReturns(w, outcome);
      } else {
        a := Report(w);
      }
    } else if s.producer.Checking? {
      a := ProducerCheck;
    } else if w :| 0 <= w < |s.workers| && s.workers[w].Receiving? {
      a := if s.producer.Offering? then Send(w) else WorkerSeesClosed(w);
    } else {
      assert forall w | 0 <= w < |s.workers| :: s.workers[w].Quit?;
      if s.caller.Awaiting? {
        a := CloseResults;
      } else if s.caller.ResultsClosed? {
        a := CallerReturns(Sorting.Sorted(s.results, ByIndex()));
      } else {
        assert s.workers[0].Quit?;
        a := ProducerAbort;
      }
    }
  }

  /** Whatever has happened so far, the pool can be run on to the end. */
  lemma {:induction false} EveryRunCanFinish<O(!new)>(cfg: Config<O>, states: seq<State<O>>, actions: seq<Action<O>>)
    returns (allStates: seq<State<O>>, allActions: seq<Action<O>>)
    requires cfg.jobs > 0 && CollectorsReturn(cfg) && IsRun(cfg, states, actions)
    ensures IsRun(cfg, allStates, allActions) && actions <= allActions && states <= allStates
    ensures Terminal(allStates[|allActions|])
    decreases Measure(cfg, states[|actions|])
  {
    var s := states[|actions|];
    RunInv(cfg, states, actions);
    if Terminal(s) {
      allStates, allActions := states, actions;
    } else {
      var a := SomeStepIsEnabled(cfg, s);
      StepDecreases(cfg, s, a);
      MeasureAlongRun(cfg, states, actions);
      allStates, allActions := EveryRunCanFinish(cfg, states + [Apply(cfg, s, a)], actions + [a]);
    }
  }

  // ---- schedule independence ---------------------------------------------------------------

  /** What a loop that collects job after job would return. */
  function Sequential<O>(jobs: nat, collect: nat -> O): (results: seq<BatchResult<O>>) {
    seq(jobs, i requires 0 <= i < jobs => BatchResult(i, collect(i)))
  }

  /** If a collector's outcome depends on its job alone, every interleaving that returns without error
      returns what the sequential loop returns. */
  lemma ScheduleIndependence<O(!new)>(cfg: Config<O>, collect: nat -> O, states: seq<State<O>>, actions: seq<Action<O>>, i: nat)
    requires cfg.jobs > 0 && IsRun(cfg, states, actions) && i < |states|
    requires forall job: nat, outcome :: cfg.allowed(job, outcome) ==> outcome == collect(job)
    requires states[i].caller.Returned?
    ensures states[i].caller.results == Sequential(cfg.jobs, collect)
  {
    RunInv(cfg, states, actions);
    var results := states[i].caller.results;
    forall k | 0 <= k < cfg.jobs ensures results[k] == Sequential(cfg.jobs, collect)[k] {
      assert results[k].index == k && cfg.allowed(k, results[k].outcome);
    }
  }

  /** The caller reports the cancellation only when there was one; with none it returns every result. */
  lemma ErrorsOnlyOnCancellation<O(!new)>(cfg: Config<O>, states: seq<State<O>>, actions: seq<Action<O>>)
    requires cfg.jobs > 0 && IsRun(cfg, states, actions) && Terminal(states[|actions|])
    ensures states[|actions|].caller.ReturnedError? ==> states[|actions|].cancelled
    ensures states[|actions|].caller.Returned? ==> IsAnswer(cfg, states[|actions|].caller.results)
    ensures !states[|actions|].cancelled ==> IsAnswer(cfg, states[|actions|].caller.results)
  {
    RunInv(cfg, states, actions);
  }
}
