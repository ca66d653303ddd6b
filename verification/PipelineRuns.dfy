/** What holds of every run of the cleaner pipeline: no deadlock, bounded length, fail-fast,
    conservation, and refinement of a plain loop over the note ids. */
module PipelineRuns {
  import opened Common
  import opened Notes
  import opened Pipeline

  // ---------- progress ----------

  /** A step the program does not take by itself: outside cancellation, a panic, or a failure
      of a note that could have been processed. */
  predicate Fault(c: Config, s: State, a: Action)
    requires Enabled(c, s, a)
  {
    match a
    case ParentCancel => true
    case FeederPanic => true
    case Fail(w) =>
      var i := s.workers[w].index;
      i < |c.ids| && c.clean(c.ids[i]).Ok?
    case _ => false
  }

  ghost predicate CanProceed(c: Config, s: State) {
    exists a :: Enabled(c, s, a) && !Fault(c, s, a)
  }

  predicate Busy(p: WorkerPhase) {
    !p.Idle? && !p.Exited?
  }

  lemma BusyWorkerProceeds(c: Config, s: State, w: nat)
    requires Inv(c, s) && s.queue == [] && w < |s.workers| && Busy(s.workers[w])
    ensures CanProceed(c, s)
  {
    match s.workers[w] {
      case Working(i) =>
        if Enabled(c, s, Transform(w)) {
          assert !Fault(c, s, Transform(w));
        } else {
          assert Enabled(c, s, Fail(w)) && !Fault(c, s, Fail(w));
        }
      case Sending(_) => assert Enabled(c, s, Send(w)) && !Fault(c, s, Send(w));
      case Reporting(_) => assert Enabled(c, s, Report(w)) && !Fault(c, s, Report(w));
      case Cancelling => assert Enabled(c, s, Cancel(w)) && !Fault(c, s, Cancel(w));
      case Leaving => assert Enabled(c, s, Done(w)) && !Fault(c, s, Done(w));
    }
  }

  lemma FeederProceeds(c: Config, s: State)
    requires Inv(c, s) && s.queue == [] && s.consumer.Draining?
    requires forall w | 0 <= w < |s.workers| :: !Busy(s.workers[w])
    ensures CanProceed(c, s)
  {
    match s.feeder {
      case Feeding =>
        if s.next == |c.ids| {
          assert Enabled(c, s, FeedExhausted) && !Fault(c, s, FeedExhausted);
        } else if s.cancelled {
          assert Enabled(c, s, FeedStop) && !Fault(c, s, FeedStop);
        } else {
          assert s.workers[0].Idle?;
          assert Enabled(c, s, Feed(0)) && !Fault(c, s, Feed(0));
        }
      case PanicReporting => assert Enabled(c, s, FeederReport) && !Fault(c, s, FeederReport);
      case PanicCancelling => assert Enabled(c, s, FeederCancel) && !Fault(c, s, FeederCancel);
      case Closing => assert Enabled(c, s, CloseJobs) && !Fault(c, s, CloseJobs);
      case Waiting =>
        if w :| 0 <= w < |s.workers| && s.workers[w].Idle? {
          assert Enabled(c, s, Leave(w)) && !Fault(c, s, Leave(w));
        } else {
          assert Enabled(c, s, CloseResults) && !Fault(c, s, CloseResults);
        }
      case Stopped => assert Enabled(c, s, FinishDrain) && !Fault(c, s, FinishDrain);
    }
  }

  /** No deadlock and no leaked goroutine: a reachable state is stuck exactly when the
      consumer has finished, and until then the program can always move by itself. */
  lemma DeadlockFree(c: Config, s: State)
    requires Reachable(c, s)
    ensures s.consumer.Draining? <==> CanProceed(c, s)
    ensures s.consumer.Finished? <==> forall a :: !Enabled(c, s, a)
  {
    ReachableInv(c, s);
    if s.consumer.Draining? {
      if s.queue != [] {
        assert Enabled(c, s, Consume) && !Fault(c, s, Consume);
      } else if w :| 0 <= w < |s.workers| && Busy(s.workers[w]) {
        BusyWorkerProceeds(c, s, w);
      } else {
        FeederProceeds(c, s);
      }
    }
  }

  // ---------- termination ----------

  function PhaseWeight(p: WorkerPhase): nat {
    match p
    case Idle => 2
    case Working(_) => 5
    case Sending(_) => 4
    case Reporting(_) => 4
    case Cancelling => 3
    case Leaving => 1
    case Exited => 0
  }

  function WorkersWeight(workers: seq<WorkerPhase>): nat {
    if workers == [] then 0 else PhaseWeight(workers[0]) + WorkersWeight(workers[1..])
  }

  function FeederWeight(f: FeederPhase): nat {
    match f
    case Feeding => 5
    case PanicReporting => 4
    case PanicCancelling => 3
    case Closing => 2
    case Waiting => 1
    case Stopped => 0
  }

  /** An upper bound on the number of steps left. */
  function Measure(c: Config, s: State): int {
    4 * (|c.ids| - s.next) + WorkersWeight(s.workers) + |s.queue| + FeederWeight(s.feeder)
    + (if s.parentCancelled then 0 else 1) + (if s.consumer.Draining? then 1 else 0)
  }

  lemma {:induction false} WeightUpdate(workers: seq<WorkerPhase>, w: nat, p: WorkerPhase)
    requires w < |workers|
    ensures WorkersWeight(workers[w := p]) == WorkersWeight(workers) - PhaseWeight(workers[w]) + PhaseWeight(p)
  {
    var rest, updated := workers[1..], workers[w := p];
    if w == 0 {
      assert updated[1..] == rest;
    } else {
      WeightUpdate(rest, w - 1, p);
      assert updated[1..] == rest[w - 1 := p];
    }
  }

  lemma {:induction false} IdleWeight(workers: seq<WorkerPhase>)
    requires forall w | 0 <= w < |workers| :: workers[w].Idle?
    ensures WorkersWeight(workers) == 2 * |workers|
  {
    if workers != [] {
      IdleWeight(workers[1..]);
    }
  }

  lemma StepLowersMeasure(c: Config, s: State, a: Action)
    requires Enabled(c, s, a)
    ensures Measure(c, Next(c, s, a)) < Measure(c, s)
  {
    if PassingAction(a) {
      PassingLowersMeasure(c, s, a);
    } else if FailingAction(a) {
      FailureLowersMeasure(c, s, a);
    } else if LeavingAction(a) {
      LeavingLowersMeasure(c, s, a);
    }
  }

  lemma PassingLowersMeasure(c: Config, s: State, a: Action)
    requires Enabled(c, s, a) && PassingAction(a)
    ensures Measure(c, Next(c, s, a)) < Measure(c, s)
  {
    WeightUpdate(s.workers, a.w, Next(c, s, a).workers[a.w]);
  }

  lemma ReportLowersMeasure(c: Config, s: State, w: nat)
    requires Enabled(c, s, Report(w))
    ensures Measure(c, Next(c, s, Report(w))) < Measure(c, s)
  {
    WeightUpdate(s.workers, w, Cancelling);
  }

  lemma FailureLowersMeasure(c: Config, s: State, a: Action)
    requires Enabled(c, s, a) && FailingAction(a)
    ensures Measure(c, Next(c, s, a)) < Measure(c, s)
  {
    if a.Report? {
      ReportLowersMeasure(c, s, a.w);
    } else {
      WeightUpdate(s.workers, a.w, Next(c, s, a).workers[a.w]);
    }
  }

  lemma LeavingLowersMeasure(c: Config, s: State, a: Action)
    requires Enabled(c, s, a) && LeavingAction(a)
    ensures Measure(c, Next(c, s, a)) < Measure(c, s)
  {
    WeightUpdate(s.workers, a.w, Next(c, s, a).workers[a.w]);
  }

  lemma {:induction false} RunFitsMeasure(c: Config, s: State, run: seq<Action>)
    requires Inv(c, s) && ValidRun(c, s, run)
    ensures |run| <= Measure(c, s)
    decreases |run|
  {
    if run != [] {
      var t := Next(c, s, run[0]);
      NextControl(c, s, run[0]);
      NextConserved(c, s, run[0]);
      NextAccounted(c, s, run[0]);
      StepLowersMeasure(c, s, run[0]);
      RunFitsMeasure(c, t, run[1..]);
    }
  }

  /** Guaranteed termination, with the explicit bound on the length of any run whatever the
      interleaving, the failures and the cancellations. */
  lemma EveryRunIsShort(c: Config, run: seq<Action>)
    requires ValidRun(c, Init(c), run)
    ensures |run| <= 4 * |c.ids| + 2 * WorkerCount(c) + 7
  {
    InitConserved(c);
    IdleWeight(Init(c).workers);
    RunFitsMeasure(c, Init(c), run);
  }

  // ---------- channel safety ----------

  /** Nothing is sent on a closed channel: while a worker still has something to send, or the
      feeder something to hand out, the channel in question is open. */
  lemma NoSendOnClosedChannel(c: Config, s: State)
    requires Reachable(c, s)
    ensures (exists w :: 0 <= w < |s.workers| && (s.workers[w].Sending? || s.workers[w].Working?)) ==>
              !s.feeder.Stopped?
    ensures (exists a: Action :: a.Feed? && Enabled(c, s, a)) ==> !JobsClosed(s)
    ensures |s.queue| <= Capacity(c)
  {
    ReachableInv(c, s);
  }

  /** The sizes: as many workers as asked for, at least one, and a worker can send exactly while
      fewer than four results for each of them are waiting. */
  lemma Sizes(c: Config, s: State, w: nat)
    requires Reachable(c, s)
    ensures |s.workers| == if c.requestedWorkers >= 1 then c.requestedWorkers else 1
    ensures Enabled(c, s, Send(w)) <==> w < |s.workers| && s.workers[w].Sending? && |s.queue| < 4 * |s.workers|
  {
    ReachableInv(c, s);
  }

  /** The results channel is first in, first out: what was received and what waits, in this
      order, grows by what is sent and by nothing else. */
  lemma ResultsInOrder(c: Config, s: State, a: Action)
    requires Enabled(c, s, a)
    ensures var t := Next(c, s, a);
            t.received + t.queue ==
            s.received + s.queue + match a case Send(w) => [s.workers[w].item] case _ => []
  {
    if a.Consume? {
      assert s.queue == [s.queue[0]] + s.queue[1..];
      Assoc(s.received, [s.queue[0]], s.queue[1..]);
    } else if a.Send? {
      Assoc(s.received, s.queue, [s.workers[a.w].item]);
    } else {
      SameResults(c, s, a);
    }
  }

  lemma SameResults(c: Config, s: State, a: Action)
    requires Enabled(c, s, a) && !a.Consume? && !a.Send?
    ensures Next(c, s, a).queue == s.queue && Next(c, s, a).received == s.received
  {
  }

  // ---------- conservation ----------

  /** How many workers hold a note. */
  function Holding(workers: seq<WorkerPhase>): nat {
    if workers == [] then 0
    else (if workers[0].Working? || workers[0].Sending? || workers[0].Reporting? then 1 else 0) + Holding(workers[1..])
  }

  lemma {:induction false} HoldingUpdate(workers: seq<WorkerPhase>, w: nat, p: WorkerPhase)
    requires w < |workers|
    ensures Holding(workers[w := p]) == Holding(workers) - Holding([workers[w]]) + Holding([p])
  {
    var rest, updated := workers[1..], workers[w := p];
    if w == 0 {
      assert updated[1..] == rest;
    } else {
      HoldingUpdate(rest, w - 1, p);
      assert updated[1..] == rest[w - 1 := p];
    }
  }

  lemma {:induction false} HoldingNothing(workers: seq<WorkerPhase>)
    requires forall w | 0 <= w < |workers| :: workers[w].Idle?
    ensures Holding(workers) == 0
  {
    if workers != [] {
      HoldingNothing(workers[1..]);
    }
  }

  function InFlight(s: State): nat {
    Holding(s.workers) + |s.queue| + |s.received| + |s.lost|
  }

  lemma NextInFlight(c: Config, s: State, a: Action)
    requires Enabled(c, s, a)
    ensures InFlight(Next(c, s, a)) == InFlight(s) + Next(c, s, a).next - s.next
  {
    if PassingAction(a) {
      PassingInFlight(c, s, a);
    } else if FailingAction(a) {
      FailingInFlight(c, s, a);
    } else if LeavingAction(a) {
      HoldingUpdate(s.workers, a.w, Next(c, s, a).workers[a.w]);
    }
  }

  lemma PassingInFlight(c: Config, s: State, a: Action)
    requires Enabled(c, s, a) && PassingAction(a)
    ensures InFlight(Next(c, s, a)) == InFlight(s) + Next(c, s, a).next - s.next
  {
    HoldingUpdate(s.workers, a.w, Next(c, s, a).workers[a.w]);
  }

  lemma ReportInFlight(c: Config, s: State, w: nat)
    requires Enabled(c, s, Report(w))
    ensures InFlight(Next(c, s, Report(w))) == InFlight(s)
  {
    HoldingUpdate(s.workers, w, Cancelling);
  }

  lemma FailingInFlight(c: Config, s: State, a: Action)
    requires Enabled(c, s, a) && FailingAction(a)
    ensures InFlight(Next(c, s, a)) == InFlight(s) + Next(c, s, a).next - s.next
  {
    if a.Report? {
      ReportInFlight(c, s, a.w);
    } else {
      HoldingUpdate(s.workers, a.w, Next(c, s, a).workers[a.w]);
    }
  }

  lemma {:induction false} RunInFlight(c: Config, s: State, run: seq<Action>)
    requires ValidRun(c, s, run) && InFlight(s) == s.next
    ensures InFlight(After(c, s, run)) == After(c, s, run).next
    decreases |run|
  {
    if run != [] {
      NextInFlight(c, s, run[0]);
      RunInFlight(c, Next(c, s, run[0]), run[1..]);
    }
  }

  /** At every step: unfed + in a worker + queued + consumed + lost to an error = total, each
      note is in exactly one place, and the consumer's counters add up. */
  lemma NothingLostOrDuplicated(c: Config, s: State)
    requires Reachable(c, s)
    ensures (|c.ids| - s.next) + Holding(s.workers) + |s.queue| + |s.received| + |s.lost| == |c.ids|
    ensures forall i: nat :: Places(s, i) == if i < s.next then 1 else 0
    ensures s.tally.summary.processed == |s.received| == s.tally.summary.changed + s.tally.summary.skipped
  {
    ReachableInv(c, s);
    TallyCounts(s.received);
    var run :| ValidRun(c, Init(c), run) && After(c, Init(c), run) == s;
    HoldingNothing(Init(c).workers);
    RunInFlight(c, Init(c), run);
  }

  // ---------- fail-fast and completeness ----------

  lemma {:induction false} ExitedHoldNothing(workers: seq<WorkerPhase>, i: nat)
    requires forall w | 0 <= w < |workers| :: workers[w].Exited?
    ensures Held(workers, i) == 0 && Holding(workers) == 0
  {
    if workers != [] {
      ExitedHoldNothing(workers[1..], i);
    }
  }

  /** Fail-fast: when the consumer is done, the run fails exactly when some note failed or
      panicked in a worker or the feeder panicked, and the error it returns is the one that was
      reported first. */
  lemma FailFast(c: Config, s: State)
    requires Reachable(c, s) && s.consumer.Finished?
    ensures s.consumer.outcome == if s.reports == [] then None else Some(s.reports[0])
    ensures s.consumer.outcome.Some? <==> s.lost != multiset{} || s.panicked
    ensures s.consumer.outcome.Some? ==>
              match s.consumer.outcome.value
              case NoteFailed(i) => i in s.lost && i < |c.ids|
              case FeederPanicked => s.panicked
    ensures s.tally.summary.errors == if s.consumer.outcome.Some? then 1 else 0
  {
    ReachableInv(c, s);
    match s.consumer.outcome {
      case Some(NoteFailed(i)) => assert Places(s, i) == if i < s.next then 1 else 0;
      case _ =>
    }
  }

  /** Completeness: a run that ends without an error processed exactly the notes that were
      handed out; it is the whole deck exactly when the feeder reached the end of the list,
      and otherwise the parent context was cancelled. */
  lemma CompleteOrCancelled(c: Config, s: State)
    requires Reachable(c, s) && s.consumer == Finished(None)
    ensures s.tally.summary.processed == s.next
    ensures s.tally.summary.processed == |c.ids| <==> s.next == |c.ids|
    ensures s.tally.summary.processed < |c.ids| ==> s.parentCancelled
    ensures forall i: nat :: Occurs(s.received, i) == if i < s.next then 1 else 0
  {
    FailFast(c, s);
    ReachableInv(c, s);
    NothingLostOrDuplicated(c, s);
    ExitedHoldNothing(s.workers, 0);
    forall i: nat
      ensures Occurs(s.received, i) == if i < s.next then 1 else 0
    {
      assert Places(s, i) == if i < s.next then 1 else 0;
      ExitedHoldNothing(s.workers, i);
    }
  }

  /** A note that cannot be processed always surfaces: unless the parent is cancelled, the run
      ends with an error. */
  lemma BadNoteSurfaces(c: Config, s: State, i: nat)
    requires Reachable(c, s) && s.consumer.Finished? && !s.parentCancelled
    requires i < |c.ids| && c.clean(c.ids[i]).Err?
    ensures s.consumer.outcome.Some?
  {
    if s.consumer.outcome.None? {
      CompleteOrCancelled(c, s);
      ReachableInv(c, s);
      OccursWitness(s.received, i);
    }
  }

  lemma {:induction false} OccursWitness(items: seq<Item>, i: nat)
    requires Occurs(items, i) > 0
    ensures exists k :: 0 <= k < |items| && items[k].index == i
  {
    if items[0].index != i {
      OccursWitness(items[1..], i);
      var k :| 0 <= k < |items[1..]| && items[1..][k].index == i;
      assert items[k + 1].index == i;
    }
  }

  /** The run below, from the closing of jobs on: the workers before `k` have exited, the others
      are idle, and nothing was processed or reported. */
  ghost predicate WindingDown(s: State, k: nat) {
    && s.feeder.Waiting? && s.consumer.Draining? && s.queue == [] && s.errSlot.None?
    && s.tally.summary.processed == 0
    && k <= |s.workers|
    && forall w | 0 <= w < |s.workers| :: s.workers[w] == if w < k then Exited else Idle
  }

  ghost predicate UnnoticedEnd(c: Config, t: State) {
    Reachable(c, t) && t.consumer == Finished(None) && t.tally.summary.processed == 0
  }

  lemma NextWorkerLeaves(c: Config, s: State, k: nat) returns (t: State)
    requires Reachable(c, s) && WindingDown(s, k) && k < |s.workers|
    ensures Reachable(c, t) && WindingDown(t, k + 1) && |t.workers| == |s.workers|
  {
    ReachableStep(c, s, Leave(k));
    var leaving := Next(c, s, Leave(k));
    ReachableStep(c, leaving, Done(k));
    t := Next(c, leaving, Done(k));
  }

  lemma {:induction false} AllWorkersLeave(c: Config, s: State, k: nat)
    requires Reachable(c, s) && WindingDown(s, k)
    ensures exists t :: UnnoticedEnd(c, t)
    decreases |s.workers| - k
  {
    if k < |s.workers| {
      var t := NextWorkerLeaves(c, s, k);
      AllWorkersLeave(c, t, k + 1);
    } else {
      ReachableStep(c, s, CloseResults);
      var stopped := Next(c, s, CloseResults);
      ReachableStep(c, stopped, FinishDrain);
      assert UnnoticedEnd(c, Next(c, stopped, FinishDrain));
    }
  }

  /** Cancelling the parent while no worker is busy leaves no trace in errCh: for any non-empty
      deck and any number of workers there is a run that ends without an error and with nothing
      processed. */
  lemma ParentCancelCanGoUnnoticed(c: Config)
    requires |c.ids| > 0
    ensures exists t :: UnnoticedEnd(c, t)
  {
    var s0 := Init(c);
    assert ValidRun(c, s0, []) && After(c, s0, []) == s0;
    ReachableStep(c, s0, ParentCancel);
    var s1 := s0.(cancelled := true, parentCancelled := true);
    ReachableStep(c, s1, FeedStop);
    var s2 := s1.(feeder := Closing);
    ReachableStep(c, s2, CloseJobs);
    AllWorkersLeave(c, s2.(feeder := Waiting), 0);
  }

  /** The consumer ended without an error, and some note was not processed. */
  ghost predicate EndsIncomplete(c: Config, s: State) {
    Reachable(c, s) && s.consumer == Finished(None) && s.tally.summary.processed < |c.ids|
  }

  /** Exactly the non-empty decks can end so, and only with the parent cancelled. */
  lemma IncompleteWithoutErrorIff(c: Config)
    ensures (exists s :: EndsIncomplete(c, s)) <==> |c.ids| > 0
    ensures forall s | EndsIncomplete(c, s) :: s.parentCancelled
  {
    if |c.ids| > 0 {
      ParentCancelCanGoUnnoticed(c);
      var t :| UnnoticedEnd(c, t);
      assert EndsIncomplete(c, t);
    }
    forall s | EndsIncomplete(c, s)
      ensures s.parentCancelled
    {
      CompleteOrCancelled(c, s);
    }
  }

  lemma ReachableStep(c: Config, s: State, a: Action)
    requires Reachable(c, s) && Enabled(c, s, a)
    ensures Reachable(c, Next(c, s, a))
  {
    var run :| ValidRun(c, Init(c), run) && After(c, Init(c), run) == s;
    RunSnoc(c, Init(c), run, a);
  }

  lemma {:induction false} RunSnoc(c: Config, s: State, run: seq<Action>, a: Action)
    requires ValidRun(c, s, run) && Enabled(c, After(c, s, run), a)
    ensures ValidRun(c, s, run + [a])
    ensures After(c, s, run + [a]) == Next(c, After(c, s, run), a)
    decreases |run|
  {
    if run == [] {
      assert ValidRun(c, Next(c, s, a), []);
      assert (run + [a])[1..] == [];
    } else {
      RunSnoc(c, Next(c, s, run[0]), run[1..], a);
      assert (run + [a])[1..] == run[1..] + [a];
    }
  }

  // ---------- total correctness ----------

  ghost predicate AllClean(c: Config) {
    forall i | 0 <= i < |c.ids| :: c.clean(c.ids[i]).Ok?
  }

  /** A run of the concurrent stage that ended without error and without parent cancellation. */
  ghost predicate CleanFinish(c: Config, s: State) {
    Reachable(c, s) && s.consumer == Finished(None) && !s.parentCancelled
  }

  /** Nothing was reported, nothing is about to be, and nobody cancelled. */
  ghost predicate Quiet(c: Config, s: State) {
    && !s.cancelled && !s.parentCancelled && !Reported(s)
    && !s.feeder.PanicReporting? && !s.feeder.PanicCancelling?
    && forall w | 0 <= w < |s.workers| :: QuietWorker(c, s.workers[w])
  }

  predicate QuietWorker(c: Config, p: WorkerPhase) {
    !p.Reporting? && !p.Cancelling? && (p.Working? ==> p.index < |c.ids|)
  }

  lemma QuietStep(c: Config, s: State, a: Action)
    requires AllClean(c) && Quiet(c, s) && Enabled(c, s, a) && !Fault(c, s, a)
    ensures Quiet(c, Next(c, s, a))
  {
    var t := Next(c, s, a);
    assert a.Fail? ==> QuietWorker(c, s.workers[a.w]);
    assert a.Report? ==> QuietWorker(c, s.workers[a.w]);
    assert a.Cancel? ==> QuietWorker(c, s.workers[a.w]);
    forall w | 0 <= w < |t.workers|
      ensures QuietWorker(c, t.workers[w])
    {
      assert QuietWorker(c, s.workers[w]);
    }
  }

  /** A run in which the program takes only its own steps. */
  ghost predicate FaultFree(c: Config, s: State, run: seq<Action>)
    requires ValidRun(c, s, run)
    decreases |run|
  {
    run == [] || (!Fault(c, s, run[0]) && FaultFree(c, Next(c, s, run[0]), run[1..]))
  }

  lemma {:induction false} QuietRun(c: Config, s: State, run: seq<Action>)
    requires AllClean(c) && Quiet(c, s) && ValidRun(c, s, run) && FaultFree(c, s, run)
    ensures Quiet(c, After(c, s, run))
    decreases |run|
  {
    if run != [] {
      QuietStep(c, s, run[0]);
      QuietRun(c, Next(c, s, run[0]), run[1..]);
    }
  }

  ghost predicate RunsOut(c: Config, s: State, run: seq<Action>) {
    ValidRun(c, s, run) && FaultFree(c, s, run) && CleanFinish(c, After(c, s, run))
  }

  lemma RunsOutFrom(c: Config, s: State, a: Action, run: seq<Action>)
    requires Enabled(c, s, a) && !Fault(c, s, a) && RunsOut(c, Next(c, s, a), run)
    ensures RunsOut(c, s, [a] + run)
  {
    assert ([a] + run)[1..] == run;
  }

  lemma {:induction false} RunOn(c: Config, s: State) returns (run: seq<Action>)
    requires AllClean(c) && Reachable(c, s) && Quiet(c, s)
    ensures RunsOut(c, s, run)
    decreases Measure(c, s)
  {
    DeadlockFree(c, s);
    ReachableInv(c, s);
    assert ValidRun(c, s, []);
    RunFitsMeasure(c, s, []);
    if s.consumer.Draining? {
      var a :| Enabled(c, s, a) && !Fault(c, s, a);
      QuietStep(c, s, a);
      StepLowersMeasure(c, s, a);
      ReachableStep(c, s, a);
      run := RunOn(c, Next(c, s, a));
      RunsOutFrom(c, s, a, run);
      run := [a] + run;
    } else {
      run := [];
    }
  }

  /** Total correctness: when every note can be processed, any run without a fault, in any
      interleaving and with any number of workers, can be continued by the program's own steps
      to an end without error, and it can go no further only when it is at such an end. */
  lemma FaultFreeRunsFinish(c: Config, run: seq<Action>)
    requires AllClean(c) && ValidRun(c, Init(c), run) && FaultFree(c, Init(c), run)
    ensures exists more :: RunsOut(c, After(c, Init(c), run), more)
    ensures !CanProceed(c, After(c, Init(c), run)) ==> CleanFinish(c, After(c, Init(c), run))
  {
    var s := After(c, Init(c), run);
    assert Reachable(c, s);
    QuietRun(c, Init(c), run);
    DeadlockFree(c, s);
    var more := RunOn(c, s);
  }

  /** Exactly the decks whose notes can all be processed have an error-free, uncancelled end. */
  lemma CleanFinishExistsIff(c: Config)
    ensures (exists t :: CleanFinish(c, t)) <==> AllClean(c)
  {
    if AllClean(c) {
      assert ValidRun(c, Init(c), []) && FaultFree(c, Init(c), []);
      FaultFreeRunsFinish(c, []);
      var more :| RunsOut(c, After(c, Init(c), []), more);
      assert CleanFinish(c, After(c, After(c, Init(c), []), more));
    }
    if t :| CleanFinish(c, t) {
      RefinesPlainLoop(c, t);
    }
  }

  // ---------- refinement of the sequential loop ----------

  /** The items a plain loop over the note ids produces, in order. */
  function PlainItems(c: Config): (items: seq<Item>)
    requires AllClean(c)
  {
    seq(|c.ids|, i requires 0 <= i < |c.ids| => Item(i, c.ids[i], c.clean(c.ids[i]).value))
  }

  /** The diff blocks of some items, one after the other. */
  function Blocks(items: seq<Item>): seq<DiffRecord> {
    if items == [] then [] else Blocks(items[..|items| - 1]) + items[|items| - 1].cleaned.records
  }

  lemma {:induction false} RecordsAreBlocks(items: seq<Item>)
    ensures TallyOf(items).records == Blocks(TallyOf(items).toWrite)
  {
    if items != [] {
      var front, last := items[..|items| - 1], items[|items| - 1];
      RecordsAreBlocks(front);
      if last.cleaned.records != [] {
        var written := TallyOf(items).toWrite;
        assert written[..|written| - 1] == TallyOf(front).toWrite;
      }
    }
  }

  lemma MultisetSnoc(items: seq<Item>, last: Item, x: Item)
    ensures multiset(items + [last])[x] == multiset(items)[x] + if x == last then 1 else 0
  {
  }

  lemma ToWriteSnoc(front: seq<Item>, last: Item)
    ensures TallyOf(front + [last]).toWrite ==
            TallyOf(front).toWrite + if last.cleaned.records == [] then [] else [last]
  {
    assert (front + [last])[..|front|] == front;
  }

  /** `toWrite` keeps exactly the changed items, with their multiplicity. */
  lemma {:induction false} ToWriteMultiset(items: seq<Item>, x: Item)
    ensures multiset(TallyOf(items).toWrite)[x] == if x.cleaned.records == [] then 0 else multiset(items)[x]
  {
    if items != [] {
      var front, last := items[..|items| - 1], items[|items| - 1];
      ToWriteMultiset(front, x);
      assert items == front + [last];
      MultisetSnoc(front, last, x);
      ToWriteSnoc(front, last);
      if last.cleaned.records != [] {
        MultisetSnoc(TallyOf(front).toWrite, last, x);
      }
    }
  }

  /** Genuine items are determined by their index. */
  lemma {:induction false} GenuineMultiset(c: Config, items: seq<Item>, x: Item)
    requires forall k | 0 <= k < |items| :: Genuine(c, items[k])
    ensures multiset(items)[x] == if Genuine(c, x) then Occurs(items, x.index) else 0
  {
    if items == [] {
      assert multiset(items) == multiset{};
    } else {
      GenuineMultiset(c, items[1..], x);
      assert items == [items[0]] + items[1..];
    }
  }

  lemma {:induction false} PlainOccurs(c: Config, from: nat, i: nat)
    requires AllClean(c) && from <= |c.ids|
    ensures Occurs(PlainItems(c)[from..], i) == if from <= i < |c.ids| then 1 else 0
    decreases |c.ids| - from
  {
    if from < |c.ids| {
      assert PlainItems(c)[from..][1..] == PlainItems(c)[from + 1..];
      PlainOccurs(c, from + 1, i);
    }
  }

  lemma CleanFinishIsAllClean(c: Config, s: State)
    requires CleanFinish(c, s)
    ensures AllClean(c)
  {
    forall i | 0 <= i < |c.ids|
      ensures c.clean(c.ids[i]).Ok?
    {
      if c.clean(c.ids[i]).Err? {
        BadNoteSurfaces(c, s, i);
      }
    }
  }

  /** The same items in any order give the same summary and the same write list up to order. */
  lemma SameTallyUpToOrder(a: seq<Item>, b: seq<Item>)
    requires multiset(a) == multiset(b)
    ensures TallyOf(a).summary == TallyOf(b).summary
    ensures multiset(TallyOf(a).toWrite) == multiset(TallyOf(b).toWrite)
  {
    forall x: Item
      ensures multiset(TallyOf(a).toWrite)[x] == multiset(TallyOf(b).toWrite)[x]
    {
      ToWriteMultiset(a, x);
      ToWriteMultiset(b, x);
    }
    assert multiset(TallyOf(a).toWrite) == multiset(TallyOf(b).toWrite);
    SameSize(a, b);
    SameSize(TallyOf(a).toWrite, TallyOf(b).toWrite);
    TallyCounts(a);
    TallyCounts(b);
  }

  /** Concurrency refines the sequential loop: with no failure and no parent cancellation, for
      every worker count and interleaving, the summary is the plain loop's, the changed notes
      are the plain loop's in some order, and the records are their diff blocks in that order. */
  lemma RefinesPlainLoop(c: Config, s: State)
    requires CleanFinish(c, s)
    ensures AllClean(c)
    ensures var plain := TallyOf(PlainItems(c));
            && s.tally.summary == plain.summary
            && multiset(s.tally.toWrite) == multiset(plain.toWrite)
            && s.tally.records == Blocks(s.tally.toWrite)
  {
    CleanFinishIsAllClean(c, s);
    CompleteOrCancelled(c, s);
    ReachableInv(c, s);
    TallyCounts(s.received);
    RecordsAreBlocks(s.received);
    SameMultiset(c, s.received);
    SameTallyUpToOrder(s.received, PlainItems(c));
  }

  lemma SameSize(a: seq<Item>, b: seq<Item>)
    requires multiset(a) == multiset(b)
    ensures |a| == |b|
  {
    assert |multiset(a)| == |a| && |multiset(b)| == |b|;
  }

  lemma SameMultiset(c: Config, items: seq<Item>)
    requires AllClean(c)
    requires forall k | 0 <= k < |items| :: Genuine(c, items[k])
    requires forall i: nat :: Occurs(items, i) == if i < |c.ids| then 1 else 0
    ensures multiset(items) == multiset(PlainItems(c))
  {
    var plain := PlainItems(c);
    forall x: Item
      ensures multiset(items)[x] == multiset(plain)[x]
    {
      GenuineMultiset(c, items, x);
      GenuineMultiset(c, plain, x);
      PlainOccurs(c, 0, x.index);
      assert plain[0..] == plain;
    }
  }

  // ---------- the write list ----------

  predicate Changed(item: Item) {
    item.cleaned.records != []
  }

  /** The write list is what was received, in that order, without the unchanged notes. */
  lemma {:induction false} WriteListInOrder(items: seq<Item>)
    ensures TallyOf(items).toWrite == Filter(items, Changed)
  {
    if items != [] {
      var front, last := items[..|items| - 1], items[|items| - 1];
      WriteListInOrder(front);
      assert items == front + [last];
      FilterSnoc(front, last, Changed);
      ToWriteSnoc(front, last);
    }
  }

  lemma {:induction false} OccursBound(items: seq<Item>, k: nat, l: nat)
    requires k < l < |items| && items[k].index == items[l].index
    ensures Occurs(items, items[k].index) >= 2
  {
    if k == 0 {
      assert items[1..][l - 1] == items[l];
      OccursAt(items[1..], l - 1);
    } else {
      assert items[1..][k - 1] == items[k] && items[1..][l - 1] == items[l];
      OccursBound(items[1..], k - 1, l - 1);
    }
  }

  lemma {:induction false} OccursAt(items: seq<Item>, k: nat)
    requires k < |items|
    ensures Occurs(items, items[k].index) >= 1
  {
    if k > 0 {
      OccursAt(items[1..], k - 1);
    }
  }

  lemma {:induction false} ToWriteOccurs(items: seq<Item>, i: nat)
    ensures Occurs(TallyOf(items).toWrite, i) <= Occurs(items, i)
    ensures forall k | 0 <= k < |TallyOf(items).toWrite| ::
              TallyOf(items).toWrite[k] in items && TallyOf(items).toWrite[k].cleaned.records != []
  {
    if items != [] {
      var front, last := items[..|items| - 1], items[|items| - 1];
      ToWriteOccurs(front, i);
      OccursAppend(front, [last], i);
      OccursAppend(TallyOf(front).toWrite, [last], i);
      assert items == front + [last];
    }
  }

  /** Everything the writer will be given is genuine and changed, and no note appears twice. */
  lemma WriteListIsSound(c: Config, s: State)
    requires Reachable(c, s)
    ensures forall k | 0 <= k < |s.tally.toWrite| ::
              Genuine(c, s.tally.toWrite[k]) && s.tally.toWrite[k].cleaned.records != []
    ensures forall k, l | 0 <= k < l < |s.tally.toWrite| :: s.tally.toWrite[k].index != s.tally.toWrite[l].index
  {
    ReachableInv(c, s);
    ToWriteOccurs(s.received, 0);
    var written := s.tally.toWrite;
    forall k | 0 <= k < |written|
      ensures Genuine(c, written[k])
    {
      assert written[k] in s.received;
    }
    forall k, l | 0 <= k < l < |written|
      ensures written[k].index != written[l].index
    {
      ToWriteOccurs(s.received, written[k].index);
      assert Places(s, written[k].index) <= 1;
      if written[k].index == written[l].index {
        OccursBound(written, k, l);
      }
    }
  }
}
