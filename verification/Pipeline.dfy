/** The concurrent stage of RunCleaner (internal/application/services.go) as a small-step
    transition system: one feeder, any number of workers, the unbuffered `jobs` channel, the
    bounded `results` channel, the one-slot `errCh`, the cancellable context and the consumer.
    A run is any sequence of enabled actions, so every interleaving is covered. */
module Pipeline {
  import opened Common
  import opened Notes

  // ---------- configuration ----------

  /** `clean(id)` is what processing a note yields when nothing interferes. */
  datatype Config = Config(ids: seq<int>, requestedWorkers: int, clean: int -> Result<Cleaned, NoteError>)

  function WorkerCount(c: Config): (n: nat)
    ensures n >= 1
  {
    if c.requestedWorkers < 1 then 1 else c.requestedWorkers
  }

  function Capacity(c: Config): nat {
    4 * WorkerCount(c)
  }

  // ---------- state ----------

  /** A processed note travelling to the consumer. `index` is its position in `ids`. */
  datatype Item = Item(index: nat, noteID: int, cleaned: Cleaned)

  datatype WorkerPhase =
    | Idle                    // blocked on `range jobs`
    | Working(index: nat)     // between the receive and the send
    | Sending(item: Item)     // blocked on `results <-`
    | Reporting(index: nat)   // error return or recovered panic: about to offer to errCh
    | Cancelling              // offered to errCh, about to call cancel
    | Leaving                 // about to run wg.Done
    | Exited

  datatype FeederPhase =
    | Feeding
    | PanicReporting
    | PanicCancelling
    | Closing                 // about to close jobs
    | Waiting                 // jobs closed, in wg.Wait
    | Stopped                 // results closed

  datatype Failure = NoteFailed(index: nat) | FeederPanicked

  datatype Summary = Summary(processed: nat, changed: nat, skipped: nat, errors: nat)

  /** The consumer's accumulators. */
  datatype Tally = Tally(summary: Summary, records: seq<DiffRecord>, toWrite: seq<Item>)

  datatype ConsumerPhase = Draining | Finished(outcome: Option<Failure>)

  datatype State = State(
    next: nat,
    feeder: FeederPhase,
    workers: seq<WorkerPhase>,
    queue: seq<Item>,
    errSlot: Option<Failure>,
    cancelled: bool,
    parentCancelled: bool,
    consumer: ConsumerPhase,
    tally: Tally,
    received: seq<Item>,       // history: everything the consumer took, in order
    lost: multiset<nat>,       // history: notes whose worker reported an error
    panicked: bool,            // history: the feeder reported a panic
    reports: seq<Failure>)     // history: every report to errCh, in order

  predicate JobsClosed(s: State) {
    s.feeder.Waiting? || s.feeder.Stopped?
  }

  const EMPTY_TALLY := Tally(Summary(0, 0, 0, 0), [], [])

  function Init(c: Config): State {
    State(0, Feeding, seq(WorkerCount(c), _ => Idle), [], None, false, false, Draining, EMPTY_TALLY,
          [], multiset{}, false, [])
  }

  /** One pass of the consumer loop. */
  function Count(t: Tally, item: Item): Tally {
    var s := t.summary.(processed := t.summary.processed + 1);
    if item.cleaned.records == [] then t.(summary := s.(skipped := s.skipped + 1))
    else Tally(s.(changed := s.changed + 1), t.records + item.cleaned.records, t.toWrite + [item])
  }

  // ---------- actions ----------

  datatype Action =
    | Feed(w: nat)            // rendezvous on jobs
    | FeedStop                // select takes ctxRun.Done
    | FeedExhausted
    | FeederPanic
    | FeederReport
    | FeederCancel
    | CloseJobs
    | CloseResults            // wg.Wait returned
    | Transform(w: nat)
    | Fail(w: nat)            // read error, template error or panic
    | Report(w: nat)
    | Cancel(w: nat)
    | Send(w: nat)
    | Leave(w: nat)           // range over closed jobs ended
    | Done(w: nat)            // wg.Done
    | Consume
    | FinishDrain             // results closed and empty; errCh read once
    | ParentCancel

  predicate Enabled(c: Config, s: State, a: Action) {
    match a
    case Feed(w) => s.feeder.Feeding? && s.next < |c.ids| && w < |s.workers| && s.workers[w].Idle?
    case FeedStop => s.feeder.Feeding? && s.next < |c.ids| && s.cancelled
    case FeedExhausted => s.feeder.Feeding? && s.next >= |c.ids|
    case FeederPanic => s.feeder.Feeding?
    case FeederReport => s.feeder.PanicReporting?
    case FeederCancel => s.feeder.PanicCancelling?
    case CloseJobs => s.feeder.Closing?
    case CloseResults => s.feeder.Waiting? && forall w | 0 <= w < |s.workers| :: s.workers[w].Exited?
    case Transform(w) =>
      && w < |s.workers| && s.workers[w].Working?
      && s.workers[w].index < |c.ids|
      && c.clean(c.ids[s.workers[w].index]).Ok?
    case Fail(w) => w < |s.workers| && s.workers[w].Working?
    case Report(w) => w < |s.workers| && s.workers[w].Reporting?
    case Cancel(w) => w < |s.workers| && s.workers[w].Cancelling?
    case Send(w) => w < |s.workers| && s.workers[w].Sending? && |s.queue| < Capacity(c)
    case Leave(w) => w < |s.workers| && s.workers[w].Idle? && JobsClosed(s)
    case Done(w) => w < |s.workers| && s.workers[w].Leaving?
    case Consume => s.consumer.Draining? && s.queue != []
    case FinishDrain => s.consumer.Draining? && s.queue == [] && s.feeder.Stopped?
    case ParentCancel => !s.parentCancelled && s.consumer.Draining?
  }

  function SetWorker(s: State, w: nat, p: WorkerPhase): State
    requires w < |s.workers|
  {
    s.(workers := s.workers[w := p])
  }

  /** The non-blocking send on errCh. */
  function Offer(s: State, f: Failure): State {
    if s.errSlot.None? then s.(errSlot := Some(f)) else s
  }

  function Next(c: Config, s: State, a: Action): State
    requires Enabled(c, s, a)
  {
    match a
    case Feed(w) => SetWorker(s, w, Working(s.next)).(next := s.next + 1)
    case FeedStop => s.(feeder := Closing)
    case FeedExhausted => s.(feeder := Closing)
    case FeederPanic => s.(feeder := PanicReporting)
    case FeederReport =>
      Offer(s, FeederPanicked).(feeder := PanicCancelling, panicked := true, reports := s.reports + [FeederPanicked])
    case FeederCancel => s.(feeder := Closing, cancelled := true)
    case CloseJobs => s.(feeder := Waiting)
    case CloseResults => s.(feeder := Stopped)
    case Transform(w) =>
      var i := s.workers[w].index;
      SetWorker(s, w, Sending(Item(i, c.ids[i], c.clean(c.ids[i]).value)))
    case Fail(w) => SetWorker(s, w, Reporting(s.workers[w].index))
    case Report(w) =>
      var i := s.workers[w].index;
      SetWorker(Offer(s, NoteFailed(i)), w, Cancelling).(lost := s.lost + multiset{i},
                                                         reports := s.reports + [NoteFailed(i)])
    case Cancel(w) => SetWorker(s, w, Leaving).(cancelled := true)
    case Send(w) => SetWorker(s, w, Idle).(queue := s.queue + [s.workers[w].item])
    case Leave(w) => SetWorker(s, w, Leaving)
    case Done(w) => SetWorker(s, w, Exited)
    case Consume =>
      s.(queue := s.queue[1..], received := s.received + [s.queue[0]], tally := Count(s.tally, s.queue[0]))
    case FinishDrain =>
      var errors := if s.errSlot.Some? then 1 else 0;
      s.(consumer := Finished(s.errSlot), errSlot := None,
         tally := s.tally.(summary := s.tally.summary.(errors := s.tally.summary.errors + errors)))
    case ParentCancel => s.(cancelled := true, parentCancelled := true)
  }

  /** Every action is enabled when its turn comes. */
  predicate ValidRun(c: Config, s: State, run: seq<Action>)
    decreases |run|
  {
    run == [] || (Enabled(c, s, run[0]) && ValidRun(c, Next(c, s, run[0]), run[1..]))
  }

  function After(c: Config, s: State, run: seq<Action>): State
    requires ValidRun(c, s, run)
    decreases |run|
  {
    if run == [] then s else After(c, Next(c, s, run[0]), run[1..])
  }

  ghost predicate Reachable(c: Config, s: State) {
    exists run :: ValidRun(c, Init(c), run) && After(c, Init(c), run) == s
  }

  // ---------- control invariant: who may have left, and why ----------

  ghost predicate Control(c: Config, s: State) {
    && |s.workers| == WorkerCount(c)
    && |s.queue| <= Capacity(c)
    && s.next <= |c.ids|
    && (forall w | 0 <= w < |s.workers| && (s.workers[w].Leaving? || s.workers[w].Exited?) ::
          s.cancelled || JobsClosed(s))
    && (forall w | 0 <= w < |s.workers| && s.workers[w].Cancelling? :: Reported(s))
    && (s.lost != multiset{} ==> Reported(s))
    && (s.panicked ==> Reported(s))
    && (s.feeder.PanicCancelling? ==> Reported(s))
    && (s.cancelled ==> s.parentCancelled || Reported(s))
    && (s.feeder.Closing? || JobsClosed(s) ==> s.next == |c.ids| || s.cancelled)
    && (s.feeder.Stopped? ==> forall w | 0 <= w < |s.workers| :: s.workers[w].Exited?)
    && (s.consumer.Finished? ==> s.feeder.Stopped? && s.queue == [] && s.errSlot.None?)
    && Failures(s) == (if s.reports == [] then None else Some(s.reports[0]))
    && (forall k | 0 <= k < |s.reports| :: Recorded(s, s.reports[k]))
  }

  /** Every report is of a note that was lost or of the feeder's panic. */
  predicate Recorded(s: State, f: Failure) {
    match f
    case NoteFailed(i) => i in s.lost
    case FeederPanicked => s.panicked
  }

  /** The first failure offered to errCh, before or after the consumer read it. */
  function Failures(s: State): Option<Failure> {
    match s.consumer
    case Draining => s.errSlot
    case Finished(outcome) => outcome
  }

  predicate Reported(s: State) {
    Failures(s).Some?
  }

  predicate FeederAction(a: Action) {
    || a.FeedStop? || a.FeedExhausted? || a.FeederPanic? || a.FeederReport? || a.FeederCancel?
    || a.CloseJobs? || a.CloseResults?
  }

  predicate PassingAction(a: Action) {
    a.Feed? || a.Transform? || a.Send?
  }

  predicate FailingAction(a: Action) {
    a.Fail? || a.Report? || a.Cancel?
  }

  predicate LeavingAction(a: Action) {
    a.Leave? || a.Done?
  }

  lemma FeederControl(c: Config, s: State, a: Action)
    requires Control(c, s) && Enabled(c, s, a) && FeederAction(a)
    ensures Control(c, Next(c, s, a))
  {
  }

  lemma PassingControl(c: Config, s: State, a: Action)
    requires Control(c, s) && Enabled(c, s, a) && PassingAction(a)
    ensures Control(c, Next(c, s, a))
  {
  }

  lemma ReportControl(c: Config, s: State, w: nat)
    requires Control(c, s) && Enabled(c, s, Report(w))
    ensures Control(c, Next(c, s, Report(w)))
  {
  }

  lemma FailingControl(c: Config, s: State, a: Action)
    requires Control(c, s) && Enabled(c, s, a) && FailingAction(a)
    ensures Control(c, Next(c, s, a))
  {
    if a.Report? {
      ReportControl(c, s, a.w);
    }
  }

  lemma LeavingControl(c: Config, s: State, a: Action)
    requires Control(c, s) && Enabled(c, s, a) && LeavingAction(a)
    ensures Control(c, Next(c, s, a))
  {
  }

  lemma ConsumerControl(c: Config, s: State, a: Action)
    requires Control(c, s) && Enabled(c, s, a) && (a.Consume? || a.FinishDrain? || a.ParentCancel?)
    ensures Control(c, Next(c, s, a))
  {
  }

  lemma NextControl(c: Config, s: State, a: Action)
    requires Control(c, s) && Enabled(c, s, a)
    ensures Control(c, Next(c, s, a))
  {
    if FeederAction(a) {
      FeederControl(c, s, a);
    } else if PassingAction(a) {
      PassingControl(c, s, a);
    } else if FailingAction(a) {
      FailingControl(c, s, a);
    } else if LeavingAction(a) {
      LeavingControl(c, s, a);
    } else {
      ConsumerControl(c, s, a);
    }
  }

  // ---------- conservation: no note is lost or duplicated ----------

  function HeldBy(p: WorkerPhase, i: nat): nat {
    match p
    case Working(j) => if i == j then 1 else 0
    case Sending(item) => if i == item.index then 1 else 0
    case Reporting(j) => if i == j then 1 else 0
    case _ => 0
  }

  /** How many workers hold note `i`. */
  function Held(workers: seq<WorkerPhase>, i: nat): nat {
    if workers == [] then 0 else HeldBy(workers[0], i) + Held(workers[1..], i)
  }

  function Occurs(items: seq<Item>, i: nat): nat {
    if items == [] then 0 else (if items[0].index == i then 1 else 0) + Occurs(items[1..], i)
  }

  /** All the places note `i` can be. */
  function Places(s: State, i: nat): nat {
    Held(s.workers, i) + Occurs(s.queue, i) + Occurs(s.received, i) + s.lost[i]
  }

  /** Every note handed out so far is with a worker, queued, consumed or reported lost,
      and in exactly one of these places; the others are nowhere. */
  ghost predicate Conserved(s: State) {
    forall i: nat :: Places(s, i) == if i < s.next then 1 else 0
  }

  lemma {:induction false} HeldUpdate(workers: seq<WorkerPhase>, w: nat, p: WorkerPhase, i: nat)
    requires w < |workers|
    ensures Held(workers[w := p], i) == Held(workers, i) - HeldBy(workers[w], i) + HeldBy(p, i)
  {
    var rest, updated := workers[1..], workers[w := p];
    if w == 0 {
      assert updated[1..] == rest;
    } else {
      HeldUpdate(rest, w - 1, p, i);
      assert updated[1..] == rest[w - 1 := p];
    }
  }

  lemma {:induction false} HeldNothing(workers: seq<WorkerPhase>, i: nat)
    requires forall w | 0 <= w < |workers| :: HeldBy(workers[w], i) == 0
    ensures Held(workers, i) == 0
  {
    if workers != [] {
      HeldNothing(workers[1..], i);
    }
  }

  lemma {:induction false} OccursAppend(a: seq<Item>, b: seq<Item>, i: nat)
    ensures Occurs(a + b, i) == Occurs(a, i) + Occurs(b, i)
  {
    if a == [] {
      assert a + b == b;
    } else {
      assert (a + b)[1..] == a[1..] + b;
      OccursAppend(a[1..], b, i);
    }
  }

  lemma InitConserved(c: Config)
    ensures Conserved(Init(c))
  {
    forall i: nat
      ensures Places(Init(c), i) == 0
    {
      HeldNothing(Init(c).workers, i);
    }
  }

  lemma FeedPlaces(c: Config, s: State, w: nat, i: nat)
    requires Enabled(c, s, Feed(w))
    ensures Places(Next(c, s, Feed(w)), i) == Places(s, i) + if i == s.next then 1 else 0
  {
    HeldUpdate(s.workers, w, Working(s.next), i);
  }

  lemma ReportPlaces(c: Config, s: State, w: nat, i: nat)
    requires Enabled(c, s, Report(w))
    ensures Places(Next(c, s, Report(w)), i) == Places(s, i)
  {
    HeldUpdate(s.workers, w, Cancelling, i);
  }

  lemma SendPlaces(c: Config, s: State, w: nat, i: nat)
    requires Enabled(c, s, Send(w))
    ensures Places(Next(c, s, Send(w)), i) == Places(s, i)
  {
    HeldUpdate(s.workers, w, Idle, i);
    OccursAppend(s.queue, [s.workers[w].item], i);
  }

  lemma ConsumePlaces(c: Config, s: State, i: nat)
    requires Enabled(c, s, Consume)
    ensures Places(Next(c, s, Consume), i) == Places(s, i)
  {
    OccursAppend(s.received, [s.queue[0]], i);
  }

  /** Only handing out a note adds a place, and only for that note. */
  lemma NextPlaces(c: Config, s: State, a: Action, i: nat)
    requires Enabled(c, s, a)
    ensures Places(Next(c, s, a), i) == Places(s, i) + if a.Feed? && i == s.next then 1 else 0
  {
    match a {
      case Feed(w) => FeedPlaces(c, s, w, i);
      case Report(w) => ReportPlaces(c, s, w, i);
      case Send(w) => SendPlaces(c, s, w, i);
      case Consume => ConsumePlaces(c, s, i);
      case _ =>
        if a.Transform? || FailingAction(a) || LeavingAction(a) {
          PhasePlaces(c, s, a, i);
        }
    }
  }

  /** A phase change that keeps the worker's note, or its lack of one. */
  lemma PhasePlaces(c: Config, s: State, a: Action, i: nat)
    requires Enabled(c, s, a) && !a.Report? && (a.Transform? || FailingAction(a) || LeavingAction(a))
    ensures Places(Next(c, s, a), i) == Places(s, i)
  {
    HeldUpdate(s.workers, a.w, Next(c, s, a).workers[a.w], i);
  }

  lemma NextConserved(c: Config, s: State, a: Action)
    requires Conserved(s) && Enabled(c, s, a)
    ensures Conserved(Next(c, s, a))
  {
    forall i: nat
      ensures Places(Next(c, s, a), i) == if i < Next(c, s, a).next then 1 else 0
    {
      NextPlaces(c, s, a, i);
      assert Places(s, i) == if i < s.next then 1 else 0;
    }
  }

  // ---------- what travels, and what the consumer has added up ----------

  ghost predicate Genuine(c: Config, item: Item) {
    && item.index < |c.ids|
    && item.noteID == c.ids[item.index]
    && c.clean(item.noteID) == Ok(item.cleaned)
  }

  function TallyOf(items: seq<Item>): Tally {
    if items == [] then EMPTY_TALLY else Count(TallyOf(items[..|items| - 1]), items[|items| - 1])
  }

  ghost predicate SendingGenuine(c: Config, workers: seq<WorkerPhase>) {
    forall w | 0 <= w < |workers| && workers[w].Sending? :: Genuine(c, workers[w].item)
  }

  ghost predicate AllGenuine(c: Config, items: seq<Item>) {
    forall k | 0 <= k < |items| :: Genuine(c, items[k])
  }

  ghost predicate InFlightGenuine(c: Config, s: State) {
    SendingGenuine(c, s.workers) && AllGenuine(c, s.queue) && AllGenuine(c, s.received)
  }

  ghost predicate Accounted(c: Config, s: State) {
    && InFlightGenuine(c, s)
    && s.tally.records == TallyOf(s.received).records
    && s.tally.toWrite == TallyOf(s.received).toWrite
    && s.tally.summary == TallyOf(s.received).summary.(errors := if s.consumer.Finished? && Reported(s) then 1 else 0)
  }

  lemma {:induction false} TallyCounts(items: seq<Item>)
    ensures var t := TallyOf(items).summary;
            t.processed == |items| && t.processed == t.changed + t.skipped && t.errors == 0
    ensures |TallyOf(items).toWrite| == TallyOf(items).summary.changed
  {
    if items != [] {
      TallyCounts(items[..|items| - 1]);
    }
  }

  lemma NextAccounted(c: Config, s: State, a: Action)
    requires Control(c, s) && Accounted(c, s) && Enabled(c, s, a)
    ensures Accounted(c, Next(c, s, a))
  {
    if a.Consume? {
      ConsumeAccounted(c, s);
    } else if a.FinishDrain? {
      TallyCounts(s.received);
    } else {
      NextGenuine(c, s, a);
      NextTally(c, s, a);
    }
  }

  lemma NextSendingGenuine(c: Config, s: State, a: Action)
    requires SendingGenuine(c, s.workers) && Enabled(c, s, a)
    ensures SendingGenuine(c, Next(c, s, a).workers)
  {
    var t := Next(c, s, a);
    if a.Transform? {
      assert Genuine(c, t.workers[a.w].item);
      assert t.workers == s.workers[a.w := t.workers[a.w]];
    }
  }

  lemma NextGenuine(c: Config, s: State, a: Action)
    requires InFlightGenuine(c, s) && Enabled(c, s, a)
    ensures InFlightGenuine(c, Next(c, s, a))
  {
    NextSendingGenuine(c, s, a);
    if a.Send? {
      assert Genuine(c, s.workers[a.w].item);
    }
  }

  /** Away from the consumer's own steps its outcome is not even looked at. */
  lemma NextTally(c: Config, s: State, a: Action)
    requires Enabled(c, s, a) && !a.Consume? && !a.FinishDrain?
    ensures SameTally(s, Next(c, s, a))
  {
    if PassingAction(a) {
      PassingTally(c, s, a);
    } else if FailingAction(a) {
      FailingTally(c, s, a);
    } else if LeavingAction(a) {
      LeavingTally(c, s, a);
    }
  }

  predicate SameTally(s: State, t: State) {
    t.tally == s.tally && t.received == s.received && t.consumer == s.consumer
  }

  lemma PassingTally(c: Config, s: State, a: Action)
    requires Enabled(c, s, a) && PassingAction(a)
    ensures SameTally(s, Next(c, s, a))
  {
  }

  lemma FailingTally(c: Config, s: State, a: Action)
    requires Enabled(c, s, a) && FailingAction(a)
    ensures SameTally(s, Next(c, s, a))
  {
  }

  lemma LeavingTally(c: Config, s: State, a: Action)
    requires Enabled(c, s, a) && LeavingAction(a)
    ensures SameTally(s, Next(c, s, a))
  {
  }

  lemma ConsumeAccounted(c: Config, s: State)
    requires Accounted(c, s) && Enabled(c, s, Consume)
    ensures Accounted(c, Next(c, s, Consume))
  {
    var t := Next(c, s, Consume);
    NextGenuine(c, s, Consume);
    assert t.received[..|s.received|] == s.received;
    TallyCounts(s.received);
  }

  // ---------- the invariant of every reachable state ----------

  ghost predicate Inv(c: Config, s: State) {
    Control(c, s) && Conserved(s) && Accounted(c, s)
  }

  lemma {:induction false} InvAlongRun(c: Config, s: State, run: seq<Action>)
    requires Inv(c, s) && ValidRun(c, s, run)
    ensures Inv(c, After(c, s, run))
    decreases |run|
  {
    if run != [] {
      NextControl(c, s, run[0]);
      NextConserved(c, s, run[0]);
      NextAccounted(c, s, run[0]);
      InvAlongRun(c, Next(c, s, run[0]), run[1..]);
    }
  }

  lemma ReachableInv(c: Config, s: State)
    requires Reachable(c, s)
    ensures Inv(c, s)
  {
    var run :| ValidRun(c, Init(c), run) && After(c, Init(c), run) == s;
    InitConserved(c);
    InvAlongRun(c, Init(c), run);
  }
}
