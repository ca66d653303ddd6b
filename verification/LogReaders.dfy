/** The two readers of the log hub over whole runs: the polling client of handleLogs and the
    SSE stream of handleLogStream (internal/interfaces/httpapi/server.go). Events are
    identified by their position in publication order; their ids are arbitrary, because ids
    are taken before the hub's lock. */
module LogReaders {
  import opened LogHub

  // ---------- the buffer ----------

  function Published(buf: seq<LogEvent>, events: seq<LogEvent>): seq<LogEvent> {
    if events == [] then buf
    else Last(Published(buf, events[..|events| - 1]) + [events[|events| - 1]], WINDOW)
  }

  /** After any number of publications the buffer is the last min(1000, n) events, in order. */
  lemma {:induction false} BufferIsLastWindow(events: seq<LogEvent>)
    ensures Published([], events) == Last(events, WINDOW)
    ensures Published([], events) == if |events| <= 1000 then events else events[|events| - 1000..]
  {
    if events != [] {
      var front := events[..|events| - 1];
      BufferIsLastWindow(front);
      LastAppend(front, events[|events| - 1], WINDOW);
      assert events == front + [events[|events| - 1]];
    }
  }

  function WindowStart(n: nat): nat {
    if n <= 1000 then 0 else n - 1000
  }

  /** Positions from `lo` on whose event has an id above `id`. */
  function NewerPositions(events: seq<LogEvent>, lo: nat, id: int): (r: seq<nat>)
    requires lo <= |events|
    ensures forall k | 0 <= k < |r| :: lo <= r[k] < |events| && events[r[k]].id > id
    decreases |events|
  {
    if |events| == lo then []
    else
      var n := |events| - 1;
      var front := NewerPositions(events[..n], lo, id);
      if events[n].id > id then front + [n] else front
  }

  function At(events: seq<LogEvent>, positions: seq<nat>): seq<LogEvent>
    requires forall k | 0 <= k < |positions| :: positions[k] < |events|
  {
    seq(|positions|, k requires 0 <= k < |positions| => events[positions[k]])
  }

  lemma AtAppend(events: seq<LogEvent>, positions: seq<nat>, n: nat)
    requires |events| == n + 1 && forall k | 0 <= k < |positions| :: positions[k] < n
    ensures At(events, positions + [n]) == At(events[..n], positions) + [events[n]]
    ensures At(events, positions) == At(events[..n], positions)
  {
  }

  /** What Since returns, in terms of positions. */
  lemma {:induction false} NewerByPosition(events: seq<LogEvent>, lo: nat, id: int)
    requires lo <= |events|
    ensures Newer(events[lo..], id) == At(events, NewerPositions(events, lo, id))
    decreases |events|
  {
    if |events| > lo {
      var n := |events| - 1;
      NewerByPosition(events[..n], lo, id);
      assert events[lo..][..n - lo] == events[..n][lo..];
      AtAppend(events, NewerPositions(events[..n], lo, id), n);
    }
  }

  /** How often a position occurs. */
  function Times(positions: seq<nat>, i: nat): nat {
    if positions == [] then 0
    else Times(positions[..|positions| - 1], i) + if positions[|positions| - 1] == i then 1 else 0
  }

  lemma {:induction false} TimesAppend(a: seq<nat>, b: seq<nat>, i: nat)
    ensures Times(a + b, i) == Times(a, i) + Times(b, i)
  {
    if b == [] {
      assert a + b == a;
    } else {
      assert (a + b)[..|a + b| - 1] == a + b[..|b| - 1];
      TimesAppend(a, b[..|b| - 1], i);
    }
  }

  lemma TimesSnoc(a: seq<nat>, n: nat, i: nat)
    ensures Times(a + [n], i) == Times(a, i) + if n == i then 1 else 0
  {
    assert (a + [n])[..|a|] == a;
  }

  /** The answer over one event more. */
  lemma NewerSnoc(events: seq<LogEvent>, lo: nat, id: int)
    requires lo < |events|
    ensures var n := |events| - 1;
            NewerPositions(events, lo, id) ==
            NewerPositions(events[..n], lo, id) + if events[n].id > id then [n] else []
  {
  }

  /** Each newer event is listed once, and nothing else is. */
  lemma {:induction false} NewerTimes(events: seq<LogEvent>, lo: nat, id: int, i: nat)
    requires lo <= |events|
    ensures Times(NewerPositions(events, lo, id), i) == if lo <= i < |events| && events[i].id > id then 1 else 0
    decreases |events|
  {
    if |events| > lo {
      var n := |events| - 1;
      var shorter := events[..n];
      var front := NewerPositions(shorter, lo, id);
      NewerTimes(shorter, lo, id, i);
      NewerSnoc(events, lo, id);
      TimesSnoc(front, n, i);
      assert i < n ==> shorter[i] == events[i];
      assert front + [] == front;
    }
  }

  lemma SinceByPosition(events: seq<LogEvent>, id: int)
    ensures Newer(Published([], events), id) == At(events, NewerPositions(events, WindowStart(|events|), id))
  {
    BufferIsLastWindow(events);
    NewerByPosition(events, WindowStart(|events|), id);
    assert events[0..] == events;
  }

  // ---------- polling ----------

  datatype PollStep = Pub(event: LogEvent) | Poll

  /** Why an event was or was not delivered at the first poll after its publication. */
  datatype Verdict = Delivered | PushedOut | Overtaken(cursor: int)

  datatype Client = Client(
    events: seq<LogEvent>,      // everything published
    polled: nat,                // how many were published at the last poll
    cursor: int,                // largest id seen
    got: seq<nat>,              // positions received, in order
    polls: seq<nat>,            // history: how many were published at each poll
    verdicts: seq<Verdict>)     // history: one for each event published before the last poll

  const START := Client([], 0, 0, [], [], [])

  function MaxId(events: seq<LogEvent>, positions: seq<nat>, least: int): (m: int)
    requires forall k | 0 <= k < |positions| :: positions[k] < |events|
    ensures m >= least && forall k | 0 <= k < |positions| :: m >= events[positions[k]].id
    ensures m == least || exists k :: 0 <= k < |positions| && m == events[positions[k]].id
  {
    if positions == [] then least
    else
      var n := |positions| - 1;
      var m := MaxId(events, positions[..n], least);
      if events[positions[n]].id > m then events[positions[n]].id else m
  }

  function Judge(c: Client, i: nat): Verdict
    requires i < |c.events|
  {
    if i < WindowStart(|c.events|) then PushedOut
    else if c.events[i].id <= c.cursor then Overtaken(c.cursor)
    else Delivered
  }

  function Polled(c: Client): Client
    requires c.polled <= |c.events|
  {
    Client(c.events, |c.events|, MaxId(c.events, Answer(c), c.cursor), c.got + Answer(c),
           c.polls + [|c.events|],
           c.verdicts + seq(|c.events| - c.polled, k requires 0 <= k < |c.events| - c.polled => Judge(c, c.polled + k)))
  }

  function Step(c: Client, step: PollStep): (t: Client)
    requires c.polled <= |c.events|
    ensures t.polled <= |t.events| && c.events <= t.events
  {
    match step
    case Pub(e) => c.(events := c.events + [e])
    case Poll => Polled(c)
  }

  function Run(steps: seq<PollStep>): (c: Client)
    ensures c.polled <= |c.events|
  {
    if steps == [] then START else Step(Run(steps[..|steps| - 1]), steps[|steps| - 1])
  }

  /** The answer to the next poll. */
  function Answer(c: Client): seq<nat> {
    NewerPositions(c.events, WindowStart(|c.events|), c.cursor)
  }

  /** Some event published before position `i` was delivered and carries the id `cursor`. */
  ghost predicate SeenBefore(c: Client, i: nat, cursor: int)
    requires |c.verdicts| <= |c.events|
  {
    cursor == 0 || exists j :: 0 <= j < |c.verdicts| && j < i && c.verdicts[j].Delivered? && c.events[j].id == cursor
  }

  /** How many events were published at the poll before poll `k`. */
  function PollBefore(c: Client, k: nat): nat
    requires k < |c.polls|
  {
    if k == 0 then 0 else c.polls[k - 1]
  }

  /** Poll `k` is the first one after event `i` was published. */
  predicate FirstPollAfter(c: Client, i: nat, k: nat) {
    k < |c.polls| && PollBefore(c, k) <= i < c.polls[k]
  }

  /** Event `j` was delivered by a poll before poll `k`. */
  predicate DeliveredBefore(c: Client, j: nat, k: nat)
    requires k < |c.polls|
  {
    j < |c.verdicts| && j < PollBefore(c, k) && c.verdicts[j].Delivered?
  }

  /** What the verdict says about the state of affairs at poll `k`: the event was outside the
      window; or it was inside and an earlier poll had delivered an event with an id at least
      as large; or it was inside and its id exceeds every id delivered by an earlier poll. */
  ghost predicate Because(c: Client, i: nat, k: nat)
    requires i < |c.verdicts| <= |c.events| && k < |c.polls|
  {
    match c.verdicts[i]
    case PushedOut => i < WindowStart(c.polls[k])
    case Overtaken(cursor) =>
      WindowStart(c.polls[k]) <= i && c.events[i].id <= cursor && SeenBefore(c, PollBefore(c, k), cursor)
    case Delivered =>
      WindowStart(c.polls[k]) <= i && c.events[i].id > 0 &&
      forall j: nat | DeliveredBefore(c, j, k) :: c.events[j].id < c.events[i].id
  }

  ghost predicate Explained(c: Client, i: nat)
    requires i < |c.verdicts| <= |c.events|
  {
    exists k: nat :: FirstPollAfter(c, i, k) && Because(c, i, k)
  }

  ghost predicate Ascending(counts: seq<nat>) {
    forall a, b | 0 <= a <= b < |counts| :: counts[a] <= counts[b]
  }

  /** Every event published before the last poll has its verdict, was delivered exactly as
      often as the verdict says, cannot be delivered any more, and got its verdict for the
      reason that held at the first poll after its publication. */
  ghost predicate Settled(c: Client) {
    && |c.verdicts| == c.polled <= |c.events|
    && c.polled == (if c.polls == [] then 0 else c.polls[|c.polls| - 1])
    && 0 <= c.cursor
    && Ascending(c.polls)
    && (forall i | 0 <= i < c.polled :: i < WindowStart(|c.events|) || c.events[i].id <= c.cursor)
    && (forall i: nat :: Times(c.got, i) == if i < c.polled && c.verdicts[i].Delivered? then 1 else 0)
    && SeenBefore(c, c.polled, c.cursor)
    && (forall i | 0 <= i < c.polled && c.verdicts[i].Delivered? :: c.events[i].id <= c.cursor)
    && (forall i: nat | i < c.polled :: Explained(c, i))
  }

  lemma SeenLater(c: Client, t: Client, i: nat, cursor: int)
    requires |c.verdicts| <= |c.events| && |t.verdicts| <= |t.events|
    requires c.verdicts <= t.verdicts && c.events <= t.events
    requires SeenBefore(c, i, cursor)
    ensures SeenBefore(t, i, cursor)
  {
    if cursor != 0 {
      var j :| 0 <= j < |c.verdicts| && j < i && c.verdicts[j].Delivered? && c.events[j].id == cursor;
      assert t.verdicts[j] == c.verdicts[j] && t.events[j] == c.events[j];
    }
  }

  /** Later publications and polls leave an explanation as it is. */
  lemma ExplainedLater(c: Client, t: Client, i: nat)
    requires |c.verdicts| == c.polled <= |c.events| && |t.verdicts| <= |t.events|
    requires c.polled == (if c.polls == [] then 0 else c.polls[|c.polls| - 1])
    requires c.verdicts <= t.verdicts && c.events <= t.events && c.polls <= t.polls
    requires i < c.polled && Explained(c, i)
    ensures Explained(t, i)
  {
    var k: nat :| FirstPollAfter(c, i, k) && Because(c, i, k);
    assert t.polls[k] == c.polls[k] && PollBefore(t, k) == PollBefore(c, k);
    assert t.verdicts[i] == c.verdicts[i] && t.events[i] == c.events[i];
    match c.verdicts[i] {
      case PushedOut =>
      case Overtaken(cursor) => SeenLater(c, t, PollBefore(c, k), cursor);
      case Delivered =>
        forall j: nat | DeliveredBefore(t, j, k)
          ensures t.events[j].id < t.events[i].id
        {
          assert j < PollBefore(c, k) <= i && t.verdicts[j] == c.verdicts[j] && t.events[j] == c.events[j];
          assert DeliveredBefore(c, j, k);
        }
    }
    assert FirstPollAfter(t, i, k) && Because(t, i, k);
  }

  lemma PubSettled(c: Client, e: LogEvent)
    requires Settled(c)
    ensures Settled(c.(events := c.events + [e]))
  {
    var t := c.(events := c.events + [e]);
    SeenLater(c, t, c.polled, c.cursor);
    forall i: nat | i < c.polled
      ensures Explained(t, i)
    {
      ExplainedLater(c, t, i);
    }
  }

  /** The verdicts of a poll: old ones stay, new ones are what the poll decides. */
  lemma PollVerdict(c: Client, i: nat)
    requires |c.verdicts| == c.polled <= |c.events| && i < |c.events|
    ensures Polled(c).verdicts[i] == if i < c.polled then c.verdicts[i] else Judge(c, i)
  {
  }

  lemma PollCounts(c: Client, i: nat)
    requires Settled(c)
    ensures var t := Polled(c); Times(t.got, i) == if i < t.polled && t.verdicts[i].Delivered? then 1 else 0
  {
    NewerTimes(c.events, WindowStart(|c.events|), c.cursor, i);
    TimesAppend(c.got, Answer(c), i);
    assert Times(c.got, i) == if i < c.polled && c.verdicts[i].Delivered? then 1 else 0;
    if i < |c.events| {
      PollVerdict(c, i);
    }
  }

  lemma PollClears(c: Client, i: nat)
    requires Settled(c) && i < |c.events|
    ensures i < WindowStart(|c.events|) || c.events[i].id <= Polled(c).cursor
  {
    NewerTimes(c.events, WindowStart(|c.events|), c.cursor, i);
    if WindowStart(|c.events|) <= i && c.events[i].id > c.cursor {
      TimesWitness(Answer(c), i);
    }
  }

  lemma {:induction false} TimesWitness(positions: seq<nat>, i: nat)
    requires Times(positions, i) > 0
    ensures exists k :: 0 <= k < |positions| && positions[k] == i
  {
    var n := |positions| - 1;
    if positions[n] != i {
      TimesWitness(positions[..n], i);
      var k :| 0 <= k < n && positions[..n][k] == i;
      assert positions[k] == i;
    }
  }

  lemma CursorWasSeen(c: Client)
    requires Settled(c)
    ensures SeenBefore(Polled(c), Polled(c).polled, Polled(c).cursor)
  {
    var t, answer := Polled(c), Answer(c);
    if t.cursor != c.cursor {
      var k :| 0 <= k < |answer| && t.cursor == c.events[answer[k]].id;
      PollVerdict(c, answer[k]);
      assert t.verdicts[answer[k]].Delivered?;
    } else if c.cursor != 0 {
      var j :| 0 <= j < |c.verdicts| && j < c.polled && c.verdicts[j].Delivered? && c.events[j].id == c.cursor;
      PollVerdict(c, j);
    }
  }

  /** A poll decides the events published since the one before, for the reasons it finds. */
  lemma PollExplains(c: Client, i: nat)
    requires Settled(c) && c.polled <= i < |c.events|
    ensures Explained(Polled(c), i)
  {
    var t, k := Polled(c), |c.polls|;
    PollVerdict(c, i);
    assert t.polls[k] == |c.events| && PollBefore(t, k) == c.polled;
    SeenLater(c, t, c.polled, c.cursor);
    forall j: nat | DeliveredBefore(t, j, k)
      ensures t.events[j].id <= c.cursor
    {
      PollVerdict(c, j);
    }
    assert FirstPollAfter(t, i, k) && Because(t, i, k);
  }

  lemma PollSettled(c: Client)
    requires Settled(c)
    ensures Settled(Polled(c))
  {
    var t := Polled(c);
    forall i: nat
      ensures Times(t.got, i) == if i < t.polled && t.verdicts[i].Delivered? then 1 else 0
    {
      PollCounts(c, i);
    }
    forall i | 0 <= i < t.polled
      ensures i < WindowStart(|t.events|) || t.events[i].id <= t.cursor
    {
      PollClears(c, i);
    }
    forall i | 0 <= i < t.polled && t.verdicts[i].Delivered?
      ensures t.events[i].id <= t.cursor
    {
      PollVerdict(c, i);
      if i >= c.polled {
        PollClears(c, i);
      }
    }
    CursorWasSeen(c);
    forall i: nat | i < t.polled
      ensures Explained(t, i)
    {
      if i < c.polled {
        ExplainedLater(c, t, i);
      } else {
        PollExplains(c, i);
      }
    }
  }

  /** Without any assumption on ids or timing: every event published before the last poll was
      delivered once or never will be. Delivered are exactly the events that, at the first poll
      after their publication, were in the window and had a positive id above all ids that
      earlier polls had delivered. Any other was outside the window at that poll, or its id was
      not positive or not above one delivered earlier. */
  lemma {:induction false} MissedEventsExplained(steps: seq<PollStep>)
    ensures Settled(Run(steps))
  {
    if steps != [] {
      var front := steps[..|steps| - 1];
      MissedEventsExplained(front);
      match steps[|steps| - 1] {
        case Pub(e) => PubSettled(Run(front), e);
        case Poll => PollSettled(Run(front));
      }
    }
  }

  /** Event `i` is in the window of poll `k`, and its id is positive and above all ids the
      client had from earlier polls. */
  ghost predicate NewAtPoll(c: Client, i: nat, k: nat)
    requires i < |c.events| && k < |c.polls| && PollBefore(c, k) <= |c.events|
  {
    && WindowStart(c.polls[k]) <= i
    && c.events[i].id > 0
    && forall j: nat | j < PollBefore(c, k) && Times(c.got, j) == 1 :: c.events[j].id < c.events[i].id
  }

  /** The same without the history of verdicts: if poll `k` is the first after event `i` was
      published, the client has the event, and has it once, exactly when the event was new at
      that poll. */
  lemma DeliveredExactlyWhen(steps: seq<PollStep>, i: nat, k: nat)
    requires FirstPollAfter(Run(steps), i, k)
    ensures var c := Run(steps);
            && i < c.polls[k] <= c.polled <= |c.events|
            && Times(c.got, i) <= 1
            && (Times(c.got, i) == 1 <==> NewAtPoll(c, i, k))
  {
    MissedEventsExplained(steps);
    NewExactlyWhen(Run(steps), i, k);
  }

  lemma NewExactlyWhen(c: Client, i: nat, k: nat)
    requires Settled(c) && FirstPollAfter(c, i, k)
    ensures i < c.polls[k] <= c.polled && PollBefore(c, k) <= c.polled
    ensures Times(c.got, i) == if c.verdicts[i].Delivered? then 1 else 0
    ensures c.verdicts[i].Delivered? <==> NewAtPoll(c, i, k)
  {
    assert c.polls[k] <= c.polls[|c.polls| - 1];
    assert Explained(c, i);
    var m: nat :| FirstPollAfter(c, i, m) && Because(c, i, m);
    assert k == m;
    forall j: nat | j < PollBefore(c, k)
      ensures Times(c.got, j) == 1 <==> DeliveredBefore(c, j, k)
    {
    }
    if c.verdicts[i].Overtaken? && c.events[i].id > 0 {
      var j :| 0 <= j < PollBefore(c, k) && c.verdicts[j].Delivered? && c.events[j].id == c.verdicts[i].cursor;
      assert Times(c.got, j) == 1;
    }
  }

  /** Ids are positive and grow in publication order. */
  ghost predicate InIdOrder(events: seq<LogEvent>) {
    (forall i | 0 <= i < |events| :: events[i].id > 0) &&
    (forall i, j | 0 <= i < j < |events| :: events[i].id < events[j].id)
  }

  /** No stretch between two polls, or before the first, publishes more than the window. */
  ghost predicate PolledOften(steps: seq<PollStep>) {
    |Run(steps).events| - Run(steps).polled <= 1000 && (steps == [] || PolledOften(steps[..|steps| - 1]))
  }

  function Between(lo: nat, hi: nat): (r: seq<nat>)
    requires lo <= hi
    decreases hi - lo
    ensures |r| == hi - lo
  {
    if lo == hi then [] else Between(lo, hi - 1) + [hi - 1]
  }

  lemma {:induction false} BetweenJoin(lo: nat, mid: nat, hi: nat)
    requires lo <= mid <= hi
    ensures Between(lo, mid) + Between(mid, hi) == Between(lo, hi)
    decreases hi - mid
  {
    if mid < hi {
      BetweenJoin(lo, mid, hi - 1);
    }
  }

  /** When the newer events are a suffix, the answer is that suffix. */
  lemma {:induction false} NewSuffix(events: seq<LogEvent>, lo: nat, from: nat, id: int)
    requires lo <= from <= |events|
    requires forall i | lo <= i < from :: events[i].id <= id
    requires forall i | from <= i < |events| :: events[i].id > id
    ensures NewerPositions(events, lo, id) == Between(from, |events|)
    decreases |events|
  {
    if |events| > lo {
      var n := |events| - 1;
      NewSuffix(events[..n], lo, if from <= n then from else n, id);
    }
  }

  lemma AnswerIsSuffix(c: Client)
    requires InIdOrder(c.events) && Level(c) && |c.events| <= c.polled + WINDOW
    ensures Answer(c) == Between(c.polled, |c.events|)
  {
    forall i | 0 <= i < c.polled
      ensures c.events[i].id <= c.cursor
    {
      if i < c.polled - 1 {
        assert c.events[i].id < c.events[c.polled - 1].id;
      }
    }
    NewSuffix(c.events, WindowStart(|c.events|), c.polled, c.cursor);
  }

  lemma PollBringsLevel(c: Client)
    requires InIdOrder(c.events) && Level(c) && |c.events| <= c.polled + WINDOW
    ensures Level(Polled(c)) && Polled(c).got == Between(0, |c.events|)
  {
    var t := Polled(c);
    AnswerIsSuffix(c);
    BetweenJoin(0, c.polled, |c.events|);
    assert t.got == c.got + Answer(c) && t.polled == |c.events|;
    if c.polled < |c.events| {
      LastIsLargest(c);
    } else {
      assert Answer(c) == [] && t.cursor == c.cursor;
    }
  }

  lemma LastIsLargest(c: Client)
    requires InIdOrder(c.events) && c.polled < |c.events| && c.cursor <= c.events[|c.events| - 1].id
    requires Answer(c) == Between(c.polled, |c.events|)
    ensures Polled(c).cursor == c.events[|c.events| - 1].id
  {
    var n := |c.events| - 1;
    assert Answer(c)[|Answer(c)| - 1] == n;
  }

  /** Exactly once and in order: when ids follow publication order and at most a window is
      published between polls, each poll brings the client level with everything published. */
  lemma {:induction false} PollingIsExactlyOnce(steps: seq<PollStep>)
    requires InIdOrder(Run(steps).events) && PolledOften(steps)
    ensures Level(Run(steps))
    ensures |steps| > 0 && steps[|steps| - 1].Poll? ==> Run(steps).got == Between(0, |Run(steps).events|)
  {
    if steps != [] {
      var front, last := steps[..|steps| - 1], steps[|steps| - 1];
      assert forall i | 0 <= i < |Run(front).events| :: Run(front).events[i] == Run(steps).events[i];
      PollingIsExactlyOnce(front);
      LevelStep(Run(front), last);
    }
  }

  lemma LevelStep(c: Client, step: PollStep)
    requires InIdOrder(c.events) && Level(c) && |c.events| <= c.polled + WINDOW
    ensures Level(Step(c, step))
    ensures step.Poll? ==> Step(c, step).got == Between(0, |Step(c, step).events|)
  {
    match step {
      case Pub(_) =>
      case Poll => PollBringsLevel(c);
    }
  }

  /** The client has everything published up to its last poll, in order. */
  ghost predicate Level(c: Client) {
    && c.polled <= |c.events|
    && c.got == Between(0, c.polled)
    && c.cursor == if c.polled == 0 then 0 else c.events[c.polled - 1].id
  }

  /** Publishing id 2 before id 1, with a poll in between, loses the event with id 1 for good. */
  lemma OutOfOrderPublicationIsMissed(e1: LogEvent, e2: LogEvent)
    requires e1.id == 1 && e2.id == 2
    ensures exists c :: Arises(c) && c.events == [e2] + [e1] && c.polled == 2 && c.got == [0]
  {
    assert Run([]) == START;
    Arise(START, Pub(e2));
    var c1 := START.(events := [] + [e2]);
    Arise(c1, Poll);
    FirstPoll(e2);
    var c2 := Polled(c1);
    Arise(c2, Pub(e1));
    var c3 := c2.(events := c2.events + [e1]);
    Arise(c3, Poll);
    SecondPoll(e1, e2, c2);
  }

  /** Some sequence of publications and polls leads here. */
  ghost predicate Arises(c: Client) {
    exists steps :: Run(steps) == c
  }

  lemma Arise(c: Client, step: PollStep)
    requires Arises(c) && c.polled <= |c.events|
    ensures Arises(Step(c, step))
  {
    var steps :| Run(steps) == c;
    RunSnoc(steps, step);
  }

  lemma FirstPoll(e2: LogEvent)
    requires e2.id == 2
    ensures var c := Polled(START.(events := [] + [e2]));
            c.got == [0] && c.cursor == 2 && c.polled == 1 && c.events == [e2]
  {
    NewSuffix([] + [e2], 0, 0, 0);
    assert Between(0, 0) == [] && Between(0, 1) == [0];
    var c := START.(events := [] + [e2]);
    assert Answer(c) == [0];
    assert [0][..0] == [];
  }

  lemma SecondPoll(e1: LogEvent, e2: LogEvent, c: Client)
    requires e1.id == 1 && e2.id == 2 && c.got == [0] && c.cursor == 2 && c.polled == 1 && c.events == [e2]
    ensures var t := Polled(c.(events := c.events + [e1])); t.got == [0] && t.polled == 2 && t.events == [e2] + [e1]
  {
    NewSuffix(c.events + [e1], 0, 2, 2);
    assert Answer(c.(events := c.events + [e1])) == [];
  }

  lemma RunSnoc(steps: seq<PollStep>, last: PollStep)
    ensures Run(steps + [last]) == Step(Run(steps), last)
  {
    assert (steps + [last])[..|steps|] == steps;
  }
}
