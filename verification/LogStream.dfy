/** The SSE hand-off of handleLogStream (internal/interfaces/httpapi/server.go): subscribe
    first, then replay the buffer, then drain the queue, while other goroutines publish,
    subscribe and cancel. A run is any sequence of enabled actions. */
module LogStream {
  import opened Common
  import opened LogHub
  import opened LogReaders

  /** One stream. Events are identified by their position in publication order. */
  datatype Stream = Stream(
    since: int,                 // Last-Event-ID, already clamped to zero
    from: nat,                  // how many events were published at Subscribe
    replayedAt: Option<nat>,    // how many were published at Since, once it was called
    replayed: seq<nat>,
    queue: seq<nat>,
    received: seq<nat>,         // taken from the queue
    registered: bool,           // still in the hub's map
    ended: Option<nat>,         // how many were published when the channel was closed
    closes: nat,                // history: how often the channel was closed
    enqueued: seq<nat>,         // history: accepted by the queue
    dropped: seq<nat>,          // history: refused by the queue
    taken: seq<nat>)            // history: how many were received at each offer, from `from` on

  datatype State = State(events: seq<LogEvent>, streams: seq<Stream>)

  const INIT := State([], [])

  datatype Action =
    | Publish(event: LogEvent)
    | Subscribe(since: int)
    | Replay(k: nat)
    | Receive(k: nat)
    | Cancel(k: nat)

  function Delivered(st: Stream, n: nat): Stream {
    if !st.registered then st
    else
      var offered := st.(queue := Offer(st.queue, n), taken := st.taken + [|st.received|]);
      if |st.queue| < QUEUE then offered.(enqueued := st.enqueued + [n])
      else offered.(dropped := st.dropped + [n])
  }

  predicate Enabled(s: State, a: Action) {
    match a
    case Publish(_) => true
    case Subscribe(_) => true
    case Replay(k) =>
      k < |s.streams| && s.streams[k].registered && s.streams[k].since > 0 && s.streams[k].replayedAt.None?
    case Receive(k) =>
      k < |s.streams| && s.streams[k].queue != [] && (s.streams[k].since > 0 ==> s.streams[k].replayedAt.Some?)
    case Cancel(k) => k < |s.streams|
  }

  function Next(s: State, a: Action): State
    requires Enabled(s, a)
  {
    var n := |s.events|;
    match a
    case Publish(e) =>
      State(s.events + [e], seq(|s.streams|, k requires 0 <= k < |s.streams| => Delivered(s.streams[k], n)))
    case Subscribe(since) =>
      var clamped := if since < 0 then 0 else since;
      s.(streams := s.streams + [Stream(clamped, n, None, [], [], [], true, None, 0, [], [], [])])
    case Replay(k) =>
      var st := s.streams[k];
      var answer := NewerPositions(s.events, WindowStart(n), st.since);
      s.(streams := s.streams[k := st.(replayedAt := Some(n), replayed := answer)])
    case Receive(k) =>
      var st := s.streams[k];
      s.(streams := s.streams[k := st.(queue := st.queue[1..], received := st.received + [st.queue[0]])])
    case Cancel(k) =>
      var st := s.streams[k];
      if !st.registered then s
      else s.(streams := s.streams[k := st.(registered := false, ended := Some(n), closes := st.closes + 1)])
  }

  predicate ValidRun(s: State, run: seq<Action>)
    decreases |run|
  {
    run == [] || (Enabled(s, run[0]) && ValidRun(Next(s, run[0]), run[1..]))
  }

  function After(s: State, run: seq<Action>): State
    requires ValidRun(s, run)
    decreases |run|
  {
    if run == [] then s else After(Next(s, run[0]), run[1..])
  }

  // ---------- invariant ----------

  /** The publications the stream's registration covers end here. */
  function End(st: Stream, events: seq<LogEvent>): nat {
    match st.ended
    case Some(n) => n
    case None => |events|
  }

  /** Strictly increasing positions below a bound. */
  predicate Increasing(positions: seq<nat>, bound: nat) {
    positions == [] ||
    (positions[|positions| - 1] < bound && Increasing(positions[..|positions| - 1], positions[|positions| - 1]))
  }

  lemma IncreasingSnoc(positions: seq<nat>, n: nat)
    requires Increasing(positions, n)
    ensures Increasing(positions, n + 1) && Increasing(positions + [n], n + 1)
  {
    assert (positions + [n])[..|positions|] == positions;
  }

  ghost predicate Lifetime(st: Stream, events: seq<LogEvent>) {
    && st.from <= End(st, events) <= |events|
    && (st.registered <==> st.ended.None?)
    && st.closes == (if st.registered then 0 else 1)
    && |st.queue| <= QUEUE
    && st.received + st.queue == st.enqueued
    && Increasing(st.enqueued, End(st, events))
  }

  /** A replay happens only for a client that asked for one, and before anything is received. */
  predicate ReplayFirst(st: Stream) {
    && st.since >= 0
    && (st.replayedAt.Some? ==> st.since > 0)
    && (st.since > 0 && st.received != [] ==> st.replayedAt.Some?)
  }

  ghost predicate Offered(st: Stream, events: seq<LogEvent>) {
    forall i: nat :: Times(st.enqueued, i) + Times(st.dropped, i) == if st.from <= i < End(st, events) then 1 else 0
  }

  ghost predicate Replayed(st: Stream, events: seq<LogEvent>) {
    match st.replayedAt
    case None => st.replayed == []
    case Some(m) =>
      && st.from <= m <= End(st, events) <= |events|
      && st.replayed == NewerPositions(events[..m], WindowStart(m), st.since)
  }

  /** How many of the positions are below `i`. */
  function Below(positions: seq<nat>, i: nat): nat {
    if positions == [] then 0
    else Below(positions[..|positions| - 1], i) + if positions[|positions| - 1] < i then 1 else 0
  }

  lemma BelowSnoc(positions: seq<nat>, n: nat, i: nat)
    ensures Below(positions + [n], i) == Below(positions, i) + if n < i then 1 else 0
  {
    assert (positions + [n])[..|positions|] == positions;
  }

  lemma {:induction false} AllBelow(positions: seq<nat>, bound: nat, i: nat)
    requires Increasing(positions, bound) && bound <= i
    ensures Below(positions, i) == |positions|
  {
    if positions != [] {
      AllBelow(positions[..|positions| - 1], positions[|positions| - 1], i);
    }
  }

  /** How many accepted events the client had not received when event `i` was offered. */
  function Unread(st: Stream, i: nat): int
    requires st.from <= i < st.from + |st.taken|
  {
    Below(st.enqueued, i) - st.taken[i - st.from]
  }

  /** The queue refused `i` exactly when it was full of unread events. */
  predicate RefusedIffFull(st: Stream, i: nat) {
    && st.from <= i < st.from + |st.taken|
    && st.taken[i - st.from] <= |st.received|
    && 0 <= Unread(st, i) <= 64
    && (Times(st.dropped, i) == 1 <==> Unread(st, i) == 64)
  }

  ghost predicate Refusals(st: Stream, events: seq<LogEvent>) {
    && st.from + |st.taken| == End(st, events)
    && forall i: nat | st.from <= i < End(st, events) :: RefusedIffFull(st, i)
  }

  ghost predicate StreamInv(st: Stream, events: seq<LogEvent>) {
    Lifetime(st, events) && Offered(st, events) && Refusals(st, events) && Replayed(st, events) && ReplayFirst(st)
  }

  ghost predicate Inv(s: State) {
    forall k | 0 <= k < |s.streams| :: StreamInv(s.streams[k], s.events)
  }

  lemma DeliveredLifetime(st: Stream, events: seq<LogEvent>, e: LogEvent)
    requires Lifetime(st, events)
    ensures Lifetime(Delivered(st, |events|), events + [e])
  {
    var t, n := Delivered(st, |events|), |events|;
    if st.registered {
      IncreasingSnoc(st.enqueued, n);
      if |st.queue| < QUEUE {
        AcceptedOrder(st, n);
        assert t.queue == st.queue + [n] && t.enqueued == st.enqueued + [n];
      } else {
        assert t.queue == st.queue && t.enqueued == st.enqueued;
      }
    }
  }

  lemma AcceptedOrder(st: Stream, n: nat)
    requires st.received + st.queue == st.enqueued
    ensures st.received + (st.queue + [n]) == st.enqueued + [n]
  {
    Assoc(st.received, st.queue, [n]);
  }

  lemma DeliveredOffers(st: Stream, events: seq<LogEvent>, e: LogEvent)
    requires Lifetime(st, events) && Offered(st, events)
    ensures Offered(Delivered(st, |events|), events + [e])
  {
    var t := Delivered(st, |events|);
    forall i: nat
      ensures Times(t.enqueued, i) + Times(t.dropped, i) == if t.from <= i < End(t, events + [e]) then 1 else 0
    {
      TimesSnoc(st.enqueued, |events|, i);
      TimesSnoc(st.dropped, |events|, i);
      assert Times(st.enqueued, i) + Times(st.dropped, i) == if st.from <= i < End(st, events) then 1 else 0;
    }
  }

  lemma OlderRefusal(st: Stream, n: nat, i: nat)
    requires RefusedIffFull(st, i) && i < n
    ensures RefusedIffFull(Delivered(st, n), i)
  {
    var t := Delivered(st, n);
    TimesSnoc(st.dropped, n, i);
    BelowSnoc(st.enqueued, n, i);
    assert Times(t.dropped, i) == Times(st.dropped, i) && Below(t.enqueued, i) == Below(st.enqueued, i);
  }

  lemma NewRefusal(st: Stream, events: seq<LogEvent>)
    requires Lifetime(st, events) && Offered(st, events) && Refusals(st, events) && st.registered
    ensures RefusedIffFull(Delivered(st, |events|), |events|)
  {
    var n := |events|;
    TimesSnoc(st.dropped, n, n);
    BelowSnoc(st.enqueued, n, n);
    AllBelow(st.enqueued, n, n);
    assert Times(st.enqueued, n) + Times(st.dropped, n) == 0;
  }

  lemma DeliveredRefusals(st: Stream, events: seq<LogEvent>, e: LogEvent)
    requires Lifetime(st, events) && Offered(st, events) && Refusals(st, events)
    ensures Refusals(Delivered(st, |events|), events + [e])
  {
    var t, n := Delivered(st, |events|), |events|;
    forall i: nat | t.from <= i < End(t, events + [e])
      ensures RefusedIffFull(t, i)
    {
      if i < End(st, events) {
        OlderRefusal(st, n, i);
      } else {
        NewRefusal(st, events);
      }
    }
  }

  lemma DeliveredInv(st: Stream, events: seq<LogEvent>, e: LogEvent)
    requires StreamInv(st, events)
    ensures StreamInv(Delivered(st, |events|), events + [e])
  {
    DeliveredLifetime(st, events, e);
    DeliveredOffers(st, events, e);
    DeliveredRefusals(st, events, e);
    if st.replayedAt.Some? {
      assert (events + [e])[..st.replayedAt.value] == events[..st.replayedAt.value];
    }
  }

  lemma ReplayInv(st: Stream, events: seq<LogEvent>)
    requires StreamInv(st, events) && st.registered && st.since > 0
    ensures var n := |events|;
            StreamInv(st.(replayedAt := Some(n), replayed := NewerPositions(events, WindowStart(n), st.since)), events)
  {
    assert events[..|events|] == events;
    var n := |events|;
    var t := st.(replayedAt := Some(n), replayed := NewerPositions(events, WindowStart(n), st.since));
    SameOffers(st, t, events);
  }

  lemma ReceiveInv(st: Stream, events: seq<LogEvent>)
    requires StreamInv(st, events) && st.queue != [] && (st.since > 0 ==> st.replayedAt.Some?)
    ensures StreamInv(st.(queue := st.queue[1..], received := st.received + [st.queue[0]]), events)
  {
    SameOffers(st, st.(queue := st.queue[1..], received := st.received + [st.queue[0]]), events);
  }

  lemma CancelInv(st: Stream, events: seq<LogEvent>)
    requires StreamInv(st, events) && st.registered
    ensures StreamInv(st.(registered := false, ended := Some(|events|), closes := st.closes + 1), events)
  {
    SameOffers(st, st.(registered := false, ended := Some(|events|), closes := st.closes + 1), events);
  }

  lemma SameOffers(st: Stream, t: Stream, events: seq<LogEvent>)
    requires Offered(st, events) && Refusals(st, events)
    requires t.enqueued == st.enqueued && t.dropped == st.dropped && t.taken == st.taken && t.from == st.from
    requires End(t, events) == End(st, events) && |st.received| <= |t.received|
    ensures Offered(t, events) && Refusals(t, events)
  {
    forall i: nat | t.from <= i < End(t, events)
      ensures RefusedIffFull(t, i)
    {
      assert RefusedIffFull(st, i);
    }
    forall i: nat
      ensures Times(t.enqueued, i) + Times(t.dropped, i) == if t.from <= i < End(t, events) then 1 else 0
    {
      assert Times(st.enqueued, i) + Times(st.dropped, i) == if st.from <= i < End(st, events) then 1 else 0;
    }
  }

  lemma NextInv(s: State, a: Action)
    requires Inv(s) && Enabled(s, a)
    ensures Inv(Next(s, a))
  {
    var t := Next(s, a);
    forall k | 0 <= k < |t.streams|
      ensures StreamInv(t.streams[k], t.events)
    {
      if k < |s.streams| {
        assert StreamInv(s.streams[k], s.events);
        match a {
          case Publish(e) => DeliveredInv(s.streams[k], s.events, e);
          case Subscribe(_) =>
          case Replay(j) =>
            if j == k {
              ReplayInv(s.streams[k], s.events);
            }
          case Receive(j) =>
            if j == k {
              ReceiveInv(s.streams[k], s.events);
            }
          case Cancel(j) =>
            if j == k && s.streams[k].registered {
              CancelInv(s.streams[k], s.events);
            }
        }
      }
    }
  }

  lemma {:induction false} RunInv(s: State, run: seq<Action>)
    requires Inv(s) && ValidRun(s, run)
    ensures Inv(After(s, run))
    decreases |run|
  {
    if run != [] {
      NextInv(s, run[0]);
      RunInv(Next(s, run[0]), run[1..]);
    }
  }

  // ---------- results ----------

  /** Channel safety in every interleaving: a stream the hub would send to has an open
      channel, every channel is closed at most once, no queue exceeds its capacity, and the
      client reads the accepted events in publication order without gaps, after the replay if it
      asked for one, and there is no replay unless it did. */
  lemma ChannelsAreSafe(run: seq<Action>, k: nat)
    requires ValidRun(INIT, run) && k < |After(INIT, run).streams|
    ensures var st := After(INIT, run).streams[k];
            && (st.registered ==> st.closes == 0)
            && st.closes <= 1
            && |st.queue| <= 64
            && (st.replayedAt.Some? ==> st.since > 0)
            && (st.since > 0 && st.received != [] ==> st.replayedAt.Some?)
            && st.received <= st.enqueued
            && st.received + st.queue == st.enqueued
            && Increasing(st.enqueued, |After(INIT, run).events|)
  {
    RunInv(INIT, run);
    var st := After(INIT, run).streams[k];
    assert StreamInv(st, After(INIT, run).events);
  }

  /** How often event `i` reaches the client's connection or its queue. */
  function Copies(st: Stream, i: nat): nat {
    Times(st.replayed, i) + Times(st.enqueued, i)
  }

  /** How often event `i` was accepted and refused. */
  function Offers(st: Stream, i: nat): (nat, nat) {
    (Times(st.enqueued, i), Times(st.dropped, i))
  }

  lemma NextKeepsOffers(s: State, a: Action, k: nat, i: nat)
    requires Enabled(s, a) && k < |s.streams| && i < |s.events|
    ensures k < |Next(s, a).streams| && i < |Next(s, a).events|
    ensures Offers(Next(s, a).streams[k], i) == Offers(s.streams[k], i)
  {
    if a.Publish? {
      TimesSnoc(s.streams[k].enqueued, |s.events|, i);
      TimesSnoc(s.streams[k].dropped, |s.events|, i);
    }
  }

  /** Later steps neither take back nor repeat the offer of an event. */
  lemma {:induction false} OfferIsFinal(s: State, run: seq<Action>, k: nat, i: nat)
    requires ValidRun(s, run) && k < |s.streams| && i < |s.events|
    ensures k < |After(s, run).streams|
    ensures Offers(After(s, run).streams[k], i) == Offers(s.streams[k], i)
    decreases |run|
  {
    if run != [] {
      NextKeepsOffers(s, run[0], k, i);
      OfferIsFinal(Next(s, run[0]), run[1..], k, i);
    }
  }

  /** What the hub does with an event it is publishing. */
  function Outcome(st: Stream): (nat, nat) {
    if !st.registered then (0, 0) else if |st.queue| < 64 then (1, 0) else (0, 1)
  }

  lemma PublishOffersOnce(st: Stream, events: seq<LogEvent>)
    requires Offered(st, events) && End(st, events) <= |events|
    ensures Offers(Delivered(st, |events|), |events|) == Outcome(st)
  {
    var n := |events|;
    assert Times(st.enqueued, n) + Times(st.dropped, n) == 0;
    if st.registered && |st.queue| < QUEUE {
      TimesSnoc(st.enqueued, n, n);
    } else if st.registered {
      TimesSnoc(st.dropped, n, n);
    }
  }

  /** An event is refused for good exactly when the stream's queue is full at its publication,
      whatever happens before and after. */
  lemma RefusedExactlyWhenFull(before: seq<Action>, e: LogEvent, later: seq<Action>, k: nat)
    requires ValidRun(INIT, before) && k < |After(INIT, before).streams|
    requires ValidRun(Next(After(INIT, before), Publish(e)), later)
    ensures var s := After(INIT, before);
            var t := After(Next(s, Publish(e)), later);
            k < |t.streams| && Offers(t.streams[k], |s.events|) == Outcome(s.streams[k])
  {
    RunInv(INIT, before);
    var s := After(INIT, before);
    assert StreamInv(s.streams[k], s.events);
    PublishOffersOnce(s.streams[k], s.events);
    OfferIsFinal(Next(s, Publish(e)), later, k, |s.events|);
  }

  /** The hand-off has no gap, for every interleaving. With the replay done when `m` events
      were published, an event is replayed exactly when it was then buffered and newer than
      `since`; it is accepted or dropped exactly when it was published while the stream was
      registered, and dropped exactly when 64 accepted events were unread at that moment. So a
      buffered newer event, and one published after Subscribe and not dropped, arrives at least
      once and at most twice, and only events published between Subscribe and Since can arrive
      twice. */
  lemma HandOffHasNoGap(run: seq<Action>, k: nat, i: nat)
    requires ValidRun(INIT, run) && k < |After(INIT, run).streams|
    requires After(INIT, run).streams[k].replayedAt.Some?
    ensures var s := After(INIT, run);
            var st := s.streams[k];
            var m := st.replayedAt.value;
            && st.from <= m <= |s.events|
            && Times(st.replayed, i) == (if WindowStart(m) <= i < m && s.events[i].id > st.since then 1 else 0)
            && Times(st.enqueued, i) + Times(st.dropped, i) == (if st.from <= i < End(st, s.events) then 1 else 0)
            && (st.from <= i < End(st, s.events) ==> RefusedIffFull(st, i))
            && (WindowStart(m) <= i < m && s.events[i].id > st.since ==> Copies(st, i) >= 1)
            && (st.from <= i < End(st, s.events) && Times(st.dropped, i) == 0 ==> Copies(st, i) >= 1)
            && Copies(st, i) <= 2
            && (Copies(st, i) == 2 ==> st.from <= i < m)
  {
    RunInv(INIT, run);
    var s := After(INIT, run);
    var st := s.streams[k];
    assert StreamInv(st, s.events);
    var m := st.replayedAt.value;
    assert Times(st.enqueued, i) + Times(st.dropped, i) == if st.from <= i < End(st, s.events) then 1 else 0;
    NewerTimes(s.events[..m], WindowStart(m), st.since, i);
  }

  /** A new stream is registered and empty, covers what is published from now on, and asks for
      what its client says it has seen last, or for nothing when that is not positive. */
  lemma SubscribeStarts(s: State, since: int)
    ensures var t := Next(s, Subscribe(since));
            && |t.streams| == |s.streams| + 1 && t.streams[..|s.streams|] == s.streams && t.events == s.events
            && var st := t.streams[|s.streams|];
            && st.registered && st.queue == [] && st.received == [] && st.from == |s.events|
            && st.since == (if since > 0 then since else 0)
            && (Enabled(t, Replay(|s.streams|)) <==> since > 0)
  {
  }

  /** The replay is the hub's own answer: the positions listed are the events Since returns. */
  lemma ReplayIsSince(run: seq<Action>, k: nat)
    requires ValidRun(INIT, run) && Enabled(After(INIT, run), Replay(k))
    ensures var s := After(INIT, run);
            At(s.events, Next(s, Replay(k)).streams[k].replayed) == Newer(Published([], s.events), s.streams[k].since)
  {
    SinceByPosition(After(INIT, run).events, After(INIT, run).streams[k].since);
  }
}
