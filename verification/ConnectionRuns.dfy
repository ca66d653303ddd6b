/** Overlapping configuration saves (internal/infrastructure/sqlite/db.go, Reconnect and Conn;
    internal/interfaces/httpapi/server.go, handleConfigSave): any number of requests, each
    taken one step at a time in any interleaving. */
module ConnectionRuns {
  import opened Common

  /** pinged says that Ping has succeeded on the handle. */
  datatype Handle = Handle(path: string, pinged: bool, closes: nat)

  /** Where a request is. Inside Reconnect from Locked to Closed; reconnectMu is held exactly
      there. */
  datatype Phase =
    | Start
    | Waiting                      // the path differs: about to lock reconnectMu
    | Locked
    | Opened(handle: nat)           // sql.Open succeeded, not pinged
    | Pinged(handle: nat)
    | Swapped(previous: nat)           // the new handle is current, the old one not yet closed
    | Closed                       // old handle closed, reconnectMu still held
    | Rejected(handle: nat)         // ping failed, new handle not yet closed
    | Unlocked                     // Reconnect returned, setDBPath not yet called
    | Done
    | Failed

  datatype Saver = Saver(path: string, phase: Phase)

  /** swaps and commits record, for the statements, which requests replaced the handle and
      which called setDBPath, in order. */
  datatype State = State(
    savers: seq<Saver>,
    handles: seq<Handle>,
    current: nat,
    owner: Option<nat>,
    cfgPath: string,
    swaps: seq<nat>,
    commits: seq<nat>)

  datatype Move =
    | Compare | Lock | Open | OpenFails | Ping | PingFails | CloseRejected
    | Swap | CloseOld | Unlock | Commit

  datatype Action = Action(client: nat, move: Move)

  predicate InReconnect(p: Phase) {
    p.Locked? || p.Opened? || p.Pinged? || p.Swapped? || p.Closed? || p.Rejected?
  }

  predicate Enabled(s: State, a: Action) {
    a.client < |s.savers| &&
    var p := s.savers[a.client].phase;
    match a.move
    case Compare => p.Start?
    case Lock => p.Waiting? && s.owner == None
    case Open => p.Locked?
    case OpenFails => p.Locked?
    case Ping => p.Opened? && p.handle < |s.handles|
    case PingFails => p.Opened?
    case CloseRejected => p.Rejected? && p.handle < |s.handles|
    case Swap => p.Pinged?
    case CloseOld => p.Swapped? && p.previous < |s.handles|
    case Unlock => p.Closed?
    case Commit => p.Unlocked?
  }

  function At(s: State, c: nat, p: Phase): State
    requires c < |s.savers|
  {
    s.(savers := s.savers[c := s.savers[c].(phase := p)])
  }

  function CloseHandle(s: State, h: nat): State
    requires h < |s.handles|
  {
    s.(handles := s.handles[h := s.handles[h].(closes := s.handles[h].closes + 1)])
  }

  function Next(s: State, a: Action): State
    requires Enabled(s, a)
  {
    var c := a.client;
    var me := s.savers[c];
    match a.move
    case Compare => At(s, c, if me.path == "" || me.path == s.cfgPath then Done else Waiting)
    case Lock => At(s, c, Locked).(owner := Some(c))
    case Open => At(s, c, Opened(|s.handles|)).(handles := s.handles + [Handle(me.path, false, 0)])
    case OpenFails => At(s, c, Failed).(owner := None)
    case Ping =>
      var h := me.phase.handle;
      At(s, c, Pinged(h)).(handles := s.handles[h := s.handles[h].(pinged := true)])
    case PingFails => At(s, c, Rejected(me.phase.handle))
    case CloseRejected => At(CloseHandle(s, me.phase.handle), c, Failed).(owner := None)
    case Swap => At(s, c, Swapped(s.current)).(current := me.phase.handle, swaps := s.swaps + [c])
    case CloseOld => At(CloseHandle(s, me.phase.previous), c, Closed)
    case Unlock => At(s, c, Unlocked).(owner := None)
    case Commit => At(s, c, Done).(cfgPath := me.path, commits := s.commits + [c])
  }

  function Init(requested: seq<string>, path: string): State {
    State(seq(|requested|, i requires 0 <= i < |requested| => Saver(requested[i], Start)),
          [Handle(path, true, 0)], 0, None, path, [], [])
  }

  ghost predicate ValidRun(s: State, run: seq<Action>)
    decreases |run|
  {
    run == [] || (Enabled(s, run[0]) && ValidRun(Next(s, run[0]), run[1..]))
  }

  ghost function After(s: State, run: seq<Action>): State
    requires ValidRun(s, run)
    decreases |run|
  {
    if run == [] then s else After(Next(s, run[0]), run[1..])
  }

  // ---------- handles ----------

  predicate IsOwner(s: State, c: nat) { s.owner == Some(c) }

  ghost predicate LockHeld(s: State) {
    && (s.owner.Some? ==> s.owner.value < |s.savers|)
    && forall c | 0 <= c < |s.savers| :: InReconnect(s.savers[c].phase) <==> IsOwner(s, c)
  }

  /** The one handle, besides the current one, that the owner of the lock still has open. */
  function Pending(p: Phase): Option<nat> {
    match p
    case Opened(h) => Some(h)
    case Pinged(h) => Some(h)
    case Rejected(h) => Some(h)
    case Swapped(h) => Some(h)
    case _ => None
  }

  function InHand(s: State): Option<nat> {
    if s.owner.Some? && s.owner.value < |s.savers| then Pending(s.savers[s.owner.value].phase) else None
  }

  ghost predicate HandlesConserved(s: State) {
    && s.current < |s.handles|
    && InHand(s) != Some(s.current)
    && (InHand(s).Some? ==> InHand(s).value < |s.handles|)
    && forall h | 0 <= h < |s.handles| ::
         s.handles[h].closes == if h == s.current || InHand(s) == Some(h) then 0 else 1
  }

  predicate HasPinged(s: State, c: nat)
    requires c < |s.savers|
  {
    var p := s.savers[c].phase;
    p.Pinged? ==> p.handle < |s.handles| && s.handles[p.handle].pinged
  }

  ghost predicate PingedBeforeUse(s: State) {
    && s.current < |s.handles| && s.handles[s.current].pinged
    && forall c | 0 <= c < |s.savers| :: HasPinged(s, c)
  }

  lemma NextKeepsLock(s: State, a: Action)
    requires LockHeld(s) && Enabled(s, a)
    ensures LockHeld(Next(s, a))
  {
    var t := Next(s, a);
    assert IsOwner(s, a.client) <==> InReconnect(s.savers[a.client].phase);
    forall c | 0 <= c < |t.savers|
      ensures InReconnect(t.savers[c].phase) <==> IsOwner(t, c)
    {
      assert InReconnect(s.savers[c].phase) <==> IsOwner(s, c);
    }
  }

  lemma NextKeepsHandles(s: State, a: Action)
    requires LockHeld(s) && HandlesConserved(s) && Enabled(s, a)
    ensures HandlesConserved(Next(s, a))
  {
    assert IsOwner(s, a.client) <==> InReconnect(s.savers[a.client].phase);
  }

  lemma NextKeepsPinged(s: State, a: Action)
    requires PingedBeforeUse(s) && Enabled(s, a)
    ensures PingedBeforeUse(Next(s, a))
  {
    var t := Next(s, a);
    assert HasPinged(s, a.client);
    forall c | 0 <= c < |t.savers|
      ensures HasPinged(t, c)
    {
      assert HasPinged(s, c);
    }
  }

  // ---------- paths ----------

  ghost predicate WillSwap(p: Phase) {
    p.Start? || p.Waiting? || p.Locked? || p.Opened? || p.Pinged?
  }

  ghost predicate WillCommit(p: Phase) {
    p.Swapped? || p.Closed? || p.Unlocked?
  }

  function PathOfLast(s: State, who: seq<nat>, initial: string): string {
    if who == [] || who[|who| - 1] >= |s.savers| then initial else s.savers[who[|who| - 1]].path
  }

  ghost predicate Recorded(s: State, c: nat)
    requires c < |s.savers|
  {
    var p := s.savers[c].phase;
    && (WillSwap(p) ==> c !in s.swaps)
    && (c in s.commits ==> c in s.swaps)
    && (WillCommit(p) ==> c in s.swaps && c !in s.commits)
    && (c in s.swaps && !WillCommit(p) ==> c in s.commits)
    && ((p.Opened? || p.Pinged?) ==> p.handle < |s.handles| && s.handles[p.handle].path == s.savers[c].path)
  }

  /** Who replaced the handle and who wrote the path, and that both show the last one. */
  ghost predicate PathsFollow(s: State, initial: string) {
    && (forall c | 0 <= c < |s.savers| :: Recorded(s, c))
    && (forall c | c in s.swaps :: c < |s.savers|)
    && (forall c | c in s.commits :: c < |s.savers|)
    && s.current < |s.handles|
    && s.handles[s.current].path == PathOfLast(s, s.swaps, initial)
    && s.cfgPath == PathOfLast(s, s.commits, initial)
  }

  lemma NextKeepsOthersRecord(s: State, a: Action, c: nat)
    requires Enabled(s, a) && c < |s.savers| && c != a.client && Recorded(s, c)
    ensures Recorded(Next(s, a), c)
  {
    var t := Next(s, a);
    assert t.savers[c] == s.savers[c];
    assert c in t.swaps <==> c in s.swaps;
    assert c in t.commits <==> c in s.commits;
  }

  lemma NextKeepsOwnRecord(s: State, a: Action)
    requires Enabled(s, a) && Recorded(s, a.client)
    ensures Recorded(Next(s, a), a.client)
  {
  }

  lemma NextKeepsLast(s: State, a: Action, initial: string)
    requires PathsFollow(s, initial) && Enabled(s, a)
    ensures var t := Next(s, a);
            && t.current < |t.handles|
            && t.handles[t.current].path == PathOfLast(t, t.swaps, initial)
            && t.cfgPath == PathOfLast(t, t.commits, initial)
  {
    var t := Next(s, a);
    assert Recorded(s, a.client);
    assert forall c | 0 <= c < |s.savers| :: t.savers[c].path == s.savers[c].path;
  }

  lemma NextKeepsPaths(s: State, a: Action, initial: string)
    requires PathsFollow(s, initial) && Enabled(s, a)
    ensures PathsFollow(Next(s, a), initial)
  {
    var t := Next(s, a);
    NextKeepsLast(s, a, initial);
    NextKeepsOwnRecord(s, a);
    forall c | 0 <= c < |t.savers|
      ensures Recorded(t, c)
    {
      if c != a.client {
        NextKeepsOthersRecord(s, a, c);
      }
    }
  }

  // ---------- invariants over whole runs ----------

  ghost predicate Inv(s: State, initial: string) {
    LockHeld(s) && HandlesConserved(s) && PingedBeforeUse(s) && PathsFollow(s, initial)
  }

  lemma {:induction false} RunKeepsInv(s: State, run: seq<Action>, initial: string)
    requires Inv(s, initial) && ValidRun(s, run)
    ensures Inv(After(s, run), initial)
    decreases |run|
  {
    if run != [] {
      NextKeepsLock(s, run[0]);
      NextKeepsHandles(s, run[0]);
      NextKeepsPinged(s, run[0]);
      NextKeepsPaths(s, run[0], initial);
      RunKeepsInv(Next(s, run[0]), run[1..], initial);
    }
  }

  lemma InitInv(requested: seq<string>, path: string)
    ensures Inv(Init(requested, path), path)
  {
    var s := Init(requested, path);
    assert forall c | 0 <= c < |s.savers| :: s.savers[c].phase == Start;
  }

  /** In every interleaving: the handle Conn returns is a validated one that has not been
      closed; no handle is closed twice; and when no Reconnect is running every handle but
      the current one has been closed exactly once. */
  lemma HandlesAreConserved(requested: seq<string>, path: string, run: seq<Action>, h: nat)
    requires ValidRun(Init(requested, path), run)
    ensures var s := After(Init(requested, path), run);
            && s.current < |s.handles| && s.handles[s.current].pinged && s.handles[s.current].closes == 0
            && (h < |s.handles| ==> s.handles[h].closes <= 1)
            && ((forall c | 0 <= c < |s.savers| :: !InReconnect(s.savers[c].phase)) && h < |s.handles| ==>
                  (s.handles[h].closes == 0 <==> h == s.current))
  {
    InitInv(requested, path);
    RunKeepsInv(Init(requested, path), run, path);
    var s := After(Init(requested, path), run);
    if s.owner.Some? {
      assert IsOwner(s, s.owner.value);
    }
  }

  /** No request is between replacing the handle and writing the path. */
  ghost predicate Quiescent(s: State) {
    forall c | 0 <= c < |s.savers| :: !WillCommit(s.savers[c].phase)
  }

  /** At a quiescent point the same requests have replaced the handle as have written the
      path; the handle shows the last of the first, the configuration the last of the
      second. So the configuration names the connected database exactly when the last request
      to replace the handle and the last to write the path asked for the same database. */
  lemma QuiescentPaths(requested: seq<string>, path: string, run: seq<Action>)
    requires ValidRun(Init(requested, path), run)
    requires Quiescent(After(Init(requested, path), run))
    ensures var s := After(Init(requested, path), run);
            && (forall c :: c in s.swaps <==> c in s.commits)
            && s.current < |s.handles|
            && s.handles[s.current].path == PathOfLast(s, s.swaps, path)
            && s.cfgPath == PathOfLast(s, s.commits, path)
            && (s.cfgPath == s.handles[s.current].path <==>
                PathOfLast(s, s.swaps, path) == PathOfLast(s, s.commits, path))
  {
    InitInv(requested, path);
    RunKeepsInv(Init(requested, path), run, path);
    var s := After(Init(requested, path), run);
    forall c
      ensures c in s.swaps <==> c in s.commits
    {
      if c in s.swaps || c in s.commits {
        assert Recorded(s, c);
      }
    }
  }

  // ---------- saves that do not overlap ----------

  /** Only client c, if any, has started and not finished. */
  ghost predicate OnlyActive(s: State, c: nat) {
    forall d | 0 <= d < |s.savers| && d != c ::
      s.savers[d].phase.Start? || s.savers[d].phase.Done? || s.savers[d].phase.Failed?
  }

  ghost predicate NoOverlap(s: State, run: seq<Action>)
    requires ValidRun(s, run)
    decreases |run|
  {
    && (exists c :: OnlyActive(s, c))
    && (run == [] || NoOverlap(Next(s, run[0]), run[1..]))
  }

  ghost predicate InStep(s: State) {
    && s.current < |s.handles|
    && (forall c | 0 <= c < |s.savers| && WillCommit(s.savers[c].phase) ::
          s.savers[c].path == s.handles[s.current].path)
    && (Quiescent(s) ==> s.cfgPath == s.handles[s.current].path)
  }

  lemma {:induction false} SerialRun(s: State, run: seq<Action>, initial: string)
    requires Inv(s, initial) && InStep(s) && ValidRun(s, run) && NoOverlap(s, run)
    ensures InStep(After(s, run))
    decreases |run|
  {
    if run != [] {
      var a := run[0];
      var t := Next(s, a);
      NextKeepsLock(s, a);
      NextKeepsHandles(s, a);
      NextKeepsPinged(s, a);
      NextKeepsPaths(s, a, initial);
      SerialStep(s, a, initial);
      SerialRun(t, run[1..], initial);
    }
  }

  lemma SerialStep(s: State, a: Action, initial: string)
    requires Inv(s, initial) && InStep(s) && Enabled(s, a)
    requires exists c :: OnlyActive(s, c)
    requires exists c :: OnlyActive(Next(s, a), c)
    ensures InStep(Next(s, a))
  {
    var t := Next(s, a);
    assert Recorded(s, a.client);
    var d :| OnlyActive(s, d);
    var e :| OnlyActive(t, e);
    if WillCommit(t.savers[a.client].phase) {
      assert !Quiescent(t) && a.client == e;
    } else if !WillCommit(s.savers[a.client].phase) && Quiescent(t) {
      assert Quiescent(s) by {
        forall c | 0 <= c < |s.savers|
          ensures !WillCommit(s.savers[c].phase)
        {
          assert c != a.client ==> t.savers[c] == s.savers[c];
        }
      }
    }
  }

  /** When configuration saves do not overlap, the configured path names the current
      handle's database at every quiescent point. */
  lemma PathNamesHandle(requested: seq<string>, path: string, run: seq<Action>)
    requires ValidRun(Init(requested, path), run) && NoOverlap(Init(requested, path), run)
    requires Quiescent(After(Init(requested, path), run))
    ensures var s := After(Init(requested, path), run);
            s.current < |s.handles| && s.cfgPath == s.handles[s.current].path
  {
    InitInv(requested, path);
    SerialRun(Init(requested, path), run, path);
  }

  // ---------- saves that change nothing ----------

  ghost predicate Untouched(s: State, path: string) {
    && s.current == 0 && s.handles == [Handle(path, true, 0)] && s.cfgPath == path && s.owner == None
    && s.swaps == [] && s.commits == []
    && forall c | 0 <= c < |s.savers| :: NothingAsked(s.savers[c], path)
  }

  predicate NothingAsked(saver: Saver, path: string) {
    (saver.phase.Start? || saver.phase.Done?) && (saver.path == "" || saver.path == path)
  }

  lemma {:induction false} UntouchedRun(s: State, run: seq<Action>, path: string)
    requires Untouched(s, path) && ValidRun(s, run)
    ensures Untouched(After(s, run), path)
    decreases |run|
  {
    if run != [] {
      var t := Next(s, run[0]);
      assert NothingAsked(s.savers[run[0].client], path);
      forall c | 0 <= c < |t.savers|
        ensures NothingAsked(t.savers[c], path)
      {
        assert NothingAsked(s.savers[c], path);
      }
      UntouchedRun(t, run[1..], path);
    }
  }

  /** Saves without a path, or with the path already configured, never open, replace or close a
      handle, in any interleaving. */
  lemma SamePathChangesNothing(requested: seq<string>, path: string, run: seq<Action>)
    requires forall i | 0 <= i < |requested| :: requested[i] == "" || requested[i] == path
    requires ValidRun(Init(requested, path), run)
    ensures var s := After(Init(requested, path), run);
            s.handles == [Handle(path, true, 0)] && s.current == 0 && s.cfgPath == path
  {
    var s := Init(requested, path);
    forall c | 0 <= c < |s.savers|
      ensures NothingAsked(s.savers[c], path)
    {
    }
    UntouchedRun(s, run, path);
  }

  // ---------- saves that overlap ----------

  lemma {:induction false} Extend(s: State, run: seq<Action>, a: Action)
    requires ValidRun(s, run) && Enabled(After(s, run), a)
    ensures ValidRun(s, run + [a]) && After(s, run + [a]) == Next(After(s, run), a)
    decreases |run|
  {
    if run == [] {
      assert ([] + [a])[1..] == [];
    } else {
      assert (run + [a])[1..] == run[1..] + [a];
      Extend(Next(s, run[0]), run[1..], a);
    }
  }

  /** A successful Reconnect of one client with nobody in between. */
  lemma ReconnectAlone(s: State, run: seq<Action>, c: nat) returns (longer: seq<Action>)
    requires ValidRun(s, run)
    requires var t := After(s, run);
             c < |t.savers| && t.savers[c].phase == Waiting && t.owner == None && t.current < |t.handles|
    ensures ValidRun(s, longer)
    ensures var t, u := After(s, run), After(s, longer);
            && u.savers == t.savers[c := t.savers[c].(phase := Unlocked)]
            && u.owner == None && u.cfgPath == t.cfgPath
            && u.current < |u.handles| && u.handles[u.current].path == t.savers[c].path
  {
    longer := run;
    Extend(s, longer, Action(c, Lock)); longer := longer + [Action(c, Lock)];
    Extend(s, longer, Action(c, Open)); longer := longer + [Action(c, Open)];
    Extend(s, longer, Action(c, Ping)); longer := longer + [Action(c, Ping)];
    Extend(s, longer, Action(c, Swap)); longer := longer + [Action(c, Swap)];
    Extend(s, longer, Action(c, CloseOld)); longer := longer + [Action(c, CloseOld)];
    Extend(s, longer, Action(c, Unlock)); longer := longer + [Action(c, Unlock)];
  }

  /** Overlapping saves of two databases can end with everything at rest and the
      configuration naming the database that is not connected: the second save replaces the
      handle after the first, and writes the path before it. */
  lemma OverlapCanNameTheWrongDatabase(path: string, first: string, second: string) returns (run: seq<Action>)
    requires first != "" && second != "" && first != path && second != path && first != second
    ensures ValidRun(Init([first, second], path), run)
    ensures var s := After(Init([first, second], path), run);
            && (forall c | 0 <= c < |s.savers| :: s.savers[c].phase == Done)
            && s.current < |s.handles| && s.handles[s.current].path == second && s.cfgPath == first
  {
    var s := Init([first, second], path);
    run := [];
    Extend(s, run, Action(0, Compare)); run := run + [Action(0, Compare)];
    Extend(s, run, Action(1, Compare)); run := run + [Action(1, Compare)];
    run := ReconnectAlone(s, run, 0);
    run := ReconnectAlone(s, run, 1);
    Extend(s, run, Action(1, Commit)); run := run + [Action(1, Commit)];
    Extend(s, run, Action(0, Commit)); run := run + [Action(0, Commit)];
  }
}
