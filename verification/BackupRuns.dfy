/** Backup before the first write, over whole runs (internal/infrastructure/fs/backup_store.go,
    CreateBackup; internal/application/services.go, EnsureBackup and its three callers). Any
    number of calls of RenameDeck, UpdateNote and an applying RunCleaner, each with the
    database path it captured, interleave with each other and with replacements of the
    connection; a copy proceeds page by page. */
module BackupRuns {
  import opened Common

  /** Where a call is. The path's lock is held from Holding to Closing. */
  datatype Phase =
    | Start
    | Resolving                       // holds the store's own mutex
    | Ready(lock: nat)                // has the path's lock object
    | Holding(lock: nat)
    | Copying(lock: nat, buf: Content)
    | Closing(lock: nat)              // done is set, the deferred Sync and Close are not yet run
    | Passed                          // backup ensured, free to write
    | Finished
    | Failed

  datatype Client = Client(path: string, phase: Phase)
  datatype PathLock = PathLock(path: string, holder: Option<nat>, done: bool)

  /** What the statements are about: copies completed and writes made, in order. captured is
      the path the writing call handed to the backup, target the database it wrote. */
  datatype Event =
    | Completed(path: string, content: Content)
    | Wrote(target: string, captured: string, data: Content)

  datatype State = State(
    clients: seq<Client>,
    mu: Option<nat>,
    locks: map<string, nat>,
    objects: seq<PathLock>,
    dbs: map<string, Content>,
    current: string,
    log: seq<Event>)

  datatype Move =
    | LockMu | Resolve | LockPath | SkipCopy | Open | OpenFails
    | CopyPage | CopyFails | CopyEnds | CloseWell | CloseFails
    | Write(content: Content) | Quit

  datatype Action = Call(client: nat, move: Move) | Reconnect(path: string)

  predicate EnabledCall(s: State, c: nat, move: Move)
    requires c < |s.clients|
  {
    var p := s.clients[c].phase;
    var path := s.clients[c].path;
    match move
    case LockMu => p.Start? && s.mu == None
    case Resolve => p.Resolving?
    case LockPath => p.Ready? && p.lock < |s.objects| && s.objects[p.lock].holder == None
    case SkipCopy => p.Holding? && p.lock < |s.objects| && s.objects[p.lock].done
    case Open => p.Holding? && p.lock < |s.objects| && !s.objects[p.lock].done && path in s.dbs
    case OpenFails => p.Holding? && p.lock < |s.objects| && !s.objects[p.lock].done
    case CopyPage => p.Copying? && path in s.dbs && |p.buf| < |s.dbs[path]|
    case CopyFails => p.Copying? && p.lock < |s.objects|
    case CopyEnds => p.Copying? && p.lock < |s.objects| && path in s.dbs && |p.buf| >= |s.dbs[path]|
    case CloseWell => p.Closing? && p.lock < |s.objects|
    case CloseFails => p.Closing? && p.lock < |s.objects|
    case Write(_) => p.Passed? && s.current in s.dbs
    case Quit => p.Passed?
  }

  predicate Enabled(s: State, a: Action) {
    match a
    case Call(c, move) => c < |s.clients| && EnabledCall(s, c, move)
    case Reconnect(path) => path in s.dbs
  }

  function At(s: State, c: nat, p: Phase): State
    requires c < |s.clients|
  {
    s.(clients := s.clients[c := s.clients[c].(phase := p)])
  }

  /** The deferred unlock of the path's lock, on the way out of CreateBackup. */
  function Leave(s: State, c: nat, l: nat, p: Phase): State
    requires c < |s.clients| && l < |s.objects|
  {
    At(s, c, p).(objects := s.objects[l := s.objects[l].(holder := None)])
  }

  function NextCall(s: State, c: nat, move: Move): State
    requires c < |s.clients| && EnabledCall(s, c, move)
  {
    var p := s.clients[c].phase;
    var path := s.clients[c].path;
    match move
    case LockMu => At(s, c, Resolving).(mu := Some(c))
    case Resolve =>
      if path in s.locks then At(s, c, Ready(s.locks[path])).(mu := None)
      else
        At(s, c, Ready(|s.objects|)).(mu := None, locks := s.locks[path := |s.objects|],
                                      objects := s.objects + [PathLock(path, None, false)])
    case LockPath => At(s, c, Holding(p.lock)).(objects := s.objects[p.lock := s.objects[p.lock].(holder := Some(c))])
    case SkipCopy => Leave(s, c, p.lock, Passed)
    case Open => At(s, c, Copying(p.lock, []))
    case OpenFails => Leave(s, c, p.lock, Failed)
    case CopyPage => At(s, c, Copying(p.lock, p.buf + [s.dbs[path][|p.buf|]]))
    case CopyFails => Leave(s, c, p.lock, Failed)
    case CopyEnds =>
      At(s, c, Closing(p.lock)).(objects := s.objects[p.lock := s.objects[p.lock].(done := true)],
                                 log := s.log + [Completed(path, p.buf)])
    case CloseWell => Leave(s, c, p.lock, Passed)
    case CloseFails => Leave(s, c, p.lock, Failed)
    case Write(content) => s.(dbs := s.dbs[s.current := content], log := s.log + [Wrote(s.current, path, content)])
    case Quit => At(s, c, Finished)
  }

  function Next(s: State, a: Action): State
    requires Enabled(s, a)
  {
    match a
    case Call(c, move) => NextCall(s, c, move)
    case Reconnect(path) => s.(current := path)
  }

  function Init(captured: seq<string>, dbs: map<string, Content>, current: string): State {
    var clients := seq(|captured|, i requires 0 <= i < |captured| => Client(captured[i], Start));
    State(clients, None, map[], [], dbs, current, [])
  }

  ghost predicate ValidRun(s: State, run: seq<Action>)
    decreases |run|
  {
    run == [] || (Enabled(s, run[0]) && ValidRun(Next(s, run[0]), run[1..]))
  }

  ghost function After(s: State, run: seq<Action>): State
    requires ValidRun(s, run)
    decreases |run|
  {
    if run == [] then s else After(Next(s, run[0]), run[1..])
  }

  // ---------- the locks ----------

  predicate InSection(p: Phase) { p.Holding? || p.Copying? || p.Closing? }
  predicate HasLock(p: Phase) { p.Ready? || InSection(p) }

  ghost predicate LocksKeyed(s: State) {
    && (forall p | p in s.locks :: s.locks[p] < |s.objects| && s.objects[s.locks[p]].path == p)
    && (forall i | 0 <= i < |s.objects| :: s.objects[i].path in s.locks && s.locks[s.objects[i].path] == i)
  }

  /** A call's lock object is its path's, and it is the recorded holder inside the section. */
  ghost predicate ClientSound(s: State, c: nat)
    requires c < |s.clients|
  {
    var p := s.clients[c].phase;
    && (p.Resolving? <==> s.mu == Some(c))
    && (HasLock(p) ==> p.lock < |s.objects| && s.objects[p.lock].path == s.clients[c].path)
    && (InSection(p) ==> s.objects[p.lock].holder == Some(c))
    && (p.Copying? ==> !s.objects[p.lock].done)
    && (p.Closing? || p.Passed? ==> s.clients[c].path in s.locks && s.locks[s.clients[c].path] < |s.objects|
                                    && s.objects[s.locks[s.clients[c].path]].done)
  }

  ghost predicate ObjectSound(s: State, i: nat)
    requires i < |s.objects|
  {
    var h := s.objects[i].holder;
    h.Some? ==> h.value < |s.clients| && InSection(s.clients[h.value].phase) && s.clients[h.value].phase.lock == i
  }

  ghost predicate LockInv(s: State) {
    && LocksKeyed(s)
    && (s.mu.Some? ==> s.mu.value < |s.clients|)
    && (forall c | 0 <= c < |s.clients| :: ClientSound(s, c))
    && (forall i | 0 <= i < |s.objects| :: ObjectSound(s, i))
  }

  lemma NextKeepsKeys(s: State, c: nat, move: Move)
    requires LockInv(s) && c < |s.clients| && EnabledCall(s, c, move)
    ensures LocksKeyed(NextCall(s, c, move))
  {
    assert ClientSound(s, c);
  }

  lemma NextKeepsOwnClient(s: State, c: nat, move: Move)
    requires LockInv(s) && c < |s.clients| && EnabledCall(s, c, move)
    ensures ClientSound(NextCall(s, c, move), c)
  {
    assert ClientSound(s, c);
  }

  lemma ResolveKeepsOtherClient(s: State, c: nat, d: nat)
    requires LockInv(s) && c < |s.clients| && EnabledCall(s, c, Resolve) && d < |s.clients| && c != d
    ensures ClientSound(NextCall(s, c, Resolve), d)
  {
    assert ClientSound(s, c) && ClientSound(s, d);
  }

  /** Moves that hand the path's lock back. */
  predicate Leaving(move: Move) {
    move.SkipCopy? || move.OpenFails? || move.CopyFails? || move.CloseWell? || move.CloseFails?
  }

  lemma LeavingKeepsOtherClient(s: State, c: nat, move: Move, d: nat)
    requires LockInv(s) && c < |s.clients| && Leaving(move) && EnabledCall(s, c, move) && d < |s.clients| && c != d
    ensures ClientSound(NextCall(s, c, move), d)
  {
    assert ClientSound(s, c) && ClientSound(s, d);
    assert ObjectSound(s, s.clients[c].phase.lock);
  }

  lemma NextKeepsOtherClient(s: State, c: nat, move: Move, d: nat)
    requires LockInv(s) && c < |s.clients| && EnabledCall(s, c, move) && d < |s.clients| && c != d
    ensures ClientSound(NextCall(s, c, move), d)
  {
    if move.Resolve? {
      ResolveKeepsOtherClient(s, c, d);
    } else if Leaving(move) {
      LeavingKeepsOtherClient(s, c, move, d);
    } else {
      assert ClientSound(s, c) && ClientSound(s, d);
    }
  }

  lemma NextKeepsObject(s: State, c: nat, move: Move, i: nat)
    requires LockInv(s) && c < |s.clients| && EnabledCall(s, c, move) && i < |NextCall(s, c, move).objects|
    ensures ObjectSound(NextCall(s, c, move), i)
  {
    assert ClientSound(s, c);
    if i < |s.objects| {
      assert ObjectSound(s, i);
    }
  }

  lemma NextKeepsLocks(s: State, a: Action)
    requires LockInv(s) && Enabled(s, a)
    ensures LockInv(Next(s, a))
  {
    var t := Next(s, a);
    match a
    case Reconnect(_) =>
      forall d | 0 <= d < |t.clients|
        ensures ClientSound(t, d)
      {
        assert ClientSound(s, d);
      }
      forall i | 0 <= i < |t.objects|
        ensures ObjectSound(t, i)
      {
        assert ObjectSound(s, i);
      }
    case Call(c, move) =>
      NextKeepsKeys(s, c, move);
      forall d | 0 <= d < |t.clients|
        ensures ClientSound(t, d)
      {
        if c == d {
          NextKeepsOwnClient(s, c, move);
        } else {
          NextKeepsOtherClient(s, c, move, d);
        }
      }
      forall i | 0 <= i < |t.objects|
        ensures ObjectSound(t, i)
      {
        NextKeepsObject(s, c, move, i);
      }
  }

  // ---------- copies and writes ----------

  function Copies(log: seq<Event>, p: string): nat
    decreases |log|
  {
    if log == [] then 0
    else
      var n := |log| - 1;
      Copies(log[..n], p) + (if log[n].Completed? && log[n].path == p then 1 else 0)
  }

  lemma CopiesSnoc(log: seq<Event>, e: Event, p: string)
    ensures Copies(log + [e], p) == Copies(log, p) + (if e.Completed? && e.path == p then 1 else 0)
  {
    assert (log + [e])[..|log|] == log;
  }

  /** A lock object says done exactly when the log holds the one copy of its path. */
  ghost predicate DoneIsCopied(s: State, p: string) {
    Copies(s.log, p) == if p in s.locks && s.locks[p] < |s.objects| && s.objects[s.locks[p]].done then 1 else 0
  }

  lemma OwnCopyEnds(s: State, c: nat)
    requires LockInv(s) && c < |s.clients| && EnabledCall(s, c, CopyEnds) && DoneIsCopied(s, s.clients[c].path)
    ensures DoneIsCopied(NextCall(s, c, CopyEnds), s.clients[c].path)
  {
    assert ClientSound(s, c);
    var path, l := s.clients[c].path, s.clients[c].phase.lock;
    assert s.locks[path] == l && !s.objects[l].done;
    CopiesSnoc(s.log, Completed(path, s.clients[c].phase.buf), path);
  }

  lemma OtherCopyEnds(s: State, c: nat, p: string)
    requires LockInv(s) && c < |s.clients| && EnabledCall(s, c, CopyEnds)
    requires DoneIsCopied(s, p) && p != s.clients[c].path
    ensures DoneIsCopied(NextCall(s, c, CopyEnds), p)
  {
    assert ClientSound(s, c);
    var path, l := s.clients[c].path, s.clients[c].phase.lock;
    assert s.locks[path] == l && (p in s.locks ==> s.locks[p] != l);
    CopiesSnoc(s.log, Completed(path, s.clients[c].phase.buf), p);
  }

  lemma CopyEndsIsCopied(s: State, c: nat, p: string)
    requires LockInv(s) && DoneIsCopied(s, p) && c < |s.clients| && EnabledCall(s, c, CopyEnds)
    ensures DoneIsCopied(NextCall(s, c, CopyEnds), p)
  {
    if p == s.clients[c].path {
      OwnCopyEnds(s, c);
    } else {
      OtherCopyEnds(s, c, p);
    }
  }

  lemma NextKeepsDone(s: State, a: Action, p: string)
    requires LockInv(s) && DoneIsCopied(s, p) && Enabled(s, a)
    ensures DoneIsCopied(Next(s, a), p)
  {
    match a
    case Reconnect(_) =>
    case Call(c, move) =>
      match move
      case CopyEnds => CopyEndsIsCopied(s, c, p);
      case Write(_) => WriteIsNoCopy(s, c, move, p);
      case _ =>
  }

  lemma WriteIsNoCopy(s: State, c: nat, move: Move, p: string)
    requires DoneIsCopied(s, p) && c < |s.clients| && move.Write? && EnabledCall(s, c, move)
    ensures DoneIsCopied(NextCall(s, c, move), p)
  {
    CopiesSnoc(s.log, Wrote(s.current, s.clients[c].path, move.content), p);
  }

  /** The condition: a call that captured another path writes p only after p was copied. */
  ghost predicate Guarded(log: seq<Event>, p: string)
    decreases |log|
  {
    log == [] ||
    var n := |log| - 1;
    && Guarded(log[..n], p)
    && (log[n].Wrote? && log[n].target == p && log[n].captured != p ==> Copies(log[..n], p) > 0)
  }

  /** The guarantee: every write to p comes after a copy of p, and every copy of p has the
      given content. */
  ghost predicate Protected(log: seq<Event>, p: string, content: Content)
    decreases |log|
  {
    log == [] ||
    var n := |log| - 1;
    && Protected(log[..n], p, content)
    && (log[n].Wrote? && log[n].target == p ==> Copies(log[..n], p) > 0)
    && (log[n].Completed? && log[n].path == p ==> log[n].content == content)
  }

  lemma GuardedSnoc(log: seq<Event>, e: Event, p: string)
    ensures Guarded(log + [e], p) <==>
            Guarded(log, p) && (e.Wrote? && e.target == p && e.captured != p ==> Copies(log, p) > 0)
  {
    assert (log + [e])[..|log|] == log;
  }

  lemma ProtectedSnoc(log: seq<Event>, e: Event, p: string, content: Content)
    ensures Protected(log + [e], p, content) <==>
            && Protected(log, p, content)
            && (e.Wrote? && e.target == p ==> Copies(log, p) > 0)
            && (e.Completed? && e.path == p ==> e.content == content)
  {
    assert (log + [e])[..|log|] == log;
  }

  lemma {:induction false} CopyExists(log: seq<Event>, p: string, content: Content) returns (i: nat)
    requires Protected(log, p, content) && Copies(log, p) > 0
    ensures i < |log| && log[i] == Completed(p, content)
    decreases |log|
  {
    var n := |log| - 1;
    if log[n].Completed? && log[n].path == p {
      i := n;
    } else {
      i := CopyExists(log[..n], p, content);
      assert log[..n][i] == log[i];
    }
  }

  /** Position by position: before each write to p a copy of p with the given content has
      completed. */
  lemma {:induction false} ProtectedMeaning(log: seq<Event>, p: string, content: Content, j: nat)
    requires Protected(log, p, content) && j < |log| && log[j].Wrote? && log[j].target == p
    ensures exists i :: 0 <= i < j && log[i] == Completed(p, content)
    decreases |log|
  {
    var n := |log| - 1;
    if j == n {
      var i := CopyExists(log[..n], p, content);
      assert log[..n][i] == log[i];
    } else {
      assert log[..n][j] == log[j];
      ProtectedMeaning(log[..n], p, content, j);
      var i :| 0 <= i < j && log[..n][i] == Completed(p, content);
      assert log[i] == Completed(p, content);
    }
  }

  // ---------- content of the copies ----------

  ghost predicate CopyingSound(s: State, c: nat, p: string, content: Content)
    requires c < |s.clients|
  {
    var ph := s.clients[c].phase;
    ph.Copying? && s.clients[c].path == p ==> |ph.buf| <= |content| && ph.buf == content[..|ph.buf|]
  }

  /** As long as p has no copy it is unchanged; copies in progress are prefixes of it. */
  ghost predicate Unspoiled(s: State, p: string, content: Content) {
    && Protected(s.log, p, content)
    && (Copies(s.log, p) == 0 ==> p in s.dbs && s.dbs[p] == content)
    && forall c | 0 <= c < |s.clients| :: CopyingSound(s, c, p, content)
  }

  ghost predicate ContentInv(s: State, p: string, content: Content) {
    Guarded(s.log, p) ==> Unspoiled(s, p, content)
  }

  lemma NextKeepsCopying(s: State, c: nat, move: Move, d: nat, p: string, content: Content)
    requires c < |s.clients| && EnabledCall(s, c, move) && d < |s.clients|
    requires CopyingSound(s, d, p, content)
    requires LockInv(s) && DoneIsCopied(s, p)
    requires Copies(s.log, p) == 0 ==> p in s.dbs && s.dbs[p] == content
    ensures CopyingSound(NextCall(s, c, move), d, p, content)
  {
    assert ClientSound(s, d);
    if c == d && move.CopyPage? && s.clients[d].path == p {
      var buf := s.clients[d].phase.buf;
      assert s.locks[p] == s.clients[d].phase.lock;
      assert content[..|buf| + 1] == content[..|buf|] + [content[|buf|]];
    }
  }

  ghost predicate Kept(t: State, p: string, content: Content) {
    && Protected(t.log, p, content)
    && (Copies(t.log, p) == 0 ==> p in t.dbs && t.dbs[p] == content)
  }

  /** A copy that ends holds the whole initial content. */
  lemma FullCopy(s: State, c: nat, content: Content)
    requires LockInv(s) && c < |s.clients| && EnabledCall(s, c, CopyEnds)
    requires var p := s.clients[c].path; DoneIsCopied(s, p) && Unspoiled(s, p, content)
    ensures s.clients[c].phase.buf == content
  {
    assert ClientSound(s, c) && CopyingSound(s, c, s.clients[c].path, content);
    var p, buf := s.clients[c].path, s.clients[c].phase.buf;
    assert s.locks[p] == s.clients[c].phase.lock;
    assert s.dbs[p] == content;
    assert content[..|content|] == content;
  }

  lemma CopyEndsProtects(s: State, c: nat, p: string, content: Content)
    requires LockInv(s) && DoneIsCopied(s, p) && c < |s.clients| && EnabledCall(s, c, CopyEnds)
    requires Unspoiled(s, p, content)
    ensures Kept(NextCall(s, c, CopyEnds), p, content)
  {
    var e := Completed(s.clients[c].path, s.clients[c].phase.buf);
    CopiesSnoc(s.log, e, p);
    ProtectedSnoc(s.log, e, p, content);
    if e.path == p {
      FullCopy(s, c, content);
    }
    var t := NextCall(s, c, CopyEnds);
    assert t.log == s.log + [e] && t.dbs == s.dbs;
  }

  lemma WriteIsProtected(s: State, c: nat, move: Move, p: string, content: Content)
    requires LockInv(s) && DoneIsCopied(s, p) && c < |s.clients| && move.Write? && EnabledCall(s, c, move)
    requires Unspoiled(s, p, content) && Guarded(NextCall(s, c, move).log, p)
    ensures Kept(NextCall(s, c, move), p, content)
  {
    assert ClientSound(s, c);
    var e := Wrote(s.current, s.clients[c].path, move.content);
    CopiesSnoc(s.log, e, p);
    GuardedSnoc(s.log, e, p);
    ProtectedSnoc(s.log, e, p, content);
  }

  lemma NextKeepsProtected(s: State, c: nat, move: Move, p: string, content: Content)
    requires LockInv(s) && DoneIsCopied(s, p) && c < |s.clients| && EnabledCall(s, c, move)
    requires Unspoiled(s, p, content) && Guarded(NextCall(s, c, move).log, p)
    ensures Kept(NextCall(s, c, move), p, content)
  {
    match move
    case CopyEnds => CopyEndsProtects(s, c, p, content);
    case Write(_) => WriteIsProtected(s, c, move, p, content);
    case _ =>
  }

  lemma GuardedBefore(s: State, c: nat, move: Move, p: string)
    requires c < |s.clients| && EnabledCall(s, c, move) && Guarded(NextCall(s, c, move).log, p)
    ensures Guarded(s.log, p)
  {
    match move
    case CopyEnds => GuardedSnoc(s.log, Completed(s.clients[c].path, s.clients[c].phase.buf), p);
    case Write(_) => GuardedSnoc(s.log, Wrote(s.current, s.clients[c].path, move.content), p);
    case _ =>
  }

  lemma NextKeepsContent(s: State, a: Action, p: string, content: Content)
    requires LockInv(s) && DoneIsCopied(s, p) && ContentInv(s, p, content) && Enabled(s, a)
    ensures ContentInv(Next(s, a), p, content)
  {
    var t := Next(s, a);
    match a
    case Reconnect(_) =>
      forall d | 0 <= d < |t.clients| && Guarded(s.log, p)
        ensures CopyingSound(t, d, p, content)
      {
        assert CopyingSound(s, d, p, content);
      }
    case Call(c, move) =>
      if Guarded(t.log, p) {
        GuardedBefore(s, c, move, p);
        NextKeepsProtected(s, c, move, p, content);
        forall d | 0 <= d < |t.clients|
          ensures CopyingSound(t, d, p, content)
        {
          NextKeepsCopying(s, c, move, d, p, content);
        }
      }
  }

  // ---------- whole runs ----------

  ghost predicate Inv(s: State, p: string, content: Content) {
    LockInv(s) && DoneIsCopied(s, p) && ContentInv(s, p, content)
  }

  lemma {:induction false} RunKeepsInv(s: State, run: seq<Action>, p: string, content: Content)
    requires Inv(s, p, content) && ValidRun(s, run)
    ensures Inv(After(s, run), p, content)
    decreases |run|
  {
    if run != [] {
      NextKeepsLocks(s, run[0]);
      NextKeepsDone(s, run[0], p);
      NextKeepsContent(s, run[0], p, content);
      RunKeepsInv(Next(s, run[0]), run[1..], p, content);
    }
  }

  lemma InitInv(captured: seq<string>, dbs: map<string, Content>, current: string, p: string)
    requires p in dbs
    ensures Inv(Init(captured, dbs, current), p, dbs[p])
  {
    var s := Init(captured, dbs, current);
    assert forall c | 0 <= c < |s.clients| :: s.clients[c].phase == Start;
  }

  lemma {:induction false} RunKeepsLocks(s: State, run: seq<Action>, p: string)
    requires LockInv(s) && DoneIsCopied(s, p) && ValidRun(s, run)
    ensures LockInv(After(s, run)) && DoneIsCopied(After(s, run), p)
    decreases |run|
  {
    if run != [] {
      NextKeepsLocks(s, run[0]);
      NextKeepsDone(s, run[0], p);
      RunKeepsLocks(Next(s, run[0]), run[1..], p);
    }
  }

  lemma InitLocks(captured: seq<string>, dbs: map<string, Content>, current: string, p: string)
    ensures LockInv(Init(captured, dbs, current)) && DoneIsCopied(Init(captured, dbs, current), p)
  {
    var s := Init(captured, dbs, current);
    assert forall c | 0 <= c < |s.clients| :: s.clients[c].phase == Start;
  }

  /** In every interleaving at most one copy of each path completes, and a call gets past the
      backup only when its own path has been copied. */
  lemma OneCopyPerPath(captured: seq<string>, dbs: map<string, Content>, current: string, run: seq<Action>, p: string)
    requires ValidRun(Init(captured, dbs, current), run)
    ensures var s := After(Init(captured, dbs, current), run);
            && Copies(s.log, p) <= 1
            && forall c | 0 <= c < |s.clients| && s.clients[c].phase.Passed? && s.clients[c].path == p ::
                 Copies(s.log, p) == 1
  {
    InitLocks(captured, dbs, current, p);
    RunKeepsLocks(Init(captured, dbs, current), run, p);
    var s := After(Init(captured, dbs, current), run);
    forall c | 0 <= c < |s.clients| && s.clients[c].phase.Passed? && s.clients[c].path == p
      ensures Copies(s.log, p) == 1
    {
      assert ClientSound(s, c);
    }
  }

  lemma {:induction false} ProtectedIsGuarded(log: seq<Event>, p: string, content: Content)
    requires Protected(log, p, content)
    ensures Guarded(log, p)
    decreases |log|
  {
    if log != [] {
      ProtectedIsGuarded(log[..|log| - 1], p, content);
    }
  }

  /** In every interleaving, with replacements of the connection anywhere: each write to a
      database comes after a complete copy with that database's initial content exactly when
      the calls that write it while having captured another path do so after a copy. */
  lemma BackupBeforeWrite(captured: seq<string>, dbs: map<string, Content>, current: string,
                          run: seq<Action>, p: string)
    requires ValidRun(Init(captured, dbs, current), run) && p in dbs
    ensures var log := After(Init(captured, dbs, current), run).log;
            Protected(log, p, dbs[p]) <==> Guarded(log, p)
  {
    var log := After(Init(captured, dbs, current), run).log;
    InitInv(captured, dbs, current, p);
    RunKeepsInv(Init(captured, dbs, current), run, p, dbs[p]);
    if Protected(log, p, dbs[p]) {
      ProtectedIsGuarded(log, p, dbs[p]);
    }
  }

  // ---------- one database ----------

  ghost predicate NoReconnect(run: seq<Action>) {
    forall i | 0 <= i < |run| :: run[i].Call?
  }

  ghost predicate OneDatabase(s: State, db: string) {
    && s.current == db
    && (forall c | 0 <= c < |s.clients| :: s.clients[c].path == db)
    && forall p :: Guarded(s.log, p)
  }

  lemma NextKeepsOneDatabase(s: State, c: nat, move: Move, db: string)
    requires OneDatabase(s, db) && c < |s.clients| && EnabledCall(s, c, move)
    ensures OneDatabase(NextCall(s, c, move), db)
  {
    var t := NextCall(s, c, move);
    forall p
      ensures Guarded(t.log, p)
    {
      match move
      case CopyEnds => GuardedSnoc(s.log, Completed(s.clients[c].path, s.clients[c].phase.buf), p);
      case Write(_) => GuardedSnoc(s.log, Wrote(s.current, s.clients[c].path, move.content), p);
      case _ =>
    }
  }

  lemma {:induction false} OneDatabaseRun(s: State, run: seq<Action>, db: string)
    requires OneDatabase(s, db) && ValidRun(s, run) && NoReconnect(run)
    ensures OneDatabase(After(s, run), db)
    decreases |run|
  {
    if run != [] {
      NextKeepsOneDatabase(s, run[0].client, run[0].move, db);
      OneDatabaseRun(Next(s, run[0]), run[1..], db);
    }
  }

  /** On one database whose connection is not replaced: before every write a complete copy of
      the state before the session's first write has been made. Whether the copy is still in
      the folder by then is for the cleanup that follows it: see EnsureBackup in BackupStore. */
  lemma SessionIsBackedUp(captured: seq<string>, dbs: map<string, Content>, db: string, run: seq<Action>, j: nat)
    requires db in dbs && (forall c | 0 <= c < |captured| :: captured[c] == db)
    requires ValidRun(Init(captured, dbs, db), run) && NoReconnect(run)
    requires var log := After(Init(captured, dbs, db), run).log; j < |log| && log[j].Wrote?
    ensures var log := After(Init(captured, dbs, db), run).log;
            log[j].target == db && exists i :: 0 <= i < j && log[i] == Completed(db, dbs[db])
  {
    OneDatabaseRun(Init(captured, dbs, db), run, db);
    BackupBeforeWrite(captured, dbs, db, run, db);
    var log := After(Init(captured, dbs, db), run).log;
    WritesHit(Init(captured, dbs, db), run, db);
    ProtectedMeaning(log, db, dbs[db], j);
  }

  ghost predicate AllWritesTo(log: seq<Event>, db: string) {
    forall j | 0 <= j < |log| && log[j].Wrote? :: log[j].target == db
  }

  lemma {:induction false} WritesHit(s: State, run: seq<Action>, db: string)
    requires s.current == db && AllWritesTo(s.log, db) && ValidRun(s, run) && NoReconnect(run)
    ensures AllWritesTo(After(s, run).log, db)
    decreases |run|
  {
    if run != [] {
      WritesHit(Next(s, run[0]), run[1..], db);
    }
  }

  // ---------- what the databases hold ----------

  /** The content of a database after some events: what was last written to it. */
  function LastWritten(log: seq<Event>, p: string, initial: Content): Content
    decreases |log|
  {
    if log == [] then initial
    else
      var last := log[|log| - 1];
      if last.Wrote? && last.target == p then last.data else LastWritten(log[..|log| - 1], p, initial)
  }

  lemma LastWrittenSnoc(log: seq<Event>, e: Event, p: string, initial: Content)
    ensures LastWritten(log + [e], p, initial) ==
            if e.Wrote? && e.target == p then e.data else LastWritten(log, p, initial)
  {
    assert (log + [e])[..|log|] == log;
  }

  lemma {:induction false} ContentsFollow(s: State, run: seq<Action>, p: string, initial: Content)
    requires ValidRun(s, run) && p in s.dbs && s.dbs[p] == LastWritten(s.log, p, initial)
    ensures var t := After(s, run); p in t.dbs && t.dbs[p] == LastWritten(t.log, p, initial)
    decreases |run|
  {
    if run != [] {
      match run[0] {
        case Reconnect(_) =>
        case Call(c, move) =>
          match move {
            case CopyEnds =>
              LastWrittenSnoc(s.log, Completed(s.clients[c].path, s.clients[c].phase.buf), p, initial);
            case Write(content) => LastWrittenSnoc(s.log, Wrote(s.current, s.clients[c].path, content), p, initial);
            case _ =>
          }
      }
      ContentsFollow(Next(s, run[0]), run[1..], p, initial);
    }
  }

  /** In every interleaving a database holds what was last written to it; copying and replacing
      the connection change none. */
  lemma DatabasesHoldTheirWrites(captured: seq<string>, dbs: map<string, Content>, current: string, run: seq<Action>,
                                 p: string)
    requires ValidRun(Init(captured, dbs, current), run) && p in dbs
    ensures var s := After(Init(captured, dbs, current), run);
            p in s.dbs && s.dbs[p] == LastWritten(s.log, p, dbs[p])
  {
    ContentsFollow(Init(captured, dbs, current), run, p, dbs[p]);
  }

  // ---------- no deadlock ----------

  predicate Over(p: Phase) { p.Finished? || p.Failed? }

  predicate Failing(move: Move) { move.OpenFails? || move.CopyFails? || move.CloseFails? }

  /** A call whose backup fails, even in the closing of a complete copy, is over: it holds no lock
      and makes no further move, so it writes nothing. */
  lemma FailedBackupEndsTheCall(s: State, c: nat, move: Move, later: Move)
    requires LockInv(s) && c < |s.clients| && EnabledCall(s, c, move) && Failing(move)
    ensures var t := NextCall(s, c, move);
            && t.dbs == s.dbs && t.log == s.log
            && !EnabledCall(t, c, later)
            && t.mu != Some(c) && forall i | 0 <= i < |t.objects| :: t.objects[i].holder != Some(c)
  {
    var t := NextCall(s, c, move);
    assert ClientSound(s, c);
    forall i | 0 <= i < |t.objects|
      ensures t.objects[i].holder != Some(c)
    {
      assert ObjectSound(s, i);
    }
  }

  /** A call can make this move, and it need not be a failure unless its database is gone. */
  ghost predicate CanMove(s: State, d: nat, move: Move) {
    && d < |s.clients| && EnabledCall(s, d, move)
    && (s.clients[d].path in s.dbs ==> !Failing(move))
  }

  lemma MoveInside(s: State, d: nat) returns (move: Move)
    requires d < |s.clients| && ClientSound(s, d) && InSection(s.clients[d].phase)
    ensures CanMove(s, d, move)
  {
    var path := s.clients[d].path;
    match s.clients[d].phase
    case Holding(l) => move := if s.objects[l].done then SkipCopy else if path in s.dbs then Open else OpenFails;
    case Copying(l, buf) =>
      move := if path !in s.dbs then CopyFails else if |buf| < |s.dbs[path]| then CopyPage else CopyEnds;
    case Closing(l) => move := CloseWell;
  }

  /** Only calls for the same path wait for each other: a call waiting for its path's lock is
      held up by one with that path that can itself go on. */
  lemma OnlySamePathWaits(s: State, c: nat) returns (d: nat, move: Move)
    requires LockInv(s) && c < |s.clients| && s.clients[c].phase.Ready?
    ensures CanMove(s, d, move) && s.clients[d].path == s.clients[c].path
    ensures d == c || InSection(s.clients[d].phase)
  {
    assert ClientSound(s, c);
    var l := s.clients[c].phase.lock;
    assert ObjectSound(s, l);
    if s.objects[l].holder == None {
      d, move := c, LockPath;
    } else {
      d := s.objects[l].holder.value;
      assert ClientSound(s, d);
      move := MoveInside(s, d);
    }
  }

  /** No reachable state is stuck: while some call is not over, some call can go on. */
  lemma NoDeadlock(captured: seq<string>, dbs: map<string, Content>, current: string, run: seq<Action>, c: nat)
    returns (d: nat, move: Move)
    requires ValidRun(Init(captured, dbs, current), run)
    requires c < |After(Init(captured, dbs, current), run).clients|
    requires !Over(After(Init(captured, dbs, current), run).clients[c].phase)
    ensures CanMove(After(Init(captured, dbs, current), run), d, move)
  {
    InitLocks(captured, dbs, current, current);
    RunKeepsLocks(Init(captured, dbs, current), run, current);
    var s := After(Init(captured, dbs, current), run);
    assert ClientSound(s, c);
    match s.clients[c].phase
    case Start =>
      if s.mu == None {
        d, move := c, LockMu;
      } else {
        assert ClientSound(s, s.mu.value);
        d, move := s.mu.value, Resolve;
      }
    case Resolving => d, move := c, Resolve;
    case Ready(_) => d, move := OnlySamePathWaits(s, c);
    case Passed => d, move := c, Quit;
    case _ =>
      d := c;
      move := MoveInside(s, c);
  }

  // ---------- a replaced connection ----------

  lemma {:induction false} Extend(s: State, run: seq<Action>, a: Action)
    requires ValidRun(s, run) && Enabled(After(s, run), a)
    ensures ValidRun(s, run + [a]) && After(s, run + [a]) == Next(After(s, run), a)
    decreases |run|
  {
    if run == [] {
      assert ([] + [a])[1..] == [];
    } else {
      assert (run + [a])[1..] == run[1..] + [a];
      Extend(Next(s, run[0]), run[1..], a);
    }
  }

  /** One call that captured a path, one replacement of the connection before its write: the
      other database is written and never copied. */
  lemma ReconnectCanSkipTheBackup(captured: string, other: string, content: Content) returns (run: seq<Action>)
    requires captured != other
    ensures var s := Init([captured], map[captured := [], other := content], captured);
            && ValidRun(s, run)
            && Wrote(other, captured, content + [0]) in After(s, run).log
            && Copies(After(s, run).log, other) == 0
  {
    var s := Init([captured], map[captured := [], other := content], captured);
    run := [];
    Extend(s, run, Call(0, LockMu)); run := run + [Call(0, LockMu)];
    Extend(s, run, Call(0, Resolve)); run := run + [Call(0, Resolve)];
    Extend(s, run, Call(0, LockPath)); run := run + [Call(0, LockPath)];
    Extend(s, run, Call(0, Open)); run := run + [Call(0, Open)];
    Extend(s, run, Call(0, CopyEnds)); run := run + [Call(0, CopyEnds)];
    Extend(s, run, Call(0, CloseWell)); run := run + [Call(0, CloseWell)];
    Extend(s, run, Reconnect(other)); run := run + [Reconnect(other)];
    var write := Call(0, Write(content + [0]));
    Extend(s, run, write); run := run + [write];
    CopiesSnoc([], Completed(captured, []), other);
    CopiesSnoc([Completed(captured, [])], Wrote(other, captured, content + [0]), other);
    assert After(s, run).log == [Completed(captured, [])] + [Wrote(other, captured, content + [0])];
  }
}
