/** The backup store (internal/infrastructure/fs/backup_store.go), one call at a time; calls
    that overlap are the subject of BackupRuns. */
module BackupStore {
  import opened Common
  import opened Cleanup

  datatype BackupInfo = BackupInfo(path: string, createdAt: Stamp)
  datatype BackupError = OpenError | CreateError | CopyError | CloseError

  /** What the file system answers: whether opening or creating fails, after how many pages
      the copy breaks off if it does, and whether a deferred Sync or Close fails. */
  datatype Io = Io(openFails: bool, createFails: bool, copyBreaks: Option<nat>, closeFails: bool)

  /** What a copy that breaks off after n pages has written. */
  function Begun(content: Content, n: nat): (r: Content)
    ensures r <= content && |r| == if |content| < n then |content| else n
  {
    if n < |content| then content[..n] else content
  }

  class PathLock {
    var done: bool

    constructor ()
      ensures !done
    {
      done := false;
    }
  }

  class Store {
    var locks: map<string, PathLock>

    /** Each path has a lock object of its own. */
    ghost predicate Valid()
      reads this
    {
      forall p, q | p in locks && q in locks && p != q :: locks[p] != locks[q]
    }

    /** The paths already backed up in this session. */
    ghost function Done(): set<string>
      reads this, locks.Values
    {
      set p | p in locks && locks[p].done
    }

    constructor ()
      ensures Valid() && Done() == {} && locks == map[]
    {
      locks := map[];
    }

    /** The path's lock object, the same on every call. */
    method LockFor(path: string) returns (pl: PathLock)
      requires Valid()
      modifies this
      ensures Valid() && path in locks && pl == locks[path]
      ensures path in old(locks) ==> locks == old(locks)
      ensures path !in old(locks) ==> fresh(pl) && !pl.done && locks == old(locks)[path := pl]
      ensures Done() == old(Done())
    {
      if path in locks {
        return locks[path];
      }
      pl := new PathLock();
      locks := locks[path := pl];
    }

    /** CreateBackup for the database with the given base name in the given folder. One copy per
        session and path: a second call does nothing, a call that fails before the copy is
        complete leaves the path to be copied again, and a failing Sync or Close reports an
        error although the path counts as copied. */
    method CreateBackup(folder: Folder, base: string, now: Stamp, io: Io)
        returns (r: Result<Option<BackupInfo>, BackupError>)
      requires Valid()
      modifies this, folder, locks.Values
      ensures Valid()
      ensures base in old(folder.files) ==> base in folder.files && folder.files[base] == old(folder.files)[base]
      ensures Join(folder.dir, base) in old(Done()) ==>
                r == Ok(None) && folder.files == old(folder.files) && Done() == old(Done())
      ensures Join(folder.dir, base) !in old(Done()) && (io.openFails || base !in old(folder.files)) ==>
                r == Err(OpenError) && folder.files == old(folder.files) && Done() == old(Done())
      ensures Join(folder.dir, base) !in old(Done()) && base in old(folder.files) && !io.openFails ==>
                var target, content := BackupName(base, now), old(folder.files)[base];
                if io.createFails then
                  r == Err(CreateError) && folder.files == old(folder.files) && Done() == old(Done())
                else if io.copyBreaks.Some? then
                  && r == Err(CopyError) && Done() == old(Done())
                  && folder.files == old(folder.files)[target := Begun(content, io.copyBreaks.value)]
                else
                  && folder.files == old(folder.files)[target := content]
                  && Done() == old(Done()) + {Join(folder.dir, base)}
                  && r == if io.closeFails then Err(CloseError)
                          else Ok(Some(BackupInfo(Join(folder.dir, target), now)))
    {
      var dbPath := Join(folder.dir, base);
      var pl := LockFor(dbPath);
      assert pl.done <==> dbPath in Done();
      if pl.done {
        return Ok(None);
      }
      if io.openFails || base !in folder.files {
        return Err(OpenError);
      }
      var src := folder.files[base];
      var backupPath := BackupName(dbPath, now);
      BackupIsSibling(folder.dir, base, now);
      var target := BackupName(base, now);
      assert |target| > |base|;
      if io.createFails {
        return Err(CreateError);
      }
      if io.copyBreaks.Some? {
        folder.files := folder.files[target := Begun(src, io.copyBreaks.value)];
        return Err(CopyError);
      }
      folder.files := folder.files[target := src];
      pl.done := true;
      if io.closeFails {
        return Err(CloseError);
      }
      return Ok(Some(BackupInfo(backupPath, now)));
    }

    /** EnsureBackup of the services: a copy, and after a successful one the cleanup, whose
        result is ignored but whose effect is not. The copy just made is there afterwards unless
        at least the keep count of the folder's other matches sort after it, and when the
        cleanup completes exactly then not. The database itself and what the remaining files
        hold do not change. */
    method EnsureBackup(folder: Folder, base: string, now: Stamp, keepLastN: int, io: Io,
                        unreadable: bool, stuck: set<string>) returns (ok: bool)
      requires Valid()
      modifies this, folder, locks.Values
      ensures Valid()
      ensures base in old(folder.files) ==> base in folder.files && folder.files[base] == old(folder.files)[base]
      ensures Join(folder.dir, base) in old(Done()) ==> ok && folder.files == old(folder.files)
      ensures Join(folder.dir, base) !in old(Done()) ==>
                (ok <==> base in old(folder.files) && io == Io(false, false, None, false))
      ensures Done() == old(Done()) + if Completes(old(folder.files), base, io) then {Join(folder.dir, base)} else {}
      ensures Join(folder.dir, base) !in old(Done()) && ok ==>
                var name, was := BackupName(base, now), old(folder.files);
                var crowd := Greater(base, was.Keys, name);
                && OnlyOldestGone(was.Keys + {name}, folder.files.Keys, base, KeepCount(keepLastN))
                && (forall n | n in folder.files :: folder.files[n] == was[name := was[base]][n])
                && (name !in folder.files ==> |crowd| >= KeepCount(keepLastN))
                && (!unreadable && stuck == {} ==> (name in folder.files <==> |crowd| < KeepCount(keepLastN)))
    {
      var created := CreateBackup(folder, base, now, io);
      if created.Err? {
        return false;
      }
      if created.value.Some? {
        ghost var was := folder.files.Keys;
        assert was == old(folder.files).Keys + {BackupName(base, now)};
        var _ := folder.CleanupBackups(base, keepLastN, unreadable, stuck);
        FreshCopySurvivesIff(old(folder.files).Keys, folder.files.Keys, base, KeepCount(keepLastN), now);
        assert !StartsWith(base, base + ".");
      }
      return true;
    }
  }

  /** The copy runs to its end, whether or not the file can then be closed. */
  predicate Completes(files: map<string, Content>, base: string, io: Io) {
    base in files && !io.openFails && !io.createFails && io.copyBreaks.None?
  }
}
