/** The current database connection and its replacement (internal/infrastructure/sqlite/db.go),
    one call at a time. */
module Connection {
  import opened Common

  class Handle {
    const path: string
    var pinged: bool
    var closes: nat

    constructor (path: string)
      ensures this.path == path && !pinged && closes == 0
    {
      this.path := path;
      pinged := false;
      closes := 0;
    }

    method Ping(fails: bool) returns (ok: bool)
      modifies this
      ensures ok == !fails && pinged == (old(pinged) || ok) && closes == old(closes)
    {
      ok := !fails;
      pinged := pinged || ok;
    }

    method Close()
      modifies this
      ensures closes == old(closes) + 1 && pinged == old(pinged)
    {
      closes := closes + 1;
    }
  }

  datatype ReconnectError = OpenFailed | PingFailed | OldCloseFailed

  /** What the driver answers: whether sql.Open, Ping and the close of the old handle fail. */
  datatype Driver = Driver(openFails: bool, pingFails: bool, closeFails: bool)

  class DB {
    var sql: Option<Handle>
    ghost var everOpened: set<Handle>

    /** Every handle ever opened has been closed once, except the current one, which answered
        its ping and is open. */
    ghost predicate Valid()
      reads this, everOpened
    {
      && (sql.Some? ==> sql.value in everOpened && sql.value.pinged)
      && forall h | h in everOpened :: h.closes == if sql == Some(h) then 0 else 1
    }

    constructor ()
      ensures Valid() && everOpened == {} && sql == None
    {
      sql := None;
      everOpened := {};
    }

    method Conn() returns (h: Option<Handle>)
      requires Valid()
      ensures h == sql && (h.Some? ==> h.value.pinged && h.value.closes == 0)
    {
      h := sql;
    }

    method Reconnect(path: string, driver: Driver) returns (r: Result<(), ReconnectError>)
      requires Valid()
      modifies this, everOpened
      ensures Valid() && old(everOpened) <= everOpened && fresh(everOpened - old(everOpened))
      ensures r == (if driver.openFails then Err(OpenFailed)
                    else if driver.pingFails then Err(PingFailed)
                    else if driver.closeFails && old(sql).Some? then Err(OldCloseFailed)
                    else Ok(()))
      ensures driver.openFails || driver.pingFails ==> sql == old(sql)
      ensures !driver.openFails && !driver.pingFails ==> sql.Some? && fresh(sql.value) && sql.value.path == path
      ensures |everOpened - old(everOpened)| == if driver.openFails then 0 else 1
    {
      if driver.openFails {
        return Err(OpenFailed);
      }
      var newDB := new Handle(path);
      ghost var before := everOpened;
      everOpened := everOpened + {newDB};
      assert everOpened - before == {newDB};
      var answered := newDB.Ping(driver.pingFails);
      if !answered {
        newDB.Close();
        return Err(PingFailed);
      }
      var oldDB := sql;
      sql := Some(newDB);
      if oldDB.Some? {
        oldDB.value.Close();
        if driver.closeFails {
          return Err(OldCloseFailed);
        }
      }
      return Ok(());
    }
  }
}
