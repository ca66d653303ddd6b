/** The log hub (internal/interfaces/httpapi/logs.go): the window of recent events and the
    bounded queue of each subscriber. */
module LogHub {
  datatype LogEvent = LogEvent(id: int, level: string, operation: string, message: string)

  const WINDOW: nat := 1000
  const QUEUE: nat := 64

  // ---------- the three effects of the hub ----------

  /** The most recent elements of a sequence. */
  function Last<T>(s: seq<T>, n: nat): seq<T> {
    if |s| <= n then s else s[|s| - n..]
  }

  /** A non-blocking send on a subscriber's queue: a full queue drops the element. */
  function Offer<T>(queue: seq<T>, x: T): seq<T> {
    if |queue| < QUEUE then queue + [x] else queue
  }

  /** The buffered events with a larger id, in buffer order. */
  function Newer(buf: seq<LogEvent>, id: int): seq<LogEvent> {
    if buf == [] then []
    else Newer(buf[..|buf| - 1], id) + if buf[|buf| - 1].id > id then [buf[|buf| - 1]] else []
  }

  /** Trimming after every append is the same as keeping the last elements of everything. */
  lemma LastAppend<T>(s: seq<T>, x: T, n: nat)
    requires n > 0
    ensures Last(Last(s, n) + [x], n) == Last(s + [x], n)
  {
  }

  // ---------- the hub ----------

  /** A buffered Go channel of a subscriber. */
  class Channel {
    var queue: seq<LogEvent>
    var closed: bool

    constructor ()
      ensures queue == [] && !closed
    {
      queue, closed := [], false;
    }
  }

  class Hub {
    var nextID: nat
    var subs: map<nat, Channel>
    var buf: seq<LogEvent>

    /** Registered channels are open, within capacity, and all different. */
    ghost predicate Valid()
      reads this, subs.Values
    {
      && (forall k | k in subs :: k < nextID && !subs[k].closed && |subs[k].queue| <= QUEUE)
      && (forall j, k | j in subs && k in subs && j != k :: subs[j] != subs[k])
      && |buf| <= WINDOW
    }

    constructor ()
      ensures Valid() && subs == map[] && buf == []
    {
      nextID, subs, buf := 0, map[], [];
    }

    method Subscribe() returns (id: nat, ch: Channel)
      requires Valid()
      modifies this`nextID, this`subs
      ensures Valid() && fresh(ch) && ch.queue == []
      ensures id !in old(subs) && subs == old(subs)[id := ch]
      ensures id == old(nextID) && nextID == id + 1
    {
      ch := new Channel();
      id := nextID;
      nextID := nextID + 1;
      subs := subs[id := ch];
    }

    /** The closure returned by Subscribe. Only the first call closes the channel. */
    method Cancel(id: nat)
      requires Valid()
      modifies this`subs, if id in subs then {subs[id]} else {}
      ensures Valid() && subs == old(subs) - {id}
      ensures id in old(subs) ==> old(subs)[id].closed && old(subs)[id].queue == old(subs[id].queue)
    {
      if id in subs {
        var existing := subs[id];
        subs := subs - {id};
        existing.closed := true;
      }
    }

    method Publish(e: LogEvent)
      requires Valid()
      modifies this`buf, subs.Values
      ensures Valid() && subs == old(subs)
      ensures buf == Last(old(buf) + [e], WINDOW)
      ensures forall k | k in subs :: subs[k].queue == Offer(old(subs[k].queue), e)
    {
      buf := buf + [e];
      if |buf| > WINDOW {
        buf := buf[|buf| - WINDOW..];
      }
      var todo := subs.Keys;
      while todo != {}
        invariant todo <= subs.Keys && subs == old(subs)
        invariant buf == Last(old(buf) + [e], WINDOW)
        invariant forall k | k in subs :: !subs[k].closed
        invariant forall k | k in subs ::
                    subs[k].queue == if k in todo then old(subs[k].queue) else Offer(old(subs[k].queue), e)
      {
        var k :| k in todo;
        var sub := subs[k];
        if |sub.queue| < QUEUE {
          sub.queue := sub.queue + [e];
        }
        todo := todo - {k};
      }
    }

    method Since(id: int) returns (result: seq<LogEvent>)
      ensures result == Newer(buf, id)
    {
      result := [];
      if |buf| == 0 {
        return;
      }
      for i := 0 to |buf|
        invariant result == Newer(buf[..i], id)
      {
        assert buf[..i + 1][..i] == buf[..i];
        if buf[i].id > id {
          result := result + [buf[i]];
        }
      }
      assert buf[..|buf|] == buf;
    }
  }
}
