/** The idempotency table: one record per LogID, completed in place, removed by gc after its TTL.
    Each method is one step of the run protocol. */
module IdempotencyTable {
  import opened Basics
  import opened RunProtocol

  class Record {
    const logID: int
    var state: RecordState
    var err: Option<string>
    var start: int
    var end: int
    var durationMs: int
    var expireAt: Option<int>   // the zero time while Running

    constructor (logID: int, start: int)
      ensures this.logID == logID && state == Running && err == None && this.start == start && expireAt == None
    {
      this.logID, this.state, this.err, this.start, this.end := logID, Running, None, start, 0;
      this.durationMs, this.expireAt := 0, None;
    }
  }

  // Go's Milliseconds truncates towards zero; times are in nanoseconds.
  function Milliseconds(d: int): (ms: int)
    ensures d >= 0 ==> 0 <= d - ms * 1_000_000 < 1_000_000
    ensures d <= 0 ==> 0 <= ms * 1_000_000 - d < 1_000_000
  {
    if d >= 0 then d / 1_000_000 else -((-d) / 1_000_000)
  }

  class Table {
    var records: map<int, Record>
    const ttl: int

    ghost predicate GoodRecord(id: int, r: Record)
      reads r
    {
      && r.logID == id
      && (r.state == Running <==> r.expireAt == None)
      && (r.state != Running ==> r.expireAt == Some(r.end + ttl) && r.durationMs == Milliseconds(r.end - r.start))
      && (r.state == Failed <==> r.err.Some?)
    }

    ghost predicate Valid()
      reads this, records.Values
    {
      forall id :: id in records ==> GoodRecord(id, records[id])
    }

    /** The table of the protocol state. */
    ghost predicate Shows(s: Sys)
      reads this, records.Values
    {
      records.Keys == s.records.Keys && forall id :: id in records ==> records[id].state == s.records[id]
    }

    constructor (ttl: int)
      ensures Valid() && records == map[] && this.ttl == ttl
    {
      records := map[];
      this.ttl := ttl;
    }

    method TryAcquire(logID: int, now: int, ghost s: Sys, ghost t: nat) returns (rec: Record, acquired: bool)
      requires Valid() && Shows(s) && Enabled(s, Event.TryAcquire(t)) && s.runs[t].log == logID
      modifies this
      ensures Valid() && Shows(Next(s, Event.TryAcquire(t)))
      ensures acquired <==> logID !in s.records
      ensures acquired <==> Next(s, Event.TryAcquire(t)).runs[t].pc == Acquired
      ensures logID in records && rec == records[logID] && (!acquired ==> rec.state == s.records[logID])
      ensures !acquired ==> records == old(records)
      ensures fresh(records.Values - old(records.Values)) && (acquired ==> fresh(rec) && rec.start == now)
    {
      if logID in records {
        return records[logID], false;
      }
      rec := new Record(logID, now);
      records := records[logID := rec];
      acquired := true;
    }

    /** A missing or completed record is left alone; otherwise it gets its outcome and its expiry time. */
    method Complete(logID: int, err: Option<string>, now: int, ghost s: Sys)
      requires Valid() && Shows(s)
      modifies if logID in records then {records[logID]} else {}
      ensures Valid() && Shows(CompleteRecord(s, logID, err == None))
      ensures IsRunning(s, logID) ==>
        records[logID].end == now && records[logID].err == err && records[logID].start == old(records[logID].start)
      ensures !IsRunning(s, logID) && logID in records ==>
        records[logID].expireAt == old(records[logID].expireAt) && records[logID].err == old(records[logID].err)
    {
      if logID !in records || records[logID].state != Running {
        return;
      }
      var rec := records[logID];
      rec.end := now;
      rec.durationMs := Milliseconds(now - rec.start);
      rec.expireAt := Some(now + ttl);
      if err.Some? {
        rec.state, rec.err := Failed, err;
      } else {
        rec.state := Success;
      }
    }

    method ForceDelete(logID: int, ghost s: Sys)
      requires Valid() && Shows(s)
      modifies this
      ensures Valid() && Shows(Next(s, Event.ForceDelete(logID))) && records == old(records) - {logID}
    {
      records := records - {logID};
    }

    // Completed more than the TTL ago.
    ghost function Expired(now: int): set<int>
      reads this, records.Values
    {
      set id | id in records && records[id].state != Running && now > records[id].end + ttl
    }

    // The loop of gc.
    method Sweep(now: int)
      requires Valid()
      modifies `records
      ensures records == old(records) - old(Expired(now))
    {
      var ids := records.Keys;
      ghost var was, expired := records, Expired(now);
      while |ids| > 0
        invariant Valid() && ids <= records.Keys && records == was - (expired - ids)
        decreases |ids|
      {
        EmptyOrNot(ids);
        var id :| id in ids;
        Expire(id, now);
        SweptOn(was, expired, ids, id);
        ids := ids - {id};
      }
      assert expired - ids == expired;
    }

    static lemma SweptOn(was: map<int, Record>, expired: set<int>, ids: set<int>, id: int)
      requires id in ids
      ensures (was - (expired - ids)) - (if id in expired then {id} else {}) == was - (expired - (ids - {id}))
    {
    }

    // What the loop does for one record.
    method Expire(id: int, now: int)
      requires Valid() && id in records
      modifies `records
      ensures Valid() && records == old(records) - if id in old(Expired(now)) then {id} else {}
    {
      assert GoodRecord(id, records[id]);
      if records[id].expireAt.Some? && now > records[id].expireAt.value {
        records := records - {id};
      }
    }

    /** Removes exactly the records completed more than the TTL ago; never a Running one, so it is a step the
        protocol allows. */
    method Gc(now: int, ghost s: Sys)
      requires Valid() && Shows(s)
      modifies `records
      ensures Enabled(s, Event.Gc(old(Expired(now)))) && Valid() && Shows(Next(s, Event.Gc(old(Expired(now)))))
      ensures records == old(records) - old(Expired(now))
      ensures forall id :: id in records ==> id in old(records) && records[id] == old(records)[id]
      ensures forall id :: id in old(records) ==>
        (id !in records <==> old(records)[id].state != Running && now > old(records)[id].end + ttl)
    {
      Sweep(now);
    }

    ghost function InState(ids: set<int>, state: RecordState): set<int>
      requires ids <= records.Keys
      reads this, records.Values
    {
      set id | id in ids && records[id].state == state
    }

    lemma OneMore(ids: set<int>, id: int, state: RecordState)
      requires ids <= records.Keys && id in records && id !in ids
      ensures |InState(ids + {id}, state)| == |InState(ids, state)| + if records[id].state == state then 1 else 0
    {
      if records[id].state == state {
        assert InState(ids + {id}, state) == InState(ids, state) + {id};
      } else {
        assert InState(ids + {id}, state) == InState(ids, state);
      }
    }

    /** Counts by state; the total is the number of records. */
    method Stats() returns (running: nat, success: nat, failed: nat, total: nat)
      ensures total == running + success + failed == |records|
      ensures running == |InState(records.Keys, Running)| && success == |InState(records.Keys, Success)|
      ensures failed == |InState(records.Keys, Failed)|
    {
      var ids := records.Keys;
      ghost var seen: set<int> := {};
      running, success, failed := 0, 0, 0;
      while |ids| > 0
        invariant ids + seen == records.Keys && ids !! seen
        invariant running + success + failed == |seen|
        invariant running == |InState(seen, Running)| && success == |InState(seen, Success)|
        invariant failed == |InState(seen, Failed)|
        decreases |ids|
      {
        EmptyOrNot(ids);
        var id :| id in ids;
        OneMore(seen, id, Running);
        OneMore(seen, id, Success);
        OneMore(seen, id, Failed);
        ids, seen := ids - {id}, seen + {id};
        match records[id].state {
          case Running => running := running + 1;
          case Success => success := success + 1;
          case Failed => failed := failed + 1;
        }
      }
      assert seen == records.Keys;
      total := running + success + failed;
    }
  }

}
