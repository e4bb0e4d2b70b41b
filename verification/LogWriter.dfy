/** The flusher's side of the log buffer in place: the batch slice, writeBatch's loops over the callers' records,
    the map from temporary to real IDs, and the drain on stop. */
module LogWriter {
  import opened Basics
  import opened LogBuffer

  class JobLog {
    const payload: string
    var id: int

    constructor (payload: string)
      ensures this.payload == payload && id == 0
    {
      this.payload := payload;
      id := 0;
    }
  }

  // sent holds what has gone through the done channel: whether an error was sent.
  class PendingEntry {
    const log: JobLog
    var sent: seq<bool>
    var closed: bool

    constructor (log: JobLog)
      ensures this.log == log && sent == [] && !closed
    {
      this.log := log;
      sent := [];
      closed := false;
    }
  }

  ghost predicate Separate(batch: seq<PendingEntry>) {
    forall i, k :: 0 <= i < k < |batch| ==> batch[i] != batch[k] && batch[i].log != batch[k].log
  }

  ghost function Logs(batch: seq<PendingEntry>): set<JobLog> {
    set e | e in batch :: e.log
  }

  ghost function IdsOf(batch: seq<PendingEntry>): (ids: seq<int>)
    reads Logs(batch)
    ensures |ids| == |batch| && forall i :: 0 <= i < |batch| ==> ids[i] == batch[i].log.id
  {
    seq(|batch|, i requires 0 <= i < |batch| reads Logs(batch) => batch[i].log.id)
  }

  /** The rows that direct inserts of these records, in this order, would have left: one for every entry that was
      told of success, under the ID it was given. */
  ghost function Landed(line: seq<PendingEntry>): seq<Row>
    reads line, Logs(line)
  {
    if line == [] then []
    else
      var e := line[|line| - 1];
      Landed(line[..|line| - 1]) + if e.sent == [false] then [Row(e.log.id, e.log.payload)] else []
  }

  function RowsFor(ids: seq<int>, payloads: seq<string>): (rows: seq<Row>)
    requires |ids| == |payloads|
    ensures |rows| == |ids| && forall i :: 0 <= i < |ids| ==> rows[i] == Row(ids[i], payloads[i])
  {
    seq(|ids|, i requires 0 <= i < |ids| => Row(ids[i], payloads[i]))
  }

  function PayloadsOf(batch: seq<PendingEntry>): (payloads: seq<string>)
    ensures |payloads| == |batch| && forall i :: 0 <= i < |batch| ==> payloads[i] == batch[i].log.payload
  {
    seq(|batch|, i requires 0 <= i < |batch| => batch[i].log.payload)
  }

  // Whether the k-th call of CreateBatch succeeds.
  predicate Accepts(answers: seq<bool>, k: nat) {
    k >= |answers| || answers[k]
  }

  /** The table behind the inner DAO, with an atomic CreateBatch; `answers` decides which calls fail. */
  class Dao {
    const answers: seq<bool>
    var calls: nat
    var rows: seq<Row>
    var nextID: int

    ghost predicate Valid()
      reads this
    {
      && nextID > 0
      && (forall i :: 0 <= i < |rows| ==> 0 < rows[i].id < nextID)
      && (forall i, k :: 0 <= i < k < |rows| ==> rows[i].id != rows[k].id)
    }

    constructor (answers: seq<bool>)
      ensures Valid() && rows == [] && calls == 0 && this.answers == answers
    {
      rows, nextID, calls, this.answers := [], 1, 0, answers;
    }

    method CreateBatch(payloads: seq<string>) returns (result: Option<seq<int>>)
      requires Valid()
      modifies this
      ensures Valid() && calls == old(calls) + 1
      ensures result.Some? <==> Accepts(answers, old(calls))
      ensures result.None? ==> rows == old(rows)
      ensures result.Some? ==> |result.value| == |payloads| && FreshIds(old(rows), result.value)
      ensures result.Some? ==> rows == old(rows) + RowsFor(result.value, payloads)
    {
      calls := calls + 1;
      if !Accepts(answers, calls - 1) {
        return None;
      }
      var first := nextID;
      var ids := seq(|payloads|, i => first + i);
      rows := rows + RowsFor(ids, payloads);
      nextID := nextID + |payloads|;
      result := Some(ids);
    }
  }

  class Buffer {
    const batchSize: int
    const dao: Dao
    var batch: seq<PendingEntry>
    var idMap: map<int, int>

    constructor (batchSize: int, dao: Dao)
      ensures this.batchSize == batchSize && this.dao == dao && batch == [] && idMap == map[]
    {
      this.batchSize, this.dao := batchSize, dao;
      batch, idMap := [], map[];
    }

    // The snapshot of temporary IDs; the records' own IDs become 0.
    method TakeTmpIDs(batch: seq<PendingEntry>) returns (tmps: seq<int>)
      requires Separate(batch)
      modifies Logs(batch)
      ensures |tmps| == |batch|
      ensures forall i :: 0 <= i < |batch| ==> tmps[i] == old(batch[i].log.id) && batch[i].log.id == 0
    {
      tmps := [];
      for i := 0 to |batch|
        invariant |tmps| == i
        invariant forall k :: 0 <= k < i ==> tmps[k] == old(batch[k].log.id) && batch[k].log.id == 0
        invariant forall k :: i <= k < |batch| ==> batch[k].log.id == old(batch[k].log.id)
      {
        tmps := tmps + [batch[i].log.id];
        batch[i].log.id := 0;
      }
    }

    // The last loop: back-fill, map, signal.
    method Publish(batch: seq<PendingEntry>, tmps: seq<int>, result: Option<seq<int>>)
      requires Separate(batch) && |tmps| == |batch| && (result.Some? ==> |result.value| == |batch|)
      requires forall i :: 0 <= i < |batch| ==> batch[i].log.id == 0
      modifies `idMap, Logs(batch), batch
      ensures forall i :: 0 <= i < |batch| ==> batch[i].log.id == if result.Some? then result.value[i] else 0
      ensures forall i :: 0 <= i < |batch| ==> batch[i].sent == old(batch[i].sent) + [result.None?] && batch[i].closed
      ensures idMap == if result.Some? then Resolved(old(idMap), tmps, result.value) else old(idMap)
    {
      for i := 0 to |batch|
        invariant forall k :: 0 <= k < i ==> batch[k].log.id == if result.Some? then result.value[k] else 0
        invariant forall k :: 0 <= k < i ==> batch[k].sent == old(batch[k].sent) + [result.None?] && batch[k].closed
        invariant forall k :: i <= k < |batch| ==> batch[k].log.id == 0 && batch[k].sent == old(batch[k].sent)
        invariant idMap == if result.Some? then Resolved(old(idMap), tmps[..i], result.value) else old(idMap)
      {
        assert tmps[..i + 1][..i] == tmps[..i];
        PublishOne(batch[i], tmps[i], if result.Some? then Some(result.value[i]) else None);
      }
      assert tmps[..|batch|] == tmps;
    }

    method PublishOne(e: PendingEntry, tmp: int, id: Option<int>)
      modifies `idMap, e.log, e
      ensures e.log.id == if id.Some? then id.value else old(e.log.id)
      ensures e.sent == old(e.sent) + [id.None?] && e.closed
      ensures idMap == if id.Some? && tmp < 0 && id.value > 0 then old(idMap)[tmp := id.value] else old(idMap)
    {
      if id.Some? {
        BackFill(e.log, tmp, id.value);
      }
      Signal(e, id.None?);
    }

    method BackFill(log: JobLog, tmp: int, id: int)
      modifies `idMap, log
      ensures log.id == id
      ensures idMap == if tmp < 0 && id > 0 then old(idMap)[tmp := id] else old(idMap)
    {
      log.id := id;
      if tmp < 0 && id > 0 {
        idMap := idMap[tmp := id];
      }
    }

    method Signal(e: PendingEntry, failed: bool)
      modifies e
      ensures e.sent == old(e.sent) + [failed] && e.closed
    {
      e.sent, e.closed := e.sent + [failed], true;
    }

    /** One bulk INSERT for the batch, whose answer is `result`: on success every record gets its row's ID and
        the map follows Resolved; on failure the IDs stay 0.  Either way every caller is signalled once. */
    method WriteBatch(batch: seq<PendingEntry>, result: Option<seq<int>>)
      requires Separate(batch) && (result.Some? ==> |result.value| == |batch|)
      modifies `idMap, Logs(batch), batch
      ensures forall i :: 0 <= i < |batch| ==> batch[i].log.id == if result.Some? then result.value[i] else 0
      ensures forall i :: 0 <= i < |batch| ==> batch[i].sent == old(batch[i].sent) + [result.None?] && batch[i].closed
      ensures idMap == if result.Some? then Resolved(old(idMap), old(IdsOf(batch)), result.value) else old(idMap)
    {
      ghost var ids := IdsOf(batch);
      var tmps := TakeTmpIDs(batch);
      assert tmps == ids;
      Publish(batch, tmps, result);
    }

    method InsertBatch(batch: seq<PendingEntry>)
      requires dao.Valid() && Separate(batch) && forall i :: 0 <= i < |batch| ==> batch[i].sent == []
      modifies `idMap, dao, Logs(batch), batch
      ensures dao.Valid() && dao.rows == old(dao.rows) + Landed(batch) && dao.calls == old(dao.calls) + 1
      ensures AllTold(batch, Accepts(dao.answers, old(dao.calls)))
    {
      var result := dao.CreateBatch(PayloadsOf(batch));
      WriteBatch(batch, result);
      if result.Some? {
        LandedAll(batch, result.value);
      } else {
        LandedNone(batch);
      }
    }

    /** UpdateResult works on the real row; a temporary ID that leads somewhere is forgotten once used. */
    method UpdateResult(id: int) returns (rowID: int)
      modifies `idMap
      ensures rowID == if id < 0 && id in old(idMap) then old(idMap)[id] else id
      ensures idMap == if rowID != id then old(idMap) - {id} else old(idMap)
    {
      rowID := id;
      if id < 0 && id in idMap {
        rowID := idMap[id];
      }
      if rowID != id {
        idMap := idMap - {id};
      }
    }

    // Its batch size: 0 and 1 both flush after every record.
    function Limit(): (n: nat)
      ensures n > 0
    {
      if batchSize <= 1 then 1 else batchSize
    }

    // The closure inside flushLoop.
    method Flush()
      requires dao.Valid() && Separate(batch) && forall i :: 0 <= i < |batch| ==> batch[i].sent == []
      modifies this, dao, Logs(batch), batch
      ensures dao.Valid() && batch == []
      ensures dao.rows == old(dao.rows) + Landed(old(batch))
      ensures dao.calls == old(dao.calls) + if old(batch) == [] then 0 else 1
      ensures AllTold(old(batch), Accepts(dao.answers, old(dao.calls)))
    {
      if batch != [] {
        InsertBatch(batch);
        batch := [];
      }
    }

    // Flushing leaves the entries of other batches alone.
    method FlushBeside(ghost done: seq<PendingEntry>, ghost rows0: seq<Row>, ghost first: nat)
      requires FlushedSoFar(done, rows0, first) && Separate(batch) && Apart(done, batch)
      modifies this, dao, Logs(batch), batch
      ensures dao.Valid() && batch == [] && dao.rows == rows0 + Landed(done) + Landed(old(batch))
      ensures dao.calls == old(dao.calls) + if old(batch) == [] then 0 else 1
      ensures AllTold(old(batch), Accepts(dao.answers, old(dao.calls)))
      ensures TurnsTold(done, dao.answers, first, Limit())
    {
      Flush();
      LandedFrame(done);
    }

    // And adds the whole batch to what was done before.
    method FlushOn(ghost done0: seq<PendingEntry>, ghost rows0: seq<Row>, ghost first: nat)
      returns (ghost done: seq<PendingEntry>)
      requires FlushedSoFar(done0, rows0, first) && Separate(batch) && Apart(done0, batch)
      requires Whole(done0, first) && |batch| <= Limit()
      modifies this, dao, Logs(batch), batch
      ensures FlushedSoFar(done, rows0, first) && done == done0 + old(batch) && batch == []
      ensures |old(batch)| == Limit() ==> Whole(done, first)
    {
      ghost var full, turn := batch, dao.calls;
      FlushBeside(done0, rows0, first);
      done := done0 + full;
      LandedConcat(done0, full);
      ToldOn(done0, full, dao.answers, first, turn, Limit());
    }

    /** Receiving one entry: append, and flush when the batch is full. */
    method Receive(e: PendingEntry, ghost done0: seq<PendingEntry>, ghost rows0: seq<Row>, ghost first: nat)
      returns (ghost done: seq<PendingEntry>)
      requires e.sent == [] && FlushedSoFar(done0, rows0, first) && Separate(batch + [e]) && Apart(done0, batch + [e])
      requires Whole(done0, first) && |batch| < Limit()
      modifies this, dao, Logs(batch), batch, e, e.log
      ensures FlushedSoFar(done, rows0, first) && done + batch == done0 + old(batch) + [e]
      ensures batch == if |old(batch)| + 1 < batchSize then old(batch) + [e] else []
      ensures Whole(done, first) && |batch| < Limit()
    {
      batch := batch + [e];
      LandedFrame(done0);
      done := done0;
      if |batch| >= batchSize {
        done := FlushOn(done0, rows0, first);
      }
    }

    // One turn of the drain, k entries into the line.
    method DrainOne(e: PendingEntry, ghost line: seq<PendingEntry>, ghost k: nat,
                    ghost done0: seq<PendingEntry>, ghost rows0: seq<Row>, ghost first: nat)
      returns (ghost done: seq<PendingEntry>)
      requires Separate(line) && k < |line| && e == line[k] && done0 + batch == line[..k]
      requires FlushedSoFar(done0, rows0, first) && WaitsFrom(line, k)
      requires Whole(done0, first) && |batch| < Limit()
      modifies this, dao, Logs(line), line
      ensures FlushedSoFar(done, rows0, first) && done + batch == line[..k + 1] && WaitsFrom(line, k + 1)
      ensures Whole(done, first) && |batch| < Limit()
    {
      InLine(line, done0, batch, k);
      done := Receive(e, done0, rows0, first);
    }

    // The flush after the drain's loop.
    method DrainRest(ghost line: seq<PendingEntry>, ghost done0: seq<PendingEntry>, ghost rows0: seq<Row>,
                     ghost first: nat)
      returns (ghost done: seq<PendingEntry>)
      requires Separate(line) && done0 + batch == line && FlushedSoFar(done0, rows0, first)
      requires Whole(done0, first) && |batch| < Limit()
      modifies this, dao, Logs(line), line
      ensures FlushedSoFar(done, rows0, first) && done == line && batch == []
    {
      SeparateSplit(line, |done0|, |line|);
      assert line[|done0|..] == batch && line[..|done0|] == done0;
      PartLogs(line, |done0|, |line|);
      done := FlushOn(done0, rows0, first);
    }

    /** The drain on stop: whatever is in the ring, then what is left in the batch.  The line is cut into batches of
        the batch size, each written by one call; every entry is told once how its batch's call went, and the rows are
        those of direct inserts in the order of the line. */
    method Drain(ring: seq<PendingEntry>)
      requires dao.Valid() && Separate(batch + ring) && Waits(batch) && Waits(ring) && |batch| < Limit()
      modifies this, dao, Logs(batch + ring), batch + ring
      ensures dao.Valid() && batch == [] && dao.rows == old(dao.rows) + Landed(old(batch) + ring)
      ensures TurnsTold(old(batch) + ring, dao.answers, old(dao.calls), Limit())
    {
      ghost var line, rows0, first, done, n := batch + ring, dao.rows, dao.calls, [], |batch|;
      assert Landed([]) == [] && rows0 + [] == rows0;
      assert line[..n] == [] + batch && forall i :: n <= i < |line| ==> line[i] == ring[i - n];
      for i := 0 to |ring|
        invariant FlushedSoFar(done, rows0, first) && done + batch == line[..n + i] && WaitsFrom(line, n + i)
        invariant Whole(done, first) && |batch| < Limit()
      {
        done := DrainOne(ring[i], line, n + i, done, rows0, first);
      }
      done := DrainRest(line, done, rows0, first);
    }

    ghost predicate FlushedSoFar(done: seq<PendingEntry>, rows0: seq<Row>, first: nat)
      reads this, dao, done, Logs(done), batch
    {
      && dao.Valid() && dao.rows == rows0 + Landed(done)
      && TurnsTold(done, dao.answers, first, Limit())
      && Waits(batch)
    }

    // Only full batches have been flushed since the call numbered first.
    ghost predicate Whole(done: seq<PendingEntry>, first: nat)
      reads this, dao
    {
      dao.calls >= first && |done| == (dao.calls - first) * Limit()
    }
  }

  // Every caller has been signalled once, with the answer.
  ghost predicate AllTold(batch: seq<PendingEntry>, ok: bool)
    reads batch
  {
    forall i :: 0 <= i < |batch| ==> batch[i].closed && batch[i].sent == [!ok]
  }

  // With the answer to the call for its own batch.
  ghost predicate TurnsTold(line: seq<PendingEntry>, answers: seq<bool>, first: nat, size: nat)
    requires size > 0
    reads line
  {
    forall i :: 0 <= i < |line| ==> line[i].closed && line[i].sent == [!Accepts(answers, first + i / size)]
  }

  lemma ToldOn(done: seq<PendingEntry>, batch: seq<PendingEntry>, answers: seq<bool>, first: nat, turn: nat, size: nat)
    requires size > 0 && turn >= first && |done| == (turn - first) * size && |batch| <= size
    requires TurnsTold(done, answers, first, size) && AllTold(batch, Accepts(answers, turn))
    ensures TurnsTold(done + batch, answers, first, size)
    ensures |batch| == size ==> |done + batch| == (turn + 1 - first) * size
  {
    forall i | |done| <= i < |done + batch| ensures i / size == turn - first {
      TurnOf(turn - first, size, i - |done|);
    }
  }

  lemma TurnOf(k: nat, size: nat, j: nat)
    requires j < size
    ensures (k * size + j) / size == k
  {
    var a := k * size + j;
    var q := a / size;
    assert q * size <= a < q * size + size;
    Further(q, k, size);
    Further(k, q, size);
  }

  lemma {:induction false} Further(a: nat, b: nat, size: nat)
    ensures a < b ==> a * size + size <= b * size
  {
    if a + 1 < b {
      Further(a, b - 1, size);
    }
    assert b > 0 ==> b * size == (b - 1) * size + size;
  }

  ghost predicate Apart(a: seq<PendingEntry>, b: seq<PendingEntry>) {
    forall i, k :: 0 <= i < |a| && 0 <= k < |b| ==> a[i] != b[k] && a[i].log != b[k].log
  }

  lemma SeparateSplit(line: seq<PendingEntry>, k: nat, n: nat)
    requires Separate(line) && k <= n <= |line|
    ensures Separate(line[k..n]) && Apart(line[..k], line[k..n])
  {
  }

  ghost predicate WaitsFrom(line: seq<PendingEntry>, k: nat)
    reads line
  {
    forall i :: k <= i < |line| ==> line[i].sent == []
  }

  // The next entry k of the line, against what is done, what is in the batch, and what is still to come.
  lemma InLine(line: seq<PendingEntry>, done: seq<PendingEntry>, batch: seq<PendingEntry>, k: nat)
    requires Separate(line) && k < |line| && done + batch == line[..k]
    ensures Separate(batch + [line[k]]) && Apart(done, batch + [line[k]])
    ensures Logs(batch) <= Logs(line) && line[k] in line && line[k].log in Logs(line)
    ensures forall i :: 0 <= i < |batch| ==> batch[i] == line[|done| + i]
    ensures forall i :: k < i < |line| ==> line[i] !in batch && line[i] != line[k]
    ensures done + batch + [line[k]] == line[..k + 1]
  {
    var b := batch + [line[k]];
    forall i | 0 <= i < |b| ensures b[i] == line[|done| + i] {
      assert i < |batch| ==> (done + batch)[|done| + i] == batch[i];
    }
    forall i | 0 <= i < |done| ensures done[i] == line[i] {
      assert (done + batch)[i] == done[i];
    }
    forall i | 0 <= i < |batch| ensures batch[i] == line[|done| + i] && batch[i] in line {
      assert b[i] == batch[i];
    }
  }

  lemma PartLogs(line: seq<PendingEntry>, k: nat, n: nat)
    requires k <= n <= |line|
    ensures Logs(line[k..n]) <= Logs(line) && forall e :: e in line[k..n] ==> e in line
  {
  }

  twostate lemma {:induction false} LandedFrame(line: seq<PendingEntry>)
    requires forall i :: 0 <= i < |line| ==> line[i].sent == old(line[i].sent) && line[i].log.id == old(line[i].log.id)
    ensures Landed(line) == old(Landed(line))
  {
    if line != [] {
      LandedFrame(line[..|line| - 1]);
    }
  }

  ghost predicate Waits(line: seq<PendingEntry>)
    reads line
  {
    forall i :: 0 <= i < |line| ==> line[i].sent == []
  }

  lemma {:induction false} LandedAll(line: seq<PendingEntry>, ids: seq<int>)
    requires |ids| == |line| && forall i :: 0 <= i < |line| ==> line[i].sent == [false] && line[i].log.id == ids[i]
    ensures Landed(line) == RowsFor(ids, PayloadsOf(line))
  {
    if line != [] {
      LandedAll(line[..|line| - 1], ids[..|line| - 1]);
    }
  }

  lemma {:induction false} LandedNone(line: seq<PendingEntry>)
    requires forall i :: 0 <= i < |line| ==> line[i].sent == [true]
    ensures Landed(line) == []
  {
    if line != [] {
      LandedNone(line[..|line| - 1]);
    }
  }

  lemma {:induction false} LandedConcat(a: seq<PendingEntry>, b: seq<PendingEntry>)
    ensures Landed(a + b) == Landed(a) + Landed(b)
    decreases |b|
  {
    if b == [] {
      assert a + b == a;
    } else {
      assert (a + b)[..|a + b| - 1] == a + b[..|b| - 1];
      LandedConcat(a, b[..|b| - 1]);
    }
  }
}
